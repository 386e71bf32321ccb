/** The English instruction update: every English question gets the
    instruction of the section its number falls in. */
module EnglishInstructions {
  import opened Common
  import opened Schema
  import opened Storage

  /** The `instructions` object: one text per section of the English
      paper. */
  datatype Instructions = Instructions(
    section1_10: string,
    section11_20: string,
    section21_30: string,
    section31_40: string,
    section41_70: string,
    section71_80: string)

  /** The texts the update writes. */
  const PaperInstructions: Instructions :=
    Instructions(
      "In each of the following sentences, there is one underlined word and " +
      "one gap. From the list of words lettered A to D, choose the one that is " +
      "most nearly opposite in meaning to the underlined word and that will, " +
      "at the same time, correctly fill the gap in the sentence.",
      "From the words lettered A to D, choose the word that best completes " +
      "each of the following sentences.",
      "In each of the following sentences, a list of possible interpretations " +
      "is given. Choose the interpretation that is most appropriate for each " +
      "sentence.",
      "From the words lettered A to D before each of the following sentences, " +
      "choose the word or group words that is nearest in meaning to the " +
      "underlined word as it is used in the sentence.",
      "From the words or group of words lettered A to D, choose the word or " +
      "group of words that best completes each of the following sentences:",
      "In the following passage, the numbered gaps indicate missing words. " +
      "Against each number in the list below, four options are given in " +
      "columns lettered A to D. Choose the word that is the most suitable to " +
      "fill the numbered gap in the passage.\n\nA student had a severe attack " +
      "of malaria and was rushed to the hospital in a private ambulance. He " +
      "was brought to the ward where the doctor on duty was waiting to attend " +
      "to him. The patient was wheeled into the consulting room on a stretcher " +
      "and the nurses stepped aside for the doctor to start his examination. " +
      "He took out his stethoscope - placed its arms into his ears to listen " +
      "to the patient's heartbeat. The patient's temperature was taken with a " +
      "clinical thermometer.\n\nWhen the doctor completed his diagnosis, he " +
      "asked the nurse to take the patient to the ward where he was kept under " +
      "observation for twenty-four hours.\n\nDrugs and injections were " +
      "prescribed by the doctor and were administered by the nurses. One of " +
      "the nurses loaded a syringe for an injection to be given to the " +
      "patient. Two days later, he started to recuperate and the doctor " +
      "decided to discharge him. He was advised by the doctor to sleep under a " +
      "treated mosquito net.")

  /** `getInstructionForQuestion`: the text of the section holding the
      question number, the empty string outside 1 to 80. */
  function InstructionFor(ins: Instructions, questionNumber: int): (s: string)
    ensures !(1 <= questionNumber <= 80) ==> s == ""
  {
    if 1 <= questionNumber <= 10 then ins.section1_10
    else if 11 <= questionNumber <= 20 then ins.section11_20
    else if 21 <= questionNumber <= 30 then ins.section21_30
    else if 31 <= questionNumber <= 40 then ins.section31_40
    else if 41 <= questionNumber <= 70 then ins.section41_70
    else if 71 <= questionNumber <= 80 then ins.section71_80
    else ""
  }

  /** The paper's layout computed arithmetically: four sections of ten,
      one of thirty, one of ten; 0 outside the paper. */
  function Section(questionNumber: int): (k: nat)
    ensures k <= 6
    ensures k == 0 <==> !(1 <= questionNumber <= 80)
  {
    if questionNumber < 1 || questionNumber > 80 then 0
    else if questionNumber <= 40 then (questionNumber - 1) / 10 + 1
    else if questionNumber <= 70 then 5
    else 6
  }

  /** The texts by section, with "" for section 0. */
  function Texts(ins: Instructions): (t: seq<string>)
    ensures |t| == 7 && t[0] == ""
  {
    ["", ins.section1_10, ins.section11_20, ins.section21_30, ins.section31_40, ins.section41_70, ins.section71_80]
  }

  /** The instruction is the text of the question's section. */
  lemma InstructionIsSectionText(ins: Instructions, questionNumber: int)
    ensures InstructionFor(ins, questionNumber) == Texts(ins)[Section(questionNumber)]
  {
    var n := questionNumber;
    if 1 <= n <= 10 {
      assert Section(n) == 1;
    } else if 11 <= n <= 20 {
      assert Section(n) == 2;
    } else if 21 <= n <= 30 {
      assert Section(n) == 3;
    } else if 31 <= n <= 40 {
      assert Section(n) == 4;
    }
  }

  /** The six texts of the paper are non-empty and pairwise different. */
  lemma PaperTextsDistinct()
    ensures var t := Texts(PaperInstructions);
      forall i, j :: 0 <= i < |t| && 0 <= j < |t| && i != j ==> t[i] != t[j]
  {
    var t := Texts(PaperInstructions);
    assert |t[1]| == 268 && |t[2]| == 100 && |t[3]| == 150;
    assert |t[4]| == 182 && |t[5]| == 136 && |t[6]| == 1187;
  }

  /** A question of the paper gets a non-empty instruction exactly when
      its number is in 1 to 80, and two questions get the same one exactly
      when they are in the same section. */
  lemma PaperInstructionsBySection(a: int, b: int)
    ensures InstructionFor(PaperInstructions, a) != "" <==> 1 <= a <= 80
    ensures InstructionFor(PaperInstructions, a) == InstructionFor(PaperInstructions, b) <==> Section(a) == Section(b)
  {
    InstructionIsSectionText(PaperInstructions, a);
    InstructionIsSectionText(PaperInstructions, b);
    PaperTextsDistinct();
  }

  /** A question with its section's instruction set. */
  function WithInstruction(ins: Instructions, q: Question): (r: Question)
    ensures r.instruction == Some(InstructionFor(ins, q.questionNumber))
    ensures r.(instruction := q.instruction) == q
  {
    q.(instruction := Some(InstructionFor(ins, q.questionNumber)))
  }

  /** The table after the update: the rows of `subjectId` carry their
      instruction, all others are as they were. */
  function Annotated(ins: Instructions, rows: seq<Question>, subjectId: Id): (r: seq<Question>)
    ensures |r| == |rows|
    ensures forall i :: 0 <= i < |rows| ==>
      r[i] == if rows[i].subjectId == subjectId then WithInstruction(ins, rows[i]) else rows[i]
  {
    seq(|rows|, i requires 0 <= i < |rows| =>
      if rows[i].subjectId == subjectId then WithInstruction(ins, rows[i]) else rows[i])
  }

  /** Running the update a second time changes nothing. */
  lemma AnnotatedIdempotent(ins: Instructions, rows: seq<Question>, subjectId: Id)
    ensures Annotated(ins, Annotated(ins, rows, subjectId), subjectId) == Annotated(ins, rows, subjectId)
  {
    var once := Annotated(ins, rows, subjectId);
    var twice := Annotated(ins, once, subjectId);
    forall i | 0 <= i < |rows|
      ensures twice[i] == once[i]
    {
    }
  }

  /** The keys of a list of rows. */
  function IdsOf(rows: seq<Question>): set<nat>
  {
    if |rows| == 0 then {} else IdsOf(rows[..|rows| - 1]) + {rows[|rows| - 1].id}
  }

  /** A key is in `IdsOf(rows)` exactly when some row has it. */
  lemma {:induction false} IdsOfMembers(rows: seq<Question>)
    ensures forall i :: i in IdsOf(rows) <==> exists m :: 0 <= m < |rows| && rows[m].id == i
  {
    if |rows| > 0 {
      var init := rows[..|rows| - 1];
      IdsOfMembers(init);
      forall i | i in IdsOf(rows)
        ensures exists m :: 0 <= m < |rows| && rows[m].id == i
      {
        if i in IdsOf(init) {
          var m :| 0 <= m < |init| && init[m].id == i;
          assert rows[m].id == i;
        } else {
          assert rows[|rows| - 1].id == i;
        }
      }
      forall i, m | 0 <= m < |rows| && rows[m].id == i
        ensures i in IdsOf(rows)
      {
        if m < |rows| - 1 {
          assert init[m].id == i;
        }
      }
    }
  }

  /** The table with the instruction set on the rows whose keys are in
      `ids`, and every other row as in `before`. */
  ghost predicate AnnotatedAt(ins: Instructions, rows: seq<Question>, before: seq<Question>, ids: set<nat>)
  {
    |rows| == |before| &&
    forall i :: 0 <= i < |before| ==> rows[i] == if i in ids then WithInstruction(ins, before[i]) else before[i]
  }

  /** Every row of the subject has its key among the subject's questions. */
  lemma SubjectRowsListed(before: seq<Question>, sid: Id)
    requires forall i :: 0 <= i < |before| ==> before[i].id == i
    ensures forall i :: 0 <= i < |before| && before[i].subjectId == sid ==>
      i in IdsOf(QuestionsOf(before, sid))
  {
    var englishQuestions := QuestionsOf(before, sid);
    IdsOfMembers(englishQuestions);
    forall i | 0 <= i < |before| && before[i].subjectId == sid
      ensures i in IdsOf(englishQuestions)
    {
      assert before[i] in englishQuestions;
      var m :| 0 <= m < |englishQuestions| && englishQuestions[m] == before[i];
      assert englishQuestions[m].id == i;
    }
  }

  /** Every key among the subject's questions is the position of a row of
      the subject. */
  lemma ListedAreSubjectRows(before: seq<Question>, sid: Id)
    requires forall i :: 0 <= i < |before| ==> before[i].id == i
    ensures forall i :: 0 <= i < |before| && i in IdsOf(QuestionsOf(before, sid)) ==>
      before[i].subjectId == sid
  {
    var englishQuestions := QuestionsOf(before, sid);
    IdsOfMembers(englishQuestions);
    forall i | 0 <= i < |before| && i in IdsOf(englishQuestions)
      ensures before[i].subjectId == sid
    {
      var m :| 0 <= m < |englishQuestions| && englishQuestions[m].id == i;
      var q := englishQuestions[m];
      assert q in englishQuestions;
      assert q in before && q.subjectId == sid;
      var p :| 0 <= p < |before| && before[p] == q;
    }
  }

  /** Annotating the keys of the subject's questions is annotating the
      subject. */
  lemma AnnotatedAtSubject(ins: Instructions, rows: seq<Question>, before: seq<Question>, sid: Id)
    requires forall i :: 0 <= i < |before| ==> before[i].id == i
    requires AnnotatedAt(ins, rows, before, IdsOf(QuestionsOf(before, sid)))
    ensures rows == Annotated(ins, before, sid)
  {
    SubjectRowsListed(before, sid);
    ListedAreSubjectRows(before, sid);
  }

  /** One pass of the loop: entry `k` of the subject's questions gets its
      instruction. */
  method AnnotateStep(store: Store, ins: Instructions, englishQuestions: seq<Question>, k: nat, ghost before: seq<Question>)
    requires store.Valid() && k < |englishQuestions|
    requires forall i :: 0 <= i < |before| ==> before[i].id == i
    requires englishQuestions[k] in before
    requires AnnotatedAt(ins, store.questions, before, IdsOf(englishQuestions[..k]))
    modifies store`questions
    ensures store.Valid()
    ensures AnnotatedAt(ins, store.questions, before, IdsOf(englishQuestions[..k + 1]))
  {
    var question := englishQuestions[k];
    assert englishQuestions[..k + 1][..k] == englishQuestions[..k];
    store.SetInstruction(question.id, InstructionFor(ins, question.questionNumber));
  }

  /** The loop of `updateEnglishInstructions` over the subject's questions. */
  method AnnotateSubject(store: Store, ins: Instructions, sid: Id) returns (updateCount: nat)
    requires store.Valid()
    modifies store`questions
    ensures store.Valid()
    ensures store.questions == Annotated(ins, old(store.questions), sid)
    ensures updateCount == |QuestionsOf(old(store.questions), sid)|
  {
    ghost var before := store.questions;
    var englishQuestions := QuestionsOf(store.questions, sid);
    updateCount := 0;
    for k := 0 to |englishQuestions|
      invariant store.Valid()
      invariant updateCount == k
      invariant forall i :: 0 <= i < |before| ==> before[i].id == i
      invariant AnnotatedAt(ins, store.questions, before, IdsOf(englishQuestions[..k]))
    {
      assert englishQuestions[k] in before;
      AnnotateStep(store, ins, englishQuestions, k, before);
      updateCount := updateCount + 1;
    }
    assert englishQuestions[..|englishQuestions|] == englishQuestions;
    AnnotatedAtSubject(ins, store.questions, before, sid);
  }

  /** `updateEnglishInstructions`: nothing happens without an English
      subject; otherwise each English question, in table order, gets its
      instruction, and the count is the number of English questions. */
  method UpdateEnglishInstructions(store: Store) returns (found: bool, updateCount: nat)
    requires store.Valid()
    modifies store`questions
    ensures store.Valid()
    ensures found <==> old(store.SubjectByName("English")).Some?
    ensures !found ==> store.questions == old(store.questions) && updateCount == 0
    ensures found ==> var english := old(store.SubjectByName("English")).value;
      store.questions == Annotated(PaperInstructions, old(store.questions), english.id) &&
      updateCount == |QuestionsOf(old(store.questions), english.id)|
  {
    var englishSubject := store.SubjectByName("English");
    if englishSubject.None? {
      return false, 0;
    }
    found := true;
    updateCount := AnnotateSubject(store, PaperInstructions, englishSubject.value.id);
  }
}
