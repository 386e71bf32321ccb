/** The database storage layer: the five tables held in memory by one
    `Store` object, the queries the server runs against them and the writes
    (inserts, the session update and the answer upsert). */
module Storage {
  import opened Common
  import opened Schema

  // ---------------------------------------------------------------------
  // Queries over one table, as pure functions of its rows
  // ---------------------------------------------------------------------

  /** The first subject with the given name (`where name = ...`, first row). */
  function SubjectIndex(rows: seq<Subject>, name: string): (r: Option<nat>)
    ensures r.Some? ==> r.value < |rows| && rows[r.value].name == name
    ensures r.Some? ==> forall j :: 0 <= j < r.value ==> rows[j].name != name
    ensures r.None? ==> forall j :: 0 <= j < |rows| ==> rows[j].name != name
  {
    if |rows| == 0 then None
    else if rows[0].name == name then Some(0)
    else match SubjectIndex(rows[1..], name)
      case None => None
      case Some(i) => Some(i + 1)
  }

  /** The first question with the given subject and question number. */
  function QuestionKeyIndex(rows: seq<Question>, subjectId: Id, questionNumber: int): (r: Option<nat>)
    ensures r.Some? ==> r.value < |rows|
    ensures r.Some? ==> rows[r.value].subjectId == subjectId && rows[r.value].questionNumber == questionNumber
    ensures r.None? ==> forall j :: 0 <= j < |rows| ==>
      rows[j].subjectId != subjectId || rows[j].questionNumber != questionNumber
  {
    if |rows| == 0 then None
    else if rows[0].subjectId == subjectId && rows[0].questionNumber == questionNumber then Some(0)
    else match QuestionKeyIndex(rows[1..], subjectId, questionNumber)
      case None => None
      case Some(i) => Some(i + 1)
  }

  /** The first answer row of the given (session, question) pair. */
  function AnswerIndex(rows: seq<Answer>, sessionId: Id, questionId: Id): (r: Option<nat>)
    ensures r.Some? ==> r.value < |rows|
    ensures r.Some? ==> rows[r.value].examSessionId == sessionId && rows[r.value].questionId == questionId
    ensures r.Some? ==> forall j :: 0 <= j < r.value ==>
      rows[j].examSessionId != sessionId || rows[j].questionId != questionId
    ensures r.None? ==> forall j :: 0 <= j < |rows| ==>
      rows[j].examSessionId != sessionId || rows[j].questionId != questionId
  {
    if |rows| == 0 then None
    else if rows[0].examSessionId == sessionId && rows[0].questionId == questionId then Some(0)
    else match AnswerIndex(rows[1..], sessionId, questionId)
      case None => None
      case Some(i) => Some(i + 1)
  }

  /** The answer rows of one session, in table order. */
  function AnswersOf(rows: seq<Answer>, sessionId: Id): (r: seq<Answer>)
    ensures |r| <= |rows|
    ensures forall a :: multiset(r)[a] == if a.examSessionId == sessionId then multiset(rows)[a] else 0
    ensures forall a :: a in r <==> a in rows && a.examSessionId == sessionId
  {
    if |rows| == 0 then []
    else
      assert rows == [rows[0]] + rows[1..];
      var rest := AnswersOf(rows[1..], sessionId);
      if rows[0].examSessionId == sessionId then [rows[0]] + rest else rest
  }

  /** The question rows of one subject, in table order. */
  function QuestionsOf(rows: seq<Question>, subjectId: Id): (r: seq<Question>)
    ensures |r| <= |rows|
    ensures forall q :: multiset(r)[q] == if q.subjectId == subjectId then multiset(rows)[q] else 0
    ensures forall q :: q in r <==> q in rows && q.subjectId == subjectId
  {
    if |rows| == 0 then []
    else
      assert rows == [rows[0]] + rows[1..];
      var rest := QuestionsOf(rows[1..], subjectId);
      if rows[0].subjectId == subjectId then [rows[0]] + rest else rest
  }

  /** Ascending `questionNumber` order (`orderBy(asc(questionNumber))`). */
  ghost predicate SortedByNumber(s: seq<Question>)
  {
    forall i, j :: 0 <= i < j < |s| ==> s[i].questionNumber <= s[j].questionNumber
  }

  /** Every later row of a sorted list has a number at least the first's. */
  lemma HeadIsLeast(s: seq<Question>)
    requires SortedByNumber(s) && |s| > 0
    ensures forall x :: x in s[1..] ==> s[0].questionNumber <= x.questionNumber
  {
    forall x | x in s[1..]
      ensures s[0].questionNumber <= x.questionNumber
    {
      var k :| 0 <= k < |s[1..]| && s[1..][k] == x;
      assert s[k + 1] == x;
    }
  }

  /** A row no larger than every row of a sorted list can go in front. */
  lemma ConsSorted(h: Question, t: seq<Question>)
    requires SortedByNumber(t)
    requires forall x :: x in t ==> h.questionNumber <= x.questionNumber
    ensures SortedByNumber([h] + t)
  {
    var r := [h] + t;
    forall i, j | 0 <= i < j < |r|
      ensures r[i].questionNumber <= r[j].questionNumber
    {
      assert r[j] == t[j - 1];
      if i > 0 {
        assert r[i] == t[i - 1];
      } else {
        assert t[j - 1] in t;
      }
    }
  }

  /** Inserts `q` into a list already in ascending question-number order. */
  function InsertByNumber(q: Question, s: seq<Question>): (r: seq<Question>)
    requires SortedByNumber(s)
    ensures SortedByNumber(r)
    ensures multiset(r) == multiset(s) + multiset{q}
  {
    if |s| == 0 then [q]
    else if q.questionNumber <= s[0].questionNumber then
      HeadIsLeast(s);
      assert s == [s[0]] + s[1..];
      ConsSorted(q, s);
      [q] + s
    else
      var tail := InsertByNumber(q, s[1..]);
      assert s == [s[0]] + s[1..];
      HeadIsLeast(s);
      forall x | x in tail ensures s[0].questionNumber <= x.questionNumber {
        assert x in multiset(tail);
      }
      ConsSorted(s[0], tail);
      [s[0]] + tail
  }

  /** The rows of `s` in ascending question-number order. */
  function SortByNumber(s: seq<Question>): (r: seq<Question>)
    ensures SortedByNumber(r)
    ensures multiset(r) == multiset(s)
  {
    if |s| == 0 then []
    else
      assert s == [s[0]] + s[1..];
      InsertByNumber(s[0], SortByNumber(s[1..]))
  }

  /** The positions of the rows marked correct (`isCorrect === true`). */
  ghost function CorrectPositions(rows: seq<Answer>): set<int>
  {
    set i | 0 <= i < |rows| && rows[i].isCorrect == Some(true)
  }

  /** The correct positions of a list with one more row at its end. */
  lemma CorrectPositionsSnoc(rows: seq<Answer>)
    requires |rows| > 0
    ensures var k := |rows| - 1;
      && CorrectPositions(rows) ==
           CorrectPositions(rows[..k]) + (if rows[k].isCorrect == Some(true) then {k} else {})
      && k !in CorrectPositions(rows[..k])
  {
    var k := |rows| - 1;
    assert forall i :: 0 <= i < k ==> rows[..k][i] == rows[i];
  }

  /** `filter(a => a.isCorrect === true).length`: the number of rows marked
      correct. */
  function CountCorrect(rows: seq<Answer>): (n: nat)
    ensures n == |CorrectPositions(rows)|
    ensures n <= |rows|
    ensures n == |rows| <==> forall i :: 0 <= i < |rows| ==> rows[i].isCorrect == Some(true)
    ensures n == 0 <==> forall i :: 0 <= i < |rows| ==> rows[i].isCorrect != Some(true)
  {
    if |rows| == 0 then 0
    else
      var k := |rows| - 1;
      var rest := CountCorrect(rows[..k]);
      CorrectPositionsSnoc(rows);
      assert forall i :: 0 <= i < k ==> rows[i] == rows[..k][i];
      rest + (if rows[k].isCorrect == Some(true) then 1 else 0)
  }

  /** Counting from the front: the first row adds one exactly when it is
      marked correct. */
  lemma {:induction false} CountCorrectCons(x: Answer, rows: seq<Answer>)
    ensures CountCorrect([x] + rows) == (if x.isCorrect == Some(true) then 1 else 0) + CountCorrect(rows)
  {
    if |rows| > 0 {
      var k := |rows| - 1;
      var xs := [x] + rows;
      var last := if rows[k].isCorrect == Some(true) then 1 else 0;
      assert xs[..k + 1] == [x] + rows[..k];
      assert xs[k + 1] == rows[k];
      assert CountCorrect(xs) == CountCorrect(xs[..k + 1]) + last;
      assert CountCorrect(rows) == CountCorrect(rows[..k]) + last;
      CountCorrectCons(x, rows[..k]);
    }
  }

  // ---------------------------------------------------------------------
  // The store
  // ---------------------------------------------------------------------

  class Store {
    var students: seq<Student>
    var subjects: seq<Subject>
    var questions: seq<Question>
    var sessions: seq<ExamSession>
    var answers: seq<Answer>

    /** Keys are row positions; the declared uniqueness constraints and
        column widths hold; at most one answer row per (session, question). */
    ghost predicate Valid()
      reads this
    {
      && (forall i :: 0 <= i < |students| ==> students[i].id == i)
      && (forall i :: 0 <= i < |subjects| ==> subjects[i].id == i)
      && (forall i :: 0 <= i < |questions| ==> questions[i].id == i)
      && (forall i :: 0 <= i < |sessions| ==> sessions[i].id == i)
      && (forall i :: 0 <= i < |answers| ==> answers[i].id == i)
      && SubjectNamesUnique(subjects)
      && QuestionKeysUnique(questions)
      && AnswerPairsUnique(answers)
      && (forall i :: 0 <= i < |questions| ==> FitsVarchar(questions[i].correctOption, 1))
      && (forall i :: 0 <= i < |answers| && answers[i].selectedOption.Some? ==>
            FitsVarchar(answers[i].selectedOption.value, 1))
    }

    constructor ()
      ensures Valid()
      ensures students == [] && subjects == [] && questions == [] && sessions == [] && answers == []
    {
      students, subjects, questions, sessions, answers := [], [], [], [], [];
    }

    // --- students ---

    /** `createStudent`: inserts one row and returns it. */
    method CreateStudent(input: InsertStudent, now: Timestamp) returns (s: Student)
      requires Valid()
      modifies this`students
      ensures Valid()
      ensures s == Student(|old(students)|, input.name, input.gender, now)
      ensures students == old(students) + [s]
    {
      s := Student(|students|, input.name, input.gender, now);
      students := students + [s];
    }

    /** `getStudent`: the row with that key, or none. */
    function StudentById(id: Id): (r: Option<Student>)
      requires Valid()
      reads this
      ensures r.Some? ==> r.value in students && r.value.id == id
      ensures r.None? ==> forall i :: 0 <= i < |students| ==> students[i].id != id
    {
      if id < |students| then Some(students[id]) else None
    }

    // --- subjects ---

    /** Inserts a subject; the unique name constraint refuses a duplicate. */
    method CreateSubject(name: string, duration: int, questionCount: int) returns (r: Option<Subject>)
      requires Valid()
      modifies this`subjects
      ensures Valid()
      ensures r.None? <==> SubjectIndex(old(subjects), name).Some?
      ensures r.None? ==> subjects == old(subjects)
      ensures r.Some? ==> r.value == Subject(|old(subjects)|, name, duration, questionCount)
      ensures r.Some? ==> subjects == old(subjects) + [r.value]
    {
      if SubjectIndex(subjects, name).Some? {
        return None;
      }
      var s := Subject(|subjects|, name, duration, questionCount);
      subjects := subjects + [s];
      r := Some(s);
    }

    /** `getSubjectByName`: the subject with that name, or none. */
    function SubjectByName(name: string): (r: Option<Subject>)
      requires Valid()
      reads this
      ensures r.Some? ==> r.value in subjects && r.value.name == name
      ensures r.None? ==> forall i :: 0 <= i < |subjects| ==> subjects[i].name != name
    {
      match SubjectIndex(subjects, name)
      case None => None
      case Some(i) => Some(subjects[i])
    }

    /** `select from subjects where id = ...`. */
    function SubjectById(id: Id): (r: Option<Subject>)
      requires Valid()
      reads this
      ensures r.Some? ==> r.value in subjects && r.value.id == id
      ensures r.None? ==> forall i :: 0 <= i < |subjects| ==> subjects[i].id != id
    {
      if id < |subjects| then Some(subjects[id]) else None
    }

    // --- questions ---

    /** Inserts a question. The unique index on (subject, number) and the
        one-character `correct_option` column refuse a row, and then nothing
        is written. */
    method InsertQuestion(nq: NewQuestion) returns (r: Option<Question>)
      requires Valid()
      modifies this`questions
      ensures Valid()
      ensures r.None? <==>
        QuestionKeyIndex(old(questions), nq.subjectId, nq.questionNumber).Some? || !FitsVarchar(nq.correctOption, 1)
      ensures r.None? ==> questions == old(questions)
      ensures r.Some? ==> r.value == RowOf(|old(questions)|, nq) && questions == old(questions) + [r.value]
    {
      if QuestionKeyIndex(questions, nq.subjectId, nq.questionNumber).Some? || !FitsVarchar(nq.correctOption, 1) {
        return None;
      }
      var q := RowOf(|questions|, nq);
      questions := questions + [q];
      r := Some(q);
    }

    /** `select from questions where id = ...`. */
    function QuestionById(id: Id): (r: Option<Question>)
      requires Valid()
      reads this
      ensures r.Some? ==> r.value in questions && r.value.id == id
      ensures r.None? ==> forall i :: 0 <= i < |questions| ==> questions[i].id != id
    {
      if id < |questions| then Some(questions[id]) else None
    }

    /** `getQuestionsBySubject`: exactly the subject's questions, in
        ascending question-number order. */
    function QuestionsBySubject(subjectId: Id): (r: seq<Question>)
      reads this
      ensures SortedByNumber(r)
      ensures forall q :: multiset(r)[q] == if q.subjectId == subjectId then multiset(questions)[q] else 0
    {
      SortByNumber(QuestionsOf(questions, subjectId))
    }

    /** `update questions set instruction = ... where id = ...`. */
    method SetInstruction(id: Id, instruction: string)
      requires Valid()
      modifies this`questions
      ensures Valid()
      ensures |questions| == |old(questions)|
      ensures forall i :: 0 <= i < |questions| ==>
        questions[i] == if i == id then old(questions)[i].(instruction := Some(instruction)) else old(questions)[i]
    {
      if id < |questions| {
        questions := questions[id := questions[id].(instruction := Some(instruction))];
      }
    }

    // --- exam sessions ---

    /** `createExamSession`: inserts one row with the column defaults. */
    method CreateExamSession(input: InsertExamSession) returns (s: ExamSession)
      requires Valid()
      modifies this`sessions
      ensures Valid()
      ensures s == NewSession(|old(sessions)|, input)
      ensures sessions == old(sessions) + [s]
    {
      s := NewSession(|sessions|, input);
      sessions := sessions + [s];
    }

    /** `getExamSession`: the row with that key, or none. */
    function SessionById(id: Id): (r: Option<ExamSession>)
      requires Valid()
      reads this
      ensures r.Some? ==> r.value in sessions && r.value.id == id
      ensures r.None? ==> forall i :: 0 <= i < |sessions| ==> sessions[i].id != id
    {
      if id < |sessions| then Some(sessions[id]) else None
    }

    /** `updateExamSession`: applies the patch to the session with that key
        and returns the updated row; with no such session nothing changes. */
    method UpdateExamSession(id: Id, patch: SessionPatch) returns (r: Option<ExamSession>)
      requires Valid()
      modifies this`sessions
      ensures Valid()
      ensures |sessions| == |old(sessions)|
      ensures r.Some? <==> id < |sessions|
      ensures r.Some? ==> r.value == ApplyPatch(old(sessions)[id], patch) && sessions == old(sessions)[id := r.value]
      ensures r.None? ==> sessions == old(sessions)
    {
      if id < |sessions| {
        var updated := ApplyPatch(sessions[id], patch);
        sessions := sessions[id := updated];
        r := Some(updated);
      } else {
        r := None;
      }
    }

    // --- answers ---

    /** `saveAnswer`: the check-then-update-or-insert of `Upsert`. A
        selection longer than the one-character column is refused by the
        database with no write. */
    method SaveAnswer(input: InsertAnswer, now: Timestamp) returns (r: Option<Answer>)
      requires Valid()
      modifies this`answers
      ensures Valid()
      ensures r.None? <==> input.selectedOption.Some? && !FitsVarchar(input.selectedOption.value, 1)
      ensures r.None? ==> answers == old(answers)
      ensures r.Some? ==> answers == Upsert(old(answers), input, now)
      ensures r.Some? ==> AnswerIndex(answers, input.examSessionId, input.questionId).Some?
      ensures r.Some? ==> r.value == answers[AnswerIndex(answers, input.examSessionId, input.questionId).value]
    {
      if input.selectedOption.Some? && !FitsVarchar(input.selectedOption.value, 1) {
        return None;
      }
      var existing := AnswerIndex(answers, input.examSessionId, input.questionId);
      UpsertStoresInput(answers, input, now);
      UpsertKeepsPairsUnique(answers, input, now);
      match existing {
        case Some(k) =>
          var updated := answers[k].(selectedOption := input.selectedOption, isCorrect := input.isCorrect, savedAt := now);
          answers := answers[k := updated];
          r := Some(updated);
        case None =>
          var a := Answer(|answers|, input.examSessionId, input.questionId, input.selectedOption, input.isCorrect, now);
          answers := answers + [a];
          r := Some(a);
      }
    }

    /** `getAnswersBySession`: exactly the rows of that session. */
    function AnswersBySession(sessionId: Id): (r: seq<Answer>)
      reads this
      ensures forall a :: multiset(r)[a] == if a.examSessionId == sessionId then multiset(answers)[a] else 0
    {
      AnswersOf(answers, sessionId)
    }

    /** `getAnswer`: the row matching both keys, or none. */
    function AnswerFor(sessionId: Id, questionId: Id): (r: Option<Answer>)
      reads this
      ensures r.Some? ==> r.value in answers && r.value.examSessionId == sessionId && r.value.questionId == questionId
      ensures r.None? ==> forall i :: 0 <= i < |answers| ==>
        answers[i].examSessionId != sessionId || answers[i].questionId != questionId
    {
      match AnswerIndex(answers, sessionId, questionId)
      case None => None
      case Some(k) => Some(answers[k])
    }
  }

  /** The stored row of a question insert, with the key it receives. */
  function RowOf(id: Id, nq: NewQuestion): (q: Question)
    ensures q.id == id && q.subjectId == nq.subjectId && q.questionNumber == nq.questionNumber
    ensures q.correctOption == nq.correctOption && q.optionE == nq.optionE
  {
    Question(id, nq.subjectId, nq.questionNumber, nq.questionText, nq.instruction,
             nq.optionA, nq.optionB, nq.optionC, nq.optionD, nq.optionE, nq.correctOption)
  }

  // ---------------------------------------------------------------------
  // The answer upsert as a function of the answers table
  // ---------------------------------------------------------------------

  /** The answers table after `saveAnswer`: the row of the input's
      (session, question) pair, if there is one, gets the new selection,
      correctness and save time; otherwise one row is appended. */
  function Upsert(rows: seq<Answer>, input: InsertAnswer, now: Timestamp): seq<Answer>
  {
    match AnswerIndex(rows, input.examSessionId, input.questionId)
    case Some(k) =>
      rows[k := rows[k].(selectedOption := input.selectedOption, isCorrect := input.isCorrect, savedAt := now)]
    case None =>
      rows + [Answer(|rows|, input.examSessionId, input.questionId, input.selectedOption, input.isCorrect, now)]
  }

  /** An answer row belongs to the pair (sessionId, questionId). */
  predicate IsPair(a: Answer, sessionId: Id, questionId: Id)
  {
    a.examSessionId == sessionId && a.questionId == questionId
  }

  /** The upsert inserts a row exactly when the pair had none, and every row
      of a different pair stays as it was. */
  lemma UpsertTouchesOnlyItsPair(rows: seq<Answer>, input: InsertAnswer, now: Timestamp)
    ensures var had := AnswerIndex(rows, input.examSessionId, input.questionId).Some?;
      |Upsert(rows, input, now)| == if had then |rows| else |rows| + 1
    ensures forall i :: 0 <= i < |rows| && !IsPair(rows[i], input.examSessionId, input.questionId) ==>
      Upsert(rows, input, now)[i] == rows[i]
  {
  }

  /** A row that is the first of its pair is what AnswerIndex finds. */
  lemma FirstOfPair(rows: seq<Answer>, sessionId: Id, questionId: Id, k: nat)
    requires k < |rows| && IsPair(rows[k], sessionId, questionId)
    requires forall j :: 0 <= j < k ==> !IsPair(rows[j], sessionId, questionId)
    ensures AnswerIndex(rows, sessionId, questionId) == Some(k)
  {
  }

  /** After the upsert the pair has a row, found by `getAnswer`, holding the
      input's selection and correctness and the save time, and keeping the
      key of the row it replaced. */
  lemma UpsertStoresInput(rows: seq<Answer>, input: InsertAnswer, now: Timestamp)
    ensures var k := AnswerIndex(Upsert(rows, input, now), input.examSessionId, input.questionId);
      && k.Some?
      && k == (if AnswerIndex(rows, input.examSessionId, input.questionId).Some?
               then AnswerIndex(rows, input.examSessionId, input.questionId) else Some(|rows|))
      && Upsert(rows, input, now)[k.value].selectedOption == input.selectedOption
      && Upsert(rows, input, now)[k.value].isCorrect == input.isCorrect
      && Upsert(rows, input, now)[k.value].savedAt == now
      && Upsert(rows, input, now)[k.value].id == (if k.value < |rows| then rows[k.value].id else |rows|)
  {
    var sid, qid := input.examSessionId, input.questionId;
    var u := Upsert(rows, input, now);
    match AnswerIndex(rows, sid, qid)
    case Some(k) =>
      FirstOfPair(u, sid, qid, k);
    case None =>
      FirstOfPair(u, sid, qid, |rows|);
  }

  /** The upsert keeps "at most one row per (session, question)". */
  lemma UpsertKeepsPairsUnique(rows: seq<Answer>, input: InsertAnswer, now: Timestamp)
    requires AnswerPairsUnique(rows)
    ensures AnswerPairsUnique(Upsert(rows, input, now))
  {
    var u := Upsert(rows, input, now);
    match AnswerIndex(rows, input.examSessionId, input.questionId)
    case Some(k) =>
      forall i, j | 0 <= i < j < |u|
        ensures u[i].examSessionId != u[j].examSessionId || u[i].questionId != u[j].questionId
      {
        assert u[i].examSessionId == rows[i].examSessionId && u[i].questionId == rows[i].questionId;
        assert u[j].examSessionId == rows[j].examSessionId && u[j].questionId == rows[j].questionId;
      }
    case None =>
  }

  /** Last write wins: two saves for the same pair leave the table exactly as
      the second save alone would, so one row holds the second selection. */
  lemma UpsertLastWriteWins(rows: seq<Answer>, first: InsertAnswer, second: InsertAnswer, t1: Timestamp, t2: Timestamp)
    requires first.examSessionId == second.examSessionId && first.questionId == second.questionId
    ensures Upsert(Upsert(rows, first, t1), second, t2) == Upsert(rows, second, t2)
  {
    UpsertStoresInput(rows, first, t1);
  }
}
