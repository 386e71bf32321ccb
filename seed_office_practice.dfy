/** The Office Practice seeder: the subject is found or created, then each
    inline question is skipped when its key already exists, rejected when
    it is malformed, and inserted otherwise; the run ends in an error when
    any entry was rejected or failed. */
module SeedOfficePractice {
  import opened Common
  import opened Schema
  import opened Storage
  import SeedAllNewSubjects

  /** One entry of the inline question list. */
  datatype OfficeQuestion = OfficeQuestion(
    questionNumber: int,
    questionText: string,
    options: seq<string>,
    correctAnswer: string,
    instruction: Option<string>)

  /** What the loop does with one entry. `Rejected` and `Failed` both count
      as errors: the first is a validation failure, the second a database
      error caught around the insert. */
  datatype Outcome = Seeded | Skipped | Rejected | Failed

  /** The running state of the loop: the questions table and the three
      counters. */
  datatype Tally = Tally(rows: seq<Question>, success: nat, skip: nat, errors: nat)

  const SubjectName: string := "Office Practice"
  const SubjectDuration: int := 50
  const SubjectQuestionCount: int := 50

  /** Non-blank text, exactly four options and an answer among A to D. */
  predicate IsWellFormed(q: OfficeQuestion)
  {
    !IsBlank(q.questionText) && |q.options| == 4 && SeedAllNewSubjects.IsAnswerLetter(q.correctAnswer, false)
  }

  /** The row inserted for a well-formed entry: the four options in order,
      no option E. */
  function RowFor(subjectId: Id, q: OfficeQuestion): NewQuestion
    requires |q.options| == 4
  {
    NewQuestion(subjectId, q.questionNumber, q.questionText, q.instruction,
                q.options[0], q.options[1], q.options[2], q.options[3], None, q.correctAnswer)
  }

  /** The outcome of one entry against the table as it is at that point:
      the existence check comes first, then the three validations, then
      the insert, which throws when `fault` holds. */
  function Classify(rows: seq<Question>, subjectId: Id, q: OfficeQuestion, fault: bool): Outcome
  {
    if QuestionKeyIndex(rows, subjectId, q.questionNumber).Some? then Skipped
    else if !IsWellFormed(q) then Rejected
    else if fault then Failed
    else Seeded
  }

  /** The state after one entry. */
  function After(t: Tally, subjectId: Id, q: OfficeQuestion, fault: bool): Tally
  {
    match Classify(t.rows, subjectId, q, fault)
    case Seeded => Tally(t.rows + [RowOf(|t.rows|, RowFor(subjectId, q))], t.success + 1, t.skip, t.errors)
    case Skipped => t.(skip := t.skip + 1)
    case Rejected => t.(errors := t.errors + 1)
    case Failed => t.(errors := t.errors + 1)
  }

  /** The state after the first `n` entries, starting from table `rows`;
      the insert of entry `i` throws when `i` is in `faults`. */
  function Run(rows: seq<Question>, subjectId: Id, qs: seq<OfficeQuestion>, faults: set<nat>, n: nat): Tally
    requires n <= |qs|
  {
    if n == 0 then Tally(rows, 0, 0, 0)
    else After(Run(rows, subjectId, qs, faults, n - 1), subjectId, qs[n - 1], n - 1 in faults)
  }

  /** A row with this key is in the table. */
  predicate HasKey(rows: seq<Question>, subjectId: Id, num: int)
  {
    QuestionKeyIndex(rows, subjectId, num).Some?
  }

  /** Every entry is counted exactly once, and the table only grows, by one
      row per seeded entry. */
  lemma {:induction false} RunCounts(rows: seq<Question>, subjectId: Id, qs: seq<OfficeQuestion>, faults: set<nat>, n: nat)
    requires n <= |qs|
    ensures var t := Run(rows, subjectId, qs, faults, n);
      && t.success + t.skip + t.errors == n
      && |t.rows| == |rows| + t.success
      && t.rows[..|rows|] == rows
  {
    if n > 0 {
      RunCounts(rows, subjectId, qs, faults, n - 1);
      var prev := Run(rows, subjectId, qs, faults, n - 1);
      if Classify(prev.rows, subjectId, qs[n - 1], n - 1 in faults) == Seeded {
        var row := RowOf(|prev.rows|, RowFor(subjectId, qs[n - 1]));
        assert (prev.rows + [row])[..|rows|] == prev.rows[..|rows|];
      }
    }
  }

  /** `later` extends `earlier`: its table starts with the earlier table
      and it has at least as many errors. */
  predicate Extends(earlier: Tally, later: Tally)
  {
    && |earlier.rows| <= |later.rows|
    && later.rows[..|earlier.rows|] == earlier.rows
    && earlier.errors <= later.errors
  }

  lemma ExtendsTransitive(a: Tally, b: Tally, c: Tally)
    requires Extends(a, b) && Extends(b, c)
    ensures Extends(a, c)
  {
    assert c.rows[..|a.rows|] == c.rows[..|b.rows|][..|a.rows|];
  }

  /** One entry extends the state. */
  lemma StepExtends(rows: seq<Question>, subjectId: Id, qs: seq<OfficeQuestion>, faults: set<nat>, n: nat)
    requires n < |qs|
    ensures Extends(Run(rows, subjectId, qs, faults, n), Run(rows, subjectId, qs, faults, n + 1))
  {
    var prev := Run(rows, subjectId, qs, faults, n);
    if Classify(prev.rows, subjectId, qs[n], n in faults) == Seeded {
      var row := RowOf(|prev.rows|, RowFor(subjectId, qs[n]));
      assert (prev.rows + [row])[..|prev.rows|] == prev.rows;
    }
  }

  /** A later state extends an earlier one. */
  lemma {:induction false} RunGrows(rows: seq<Question>, subjectId: Id, qs: seq<OfficeQuestion>, faults: set<nat>, i: nat, n: nat)
    requires i <= n <= |qs|
    ensures Extends(Run(rows, subjectId, qs, faults, i), Run(rows, subjectId, qs, faults, n))
  {
    if i < n {
      RunGrows(rows, subjectId, qs, faults, i, n - 1);
      StepExtends(rows, subjectId, qs, faults, n - 1);
      ExtendsTransitive(Run(rows, subjectId, qs, faults, i), Run(rows, subjectId, qs, faults, n - 1),
                        Run(rows, subjectId, qs, faults, n));
    } else {
      assert Run(rows, subjectId, qs, faults, n).rows[..|Run(rows, subjectId, qs, faults, i).rows|]
        == Run(rows, subjectId, qs, faults, n).rows;
    }
  }

  /** A key in a table is still there once rows are appended. */
  lemma KeyKept(rows: seq<Question>, longer: seq<Question>, subjectId: Id, num: int)
    requires |rows| <= |longer| && longer[..|rows|] == rows
    requires HasKey(rows, subjectId, num)
    ensures HasKey(longer, subjectId, num)
  {
    var k := QuestionKeyIndex(rows, subjectId, num).value;
    assert longer[k] == rows[k];
  }

  /** An entry that adds no error leaves its key in the table: it was
      either skipped for a present key or inserted. */
  lemma StepKeepsKey(rows: seq<Question>, subjectId: Id, qs: seq<OfficeQuestion>, faults: set<nat>, i: nat)
    requires i < |qs|
    requires Run(rows, subjectId, qs, faults, i + 1).errors == Run(rows, subjectId, qs, faults, i).errors
    ensures HasKey(Run(rows, subjectId, qs, faults, i + 1).rows, subjectId, qs[i].questionNumber)
  {
    var before := Run(rows, subjectId, qs, faults, i);
    var o := Classify(before.rows, subjectId, qs[i], i in faults);
    if o == Skipped {
      KeyKept(before.rows, before.rows, subjectId, qs[i].questionNumber);
    } else {
      var row := RowOf(|before.rows|, RowFor(subjectId, qs[i]));
      assert (before.rows + [row])[|before.rows|] == row;
    }
  }

  /** After a run without errors, entry `i`'s key is in the final table. */
  lemma EntryKeyPresent(rows: seq<Question>, subjectId: Id, qs: seq<OfficeQuestion>, faults: set<nat>, i: nat)
    requires i < |qs|
    requires Run(rows, subjectId, qs, faults, |qs|).errors == 0
    ensures HasKey(Run(rows, subjectId, qs, faults, |qs|).rows, subjectId, qs[i].questionNumber)
  {
    RunGrows(rows, subjectId, qs, faults, i + 1, |qs|);
    RunGrows(rows, subjectId, qs, faults, i, i + 1);
    StepKeepsKey(rows, subjectId, qs, faults, i);
    KeyKept(Run(rows, subjectId, qs, faults, i + 1).rows, Run(rows, subjectId, qs, faults, |qs|).rows,
            subjectId, qs[i].questionNumber);
  }

  /** After a run without errors, every entry's key is in the table. */
  lemma CleanRunCoversKeys(rows: seq<Question>, subjectId: Id, qs: seq<OfficeQuestion>, faults: set<nat>)
    requires Run(rows, subjectId, qs, faults, |qs|).errors == 0
    ensures forall i :: 0 <= i < |qs| ==>
      HasKey(Run(rows, subjectId, qs, faults, |qs|).rows, subjectId, qs[i].questionNumber)
  {
    forall i | 0 <= i < |qs|
      ensures HasKey(Run(rows, subjectId, qs, faults, |qs|).rows, subjectId, qs[i].questionNumber)
    {
      EntryKeyPresent(rows, subjectId, qs, faults, i);
    }
  }

  /** A table that already holds every entry's key skips them all and is
      left as it is. */
  lemma {:induction false} AllPresentAllSkipped(rows: seq<Question>, subjectId: Id, qs: seq<OfficeQuestion>, faults: set<nat>, n: nat)
    requires n <= |qs|
    requires forall i :: 0 <= i < |qs| ==> HasKey(rows, subjectId, qs[i].questionNumber)
    ensures Run(rows, subjectId, qs, faults, n) == Tally(rows, 0, n, 0)
  {
    if n > 0 {
      AllPresentAllSkipped(rows, subjectId, qs, faults, n - 1);
      assert HasKey(rows, subjectId, qs[n - 1].questionNumber);
    }
  }

  /** Seeding is idempotent: once a run ends without errors, running it
      again, whatever the database does, inserts nothing, skips every entry
      and reports no error. */
  lemma RerunIsNoOp(rows: seq<Question>, subjectId: Id, qs: seq<OfficeQuestion>, faults: set<nat>, faults2: set<nat>)
    requires Run(rows, subjectId, qs, faults, |qs|).errors == 0
    ensures var seeded := Run(rows, subjectId, qs, faults, |qs|).rows;
      Run(seeded, subjectId, qs, faults2, |qs|) == Tally(seeded, 0, |qs|, 0)
  {
    CleanRunCoversKeys(rows, subjectId, qs, faults);
    AllPresentAllSkipped(Run(rows, subjectId, qs, faults, |qs|).rows, subjectId, qs, faults2, |qs|);
  }

  /** One pass of the loop body: the existence query, the three
      validations in order, then the insert inside `try`. */
  method SeedEntry(store: Store, subjectId: Id, q: OfficeQuestion, fault: bool) returns (o: Outcome)
    requires store.Valid()
    modifies store`questions
    ensures store.Valid()
    ensures o == Classify(old(store.questions), subjectId, q, fault)
    ensures store.questions == After(Tally(old(store.questions), 0, 0, 0), subjectId, q, fault).rows
  {
    if QuestionKeyIndex(store.questions, subjectId, q.questionNumber).Some? {
      return Skipped;
    }
    if IsBlank(q.questionText) {
      return Rejected;
    }
    if |q.options| != 4 {
      return Rejected;
    }
    SeedAllNewSubjects.AnswerLetterIsOption(q.correctAnswer, false);
    if q.correctAnswer !in SeedAllNewSubjects.ValidOptions(false) {
      return Rejected;
    }
    if fault {
      return Failed;
    }
    var inserted := store.InsertQuestion(RowFor(subjectId, q));
    return Seeded;
  }

  /** The loop over the inline list: the table and the three counters end
      as `Run` says. */
  method SeedQuestions(store: Store, subjectId: Id, qs: seq<OfficeQuestion>, faults: set<nat>)
    returns (successCount: nat, skipCount: nat, errorCount: nat)
    requires store.Valid()
    modifies store`questions
    ensures store.Valid()
    ensures Run(old(store.questions), subjectId, qs, faults, |qs|) ==
      Tally(store.questions, successCount, skipCount, errorCount)
  {
    successCount, skipCount, errorCount := 0, 0, 0;
    ghost var before := store.questions;
    for j := 0 to |qs|
      invariant store.Valid()
      invariant Run(before, subjectId, qs, faults, j) == Tally(store.questions, successCount, skipCount, errorCount)
    {
      var o := SeedEntry(store, subjectId, qs[j], j in faults);
      match o
      case Seeded => successCount := successCount + 1;
      case Skipped => skipCount := skipCount + 1;
      case Rejected => errorCount := errorCount + 1;
      case Failed => errorCount := errorCount + 1;
    }
  }

  /** `seedOfficePractice`: find or create the subject, seed the list, and
      throw at the end when any entry was counted as an error. */
  method SeedOfficePracticeRun(store: Store, qs: seq<OfficeQuestion>, faults: set<nat>)
    returns (subject: Subject, successCount: nat, skipCount: nat, errorCount: nat, threw: bool)
    requires store.Valid()
    modifies store`subjects, store`questions
    ensures store.Valid()
    ensures old(store.SubjectByName(SubjectName)).Some? ==>
      subject == old(store.SubjectByName(SubjectName)).value && store.subjects == old(store.subjects)
    ensures old(store.SubjectByName(SubjectName)).None? ==>
      subject == Subject(|old(store.subjects)|, SubjectName, SubjectDuration, SubjectQuestionCount) &&
      store.subjects == old(store.subjects) + [subject]
    ensures Run(old(store.questions), subject.id, qs, faults, |qs|) ==
      Tally(store.questions, successCount, skipCount, errorCount)
    ensures successCount + skipCount + errorCount == |qs|
    ensures threw <==> errorCount > 0
  {
    subject := SeedAllNewSubjects.GetOrCreateSubject(store, SubjectName, SubjectDuration, SubjectQuestionCount);
    successCount, skipCount, errorCount := SeedQuestions(store, subject.id, qs, faults);
    RunCounts(old(store.questions), subject.id, qs, faults, |qs|);
    threw := errorCount > 0;
  }
}
