/** The generic subject seeder: question arrays are validated, numbered
    in the order of the valid ones, and inserted into the questions table
    with conflicting keys and database errors counted as skipped. */
module SeedAllNewSubjects {
  import opened Common
  import opened Schema
  import opened Storage

  /** A parsed JSON value, as much of it as validation inspects. */
  datatype Json = JStr(str: string) | JArr(items: seq<Json>) | JOther

  /** Index of the answer letter in a question array. */
  function AnswerPos(hasE: bool): nat
  {
    if hasE then 6 else 5
  }

  /** The answer letters a question with or without option E may use. */
  function ValidOptions(hasE: bool): seq<string>
  {
    if hasE then ["A", "B", "C", "D", "E"] else ["A", "B", "C", "D"]
  }

  /** One of the offered letters, stated character-wise. */
  predicate IsAnswerLetter(s: string, hasE: bool)
  {
    |s| == 1 && ('A' <= s[0] <= 'D' || (hasE && s[0] == 'E'))
  }

  /** `validOptions.includes(answer)` is the character-wise test. */
  lemma AnswerLetterIsOption(s: string, hasE: bool)
    ensures s in ValidOptions(hasE) <==> IsAnswerLetter(s, hasE)
  {
    if IsAnswerLetter(s, hasE) {
      assert s == [s[0]];
    }
  }

  /** A field holding a string that is not blank after trimming. */
  predicate IsFilledText(v: Json)
  {
    v.JStr? && !IsBlank(v.str)
  }

  /** A well-formed question array: `[text, A, B, C, D, answer]`, or
      `[text, A, B, C, D, E, answer]` when the subject has option E; the
      answer is one of the offered letters and every other field is
      non-blank text. */
  predicate IsValidQuestion(q: Json, hasE: bool)
  {
    && q.JArr?
    && |q.items| == AnswerPos(hasE) + 1
    && q.items[AnswerPos(hasE)].JStr?
    && IsAnswerLetter(q.items[AnswerPos(hasE)].str, hasE)
    && forall i :: 0 <= i < AnswerPos(hasE) ==> IsFilledText(q.items[i])
  }

  /** `validateQuestion`: the length check, then the answer letter, then
      each text field in turn, returning at the first failure. */
  method ValidateQuestion(q: Json, hasE: bool) returns (ok: bool)
    ensures ok <==> IsValidQuestion(q, hasE)
  {
    var expectedLength := if hasE then 7 else 6;
    if !q.JArr? || |q.items| != expectedLength {
      return false;
    }
    var correctAnswer := if hasE then q.items[6] else q.items[5];
    if !correctAnswer.JStr? {
      return false;
    }
    AnswerLetterIsOption(correctAnswer.str, hasE);
    if correctAnswer.str !in ValidOptions(hasE) {
      return false;
    }
    var i := 0;
    while i <= (if hasE then 5 else 4)
      invariant 0 <= i <= AnswerPos(hasE)
      invariant forall k :: 0 <= k < i ==> IsFilledText(q.items[k])
    {
      if !q.items[i].JStr? || IsBlank(q.items[i].str) {
        return false;
      }
      i := i + 1;
    }
    return true;
  }

  /** The text of field `i` of a question array ("" where there is none). */
  function FieldText(q: Json, i: nat): string
  {
    if q.JArr? && i < |q.items| && q.items[i].JStr? then q.items[i].str else ""
  }

  /** The row `insertQs` writes for an array: option E only when the
      subject has it, and the answer key is the array's last element. */
  function BuildRow(subjectId: Id, num: int, q: Json, hasE: bool): (r: NewQuestion)
    ensures r.subjectId == subjectId && r.questionNumber == num && r.instruction.None?
    ensures r.optionE.Some? <==> hasE
  {
    NewQuestion(subjectId, num, FieldText(q, 0), None,
                FieldText(q, 1), FieldText(q, 2), FieldText(q, 3), FieldText(q, 4),
                if hasE then Some(FieldText(q, 5)) else None,
                FieldText(q, AnswerPos(hasE)))
  }

  /** A validated array yields a row whose texts are filled, whose answer
      key is the array's last element and one of the offered letters, and
      which fits the one-character key column. */
  lemma ValidRow(subjectId: Id, num: int, q: Json, hasE: bool)
    requires IsValidQuestion(q, hasE)
    ensures var r := BuildRow(subjectId, num, q, hasE);
      && r.correctOption == q.items[|q.items| - 1].str
      && IsAnswerLetter(r.correctOption, hasE) && FitsVarchar(r.correctOption, 1)
      && !IsBlank(r.questionText) && !IsBlank(r.optionA) && !IsBlank(r.optionB)
      && !IsBlank(r.optionC) && !IsBlank(r.optionD)
      && (hasE ==> !IsBlank(r.optionE.value))
  {
    assert IsFilledText(q.items[0]) && IsFilledText(q.items[1]) && IsFilledText(q.items[2]);
    assert IsFilledText(q.items[3]) && IsFilledText(q.items[4]);
    if hasE {
      assert IsFilledText(q.items[5]);
    }
  }

  /** The positions of the arrays of `qs` that pass validation. */
  ghost function ValidPositions(qs: seq<Json>, hasE: bool): set<int>
  {
    set i | 0 <= i < |qs| && IsValidQuestion(qs[i], hasE)
  }

  /** The valid positions of a list with one more array at its end. */
  lemma ValidPositionsSnoc(qs: seq<Json>, hasE: bool)
    requires |qs| > 0
    ensures var k := |qs| - 1;
      && ValidPositions(qs, hasE) ==
           ValidPositions(qs[..k], hasE) + (if IsValidQuestion(qs[k], hasE) then {k} else {})
      && k !in ValidPositions(qs[..k], hasE)
  {
    var k := |qs| - 1;
    assert forall i :: 0 <= i < k ==> qs[..k][i] == qs[i];
  }

  /** How many arrays of `qs` pass validation. */
  function CountValid(qs: seq<Json>, hasE: bool): (n: nat)
    ensures n <= |qs|
  {
    if |qs| == 0 then 0
    else CountValid(qs[..|qs| - 1], hasE) + (if IsValidQuestion(qs[|qs| - 1], hasE) then 1 else 0)
  }

  /** `CountValid` is the number of positions whose array passes validation. */
  lemma {:induction false} CountValidCounts(qs: seq<Json>, hasE: bool)
    ensures CountValid(qs, hasE) == |ValidPositions(qs, hasE)|
  {
    if |qs| > 0 {
      CountValidCounts(qs[..|qs| - 1], hasE);
      ValidPositionsSnoc(qs, hasE);
    }
  }

  /** The question number `insertQs` holds when it reaches entry `j`: one
      more than the number of earlier entries that passed validation. */
  function NumberAt(qs: seq<Json>, j: nat, hasE: bool): int
    requires j <= |qs|
  {
    1 + CountValid(qs[..j], hasE)
  }

  /** The number moves on past every valid entry and only past those. */
  lemma NumberAtNext(qs: seq<Json>, j: nat, hasE: bool)
    requires j < |qs|
    ensures NumberAt(qs, j + 1, hasE) == NumberAt(qs, j, hasE) + (if IsValidQuestion(qs[j], hasE) then 1 else 0)
  {
    assert qs[..j + 1][..j] == qs[..j];
  }

  /** Valid entries get strictly increasing numbers, so no two of them
      share a question number. */
  lemma {:induction false} NumbersIncrease(qs: seq<Json>, hasE: bool, j1: nat, j2: nat)
    requires j1 < j2 <= |qs| && IsValidQuestion(qs[j1], hasE)
    ensures NumberAt(qs, j1, hasE) < NumberAt(qs, j2, hasE)
  {
    NumberAtNext(qs, j2 - 1, hasE);
    if j1 < j2 - 1 {
      NumbersIncrease(qs, hasE, j1, j2 - 1);
    }
  }

  /** Entry `j` ends up as a new row: it is valid, the database does not
      fail on it, and its (subject, number) key was free before the run. */
  ghost predicate Lands(rows: seq<Question>, subjectId: Id, qs: seq<Json>, j: nat, hasE: bool, faults: set<nat>)
    requires j < |qs|
  {
    IsValidQuestion(qs[j], hasE) && j !in faults
    && QuestionKeyIndex(rows, subjectId, NumberAt(qs, j, hasE)).None?
  }

  /** Rows appended under other keys do not change whether a key is taken. */
  lemma KeyFreeAfterAppend(rows: seq<Question>, added: seq<Question>, subjectId: Id, num: int)
    requires forall k :: 0 <= k < |added| ==> added[k].subjectId != subjectId || added[k].questionNumber != num
    ensures QuestionKeyIndex(rows + added, subjectId, num).None? <==> QuestionKeyIndex(rows, subjectId, num).None?
  {
    if QuestionKeyIndex(rows, subjectId, num).Some? {
      var i := QuestionKeyIndex(rows, subjectId, num).value;
      assert (rows + added)[i] == rows[i];
    }
    forall k | |rows| <= k < |rows + added|
      ensures (rows + added)[k].subjectId != subjectId || (rows + added)[k].questionNumber != num
    {
      assert (rows + added)[k] == added[k - |rows|];
    }
  }

  /** `getOrCreateSubject`: the subject of that name if there is one, with
      no insert; otherwise a newly inserted one. */
  method GetOrCreateSubject(store: Store, name: string, duration: int, questionCount: int) returns (s: Subject)
    requires store.Valid()
    modifies store`subjects
    ensures store.Valid()
    ensures old(store.SubjectByName(name)).Some? ==>
      s == old(store.SubjectByName(name)).value && store.subjects == old(store.subjects)
    ensures old(store.SubjectByName(name)).None? ==>
      s == Subject(|old(store.subjects)|, name, duration, questionCount) && store.subjects == old(store.subjects) + [s]
    ensures store.SubjectByName(name) == Some(s)
  {
    var existing := store.SubjectByName(name);
    if existing.Some? {
      return existing.value;
    }
    var created := store.CreateSubject(name, duration, questionCount);
    s := created.value;
    assert store.subjects[|store.subjects| - 1] == s;
  }

  /** For each entry of `qs`, whether it lands. */
  ghost function Outcomes(rows: seq<Question>, subjectId: Id, qs: seq<Json>, hasE: bool, faults: set<nat>): (f: seq<bool>)
    ensures |f| == |qs|
    ensures forall j :: 0 <= j < |qs| ==> (f[j] <==> Lands(rows, subjectId, qs, j, hasE, faults))
  {
    seq(|qs|, j requires 0 <= j < |qs| => Lands(rows, subjectId, qs, j, hasE, faults))
  }

  /** The positions below `n` where `f` holds, in order. */
  function TrueIndices(f: seq<bool>, n: nat): seq<nat>
    requires n <= |f|
  {
    if n == 0 then []
    else TrueIndices(f, n - 1) + (if f[n - 1] then [n - 1] else [])
  }

  /** `TrueIndices` lists exactly the positions below `n` where `f` holds,
      in increasing order. */
  lemma {:induction false} TrueIndicesExact(f: seq<bool>, n: nat)
    requires n <= |f|
    ensures var l := TrueIndices(f, n);
      && (forall t :: 0 <= t < |l| ==> l[t] < n)
      && (forall t, u :: 0 <= t < u < |l| ==> l[t] < l[u])
      && (forall i :: 0 <= i < n ==> (i in l <==> f[i]))
  {
    if n > 0 {
      TrueIndicesExact(f, n - 1);
    }
  }

  /** The rows the first `n` entries of `qs` append to a table that held
      `rows`, given which entries land: one per landing entry, in order,
      under the entry's number. */
  ghost function Landed(rows: seq<Question>, subjectId: Id, qs: seq<Json>, hasE: bool, f: seq<bool>, n: nat): seq<Question>
    requires |f| == |qs| && n <= |qs|
  {
    if n == 0 then []
    else
      var prev := Landed(rows, subjectId, qs, hasE, f, n - 1);
      if f[n - 1] then
        prev + [RowOf(|rows| + |prev|, BuildRow(subjectId, NumberAt(qs, n - 1, hasE), qs[n - 1], hasE))]
      else prev
  }

  /** Only valid entries land. */
  ghost predicate OnlyValidLand(qs: seq<Json>, hasE: bool, f: seq<bool>)
  {
    |f| == |qs| && forall j :: 0 <= j < |qs| && f[j] ==> IsValidQuestion(qs[j], hasE)
  }

  /** The appended rows all belong to `subjectId` and carry numbers below
      the one the loop holds next. */
  lemma {:induction false} LandedBelow(rows: seq<Question>, subjectId: Id, qs: seq<Json>, hasE: bool, f: seq<bool>, n: nat)
    requires OnlyValidLand(qs, hasE, f) && n <= |qs|
    ensures forall k :: 0 <= k < |Landed(rows, subjectId, qs, hasE, f, n)| ==>
      Landed(rows, subjectId, qs, hasE, f, n)[k].subjectId == subjectId &&
      Landed(rows, subjectId, qs, hasE, f, n)[k].questionNumber < NumberAt(qs, n, hasE)
  {
    if n > 0 {
      LandedBelow(rows, subjectId, qs, hasE, f, n - 1);
      NumberAtNext(qs, n - 1, hasE);
      var prev := Landed(rows, subjectId, qs, hasE, f, n - 1);
      var added := Landed(rows, subjectId, qs, hasE, f, n);
      var row := RowOf(|rows| + |prev|, BuildRow(subjectId, NumberAt(qs, n - 1, hasE), qs[n - 1], hasE));
      assert added == if f[n - 1] then prev + [row] else prev;
      assert f[n - 1] ==> IsValidQuestion(qs[n - 1], hasE);
      assert NumberAt(qs, n - 1, hasE) <= NumberAt(qs, n, hasE);
      assert f[n - 1] ==> NumberAt(qs, n - 1, hasE) < NumberAt(qs, n, hasE);
      forall k | 0 <= k < |added|
        ensures added[k].subjectId == subjectId && added[k].questionNumber < NumberAt(qs, n, hasE)
      {
        if k < |prev| {
          assert added[k] == prev[k];
          assert prev[k].subjectId == subjectId && prev[k].questionNumber < NumberAt(qs, n - 1, hasE);
        } else {
          assert added[k] == row;
        }
      }
    }
  }

  /** `added` holds, in order, the rows built for the entries at the
      positions listed in `l`, each with its running number and keyed by
      position after `rows`. */
  ghost predicate RowsFor(rows: seq<Question>, subjectId: Id, qs: seq<Json>, hasE: bool,
                          added: seq<Question>, l: seq<nat>)
  {
    && |added| == |l|
    && forall t :: 0 <= t < |l| ==>
         l[t] < |qs| && added[t] == RowOf(|rows| + t, BuildRow(subjectId, NumberAt(qs, l[t], hasE), qs[l[t]], hasE))
  }

  /** Appending the row of entry `m` keeps `RowsFor` with `m` listed last. */
  lemma RowsForSnoc(rows: seq<Question>, subjectId: Id, qs: seq<Json>, hasE: bool,
                    added: seq<Question>, l: seq<nat>, m: nat)
    requires RowsFor(rows, subjectId, qs, hasE, added, l) && m < |qs|
    ensures RowsFor(rows, subjectId, qs, hasE,
                    added + [RowOf(|rows| + |added|, BuildRow(subjectId, NumberAt(qs, m, hasE), qs[m], hasE))], l + [m])
  {
    var added' := added + [RowOf(|rows| + |added|, BuildRow(subjectId, NumberAt(qs, m, hasE), qs[m], hasE))];
    var l' := l + [m];
    forall t | 0 <= t < |l'|
      ensures l'[t] < |qs| && added'[t] == RowOf(|rows| + t, BuildRow(subjectId, NumberAt(qs, l'[t], hasE), qs[l'[t]], hasE))
    {
      if t < |l| {
        assert added'[t] == added[t] && l'[t] == l[t];
      }
    }
  }

  /** The appended rows are exactly the rows of the landing entries, in
      order, keyed by position after the old rows. */
  lemma {:induction false} LandedRows(rows: seq<Question>, subjectId: Id, qs: seq<Json>, hasE: bool, f: seq<bool>, n: nat)
    requires |f| == |qs| && n <= |qs|
    ensures RowsFor(rows, subjectId, qs, hasE, Landed(rows, subjectId, qs, hasE, f, n), TrueIndices(f, n))
  {
    if n > 0 {
      var prev := Landed(rows, subjectId, qs, hasE, f, n - 1);
      var l := TrueIndices(f, n - 1);
      LandedRows(rows, subjectId, qs, hasE, f, n - 1);
      if f[n - 1] {
        var row := RowOf(|rows| + |prev|, BuildRow(subjectId, NumberAt(qs, n - 1, hasE), qs[n - 1], hasE));
        assert Landed(rows, subjectId, qs, hasE, f, n) == prev + [row];
        assert TrueIndices(f, n) == l + [n - 1];
        RowsForSnoc(rows, subjectId, qs, hasE, prev, l, n - 1);
      } else {
        assert Landed(rows, subjectId, qs, hasE, f, n) == prev;
        assert TrueIndices(f, n) == l;
      }
    }
  }

  /** Landed rows have strictly increasing question numbers, so a run never
      gives two rows the same key. */
  lemma LandedNumbersIncrease(rows: seq<Question>, subjectId: Id, qs: seq<Json>, hasE: bool, faults: set<nat>, n: nat)
    requires n <= |qs|
    ensures var added := Landed(rows, subjectId, qs, hasE, Outcomes(rows, subjectId, qs, hasE, faults), n);
      forall t, u :: 0 <= t < u < |added| ==> added[t].questionNumber < added[u].questionNumber
  {
    var f := Outcomes(rows, subjectId, qs, hasE, faults);
    LandedRows(rows, subjectId, qs, hasE, f, n);
    TrueIndicesExact(f, n);
    var added := Landed(rows, subjectId, qs, hasE, f, n);
    var l := TrueIndices(f, n);
    forall t, u | 0 <= t < u < |added|
      ensures added[t].questionNumber < added[u].questionNumber
    {
      assert l[t] in l && f[l[t]];
      NumbersIncrease(qs, hasE, l[t], l[u]);
    }
  }

  /** One entry of `insertQs`: validation, then one attempt inside `try`.
      The database throws (`fault`) and nothing is written, or the insert is
      ignored on a taken key, or the row is appended. */
  method InsertEntry(store: Store, subjectId: Id, q: Json, hasE: bool, num: int, fault: bool)
    returns (valid: bool, ok: bool)
    requires store.Valid()
    modifies store`questions
    ensures store.Valid()
    ensures valid <==> IsValidQuestion(q, hasE)
    ensures ok <==> valid && !fault && QuestionKeyIndex(old(store.questions), subjectId, num).None?
    ensures ok ==> store.questions == old(store.questions) + [RowOf(|old(store.questions)|, BuildRow(subjectId, num, q, hasE))]
    ensures !ok ==> store.questions == old(store.questions)
  {
    valid := ValidateQuestion(q, hasE);
    if !valid || fault {
      return valid, false;
    }
    ValidRow(subjectId, num, q, hasE);
    var result := store.InsertQuestion(BuildRow(subjectId, num, q, hasE));
    ok := result.Some?;
  }

  /** One pass of the `insertQs` loop body on entry `j`, holding number
      `num`: the table grows by the landed row of `j`, if it lands. */
  method InsertStep(store: Store, subjectId: Id, qs: seq<Json>, hasE: bool, faults: set<nat>,
                    j: nat, num: int, ghost before: seq<Question>, ghost f: seq<bool>)
    returns (valid: bool, ok: bool)
    requires j < |qs| && num == NumberAt(qs, j, hasE)
    requires OnlyValidLand(qs, hasE, f) && (f[j] <==> Lands(before, subjectId, qs, j, hasE, faults))
    requires store.Valid() && store.questions == before + Landed(before, subjectId, qs, hasE, f, j)
    modifies store`questions
    ensures store.Valid() && store.questions == before + Landed(before, subjectId, qs, hasE, f, j + 1)
    ensures valid <==> IsValidQuestion(qs[j], hasE)
    ensures ok <==> f[j]
  {
    ghost var prev := Landed(before, subjectId, qs, hasE, f, j);
    LandedBelow(before, subjectId, qs, hasE, f, j);
    KeyFreeAfterAppend(before, prev, subjectId, num);
    valid, ok := InsertEntry(store, subjectId, qs[j], hasE, num, j in faults);
    ghost var row := RowOf(|before| + |prev|, BuildRow(subjectId, num, qs[j], hasE));
    assert ok <==> f[j];
    if ok {
      assert store.questions == (before + prev) + [row];
      assert (before + prev) + [row] == before + (prev + [row]);
      assert Landed(before, subjectId, qs, hasE, f, j + 1) == prev + [row];
    } else {
      assert Landed(before, subjectId, qs, hasE, f, j + 1) == prev;
    }
  }

  /** `insertQs`. Invalid entries are skipped without using up a number;
      a valid entry is inserted under the current number unless its key is
      taken (`onConflictDoNothing`) or the database throws (the indices in
      `faults`), and uses up the number either way. */
  method InsertQs(store: Store, subjectId: Id, qs: seq<Json>, hasE: bool, faults: set<nat>)
    returns (inserted: nat, skipped: nat)
    requires store.Valid()
    modifies store`questions
    ensures store.Valid()
    ensures inserted + skipped == |qs|
    ensures var f := Outcomes(old(store.questions), subjectId, qs, hasE, faults);
      && store.questions == old(store.questions) + Landed(old(store.questions), subjectId, qs, hasE, f, |qs|)
      && inserted == |Landed(old(store.questions), subjectId, qs, hasE, f, |qs|)|
  {
    inserted, skipped := 0, 0;
    var num := 1;
    ghost var before := store.questions;
    ghost var f := Outcomes(before, subjectId, qs, hasE, faults);
    assert OnlyValidLand(qs, hasE, f);
    for j := 0 to |qs|
      invariant store.Valid()
      invariant inserted + skipped == j
      invariant num == NumberAt(qs, j, hasE)
      invariant store.questions == before + Landed(before, subjectId, qs, hasE, f, j)
      invariant inserted == |Landed(before, subjectId, qs, hasE, f, j)|
    {
      NumberAtNext(qs, j, hasE);
      var valid, ok := InsertStep(store, subjectId, qs, hasE, faults, j, num, before, f);
      if ok {
        inserted := inserted + 1;
      } else {
        skipped := skipped + 1;
      }
      if valid {
        num := num + 1;
      }
    }
  }
}
