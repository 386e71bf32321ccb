/** The pure part of the exam routes: what start and submit do to one
    session row, the invariant every reachable session keeps, the values the
    routes derive from the tables (served questions, the saved-answers map,
    display fallbacks) and the lemmas about them. */
module SessionRules {
  import opened Common
  import opened Schema
  import opened Storage

  datatype Error =
    | ValidationError
    | SubjectNotFound
    | SessionNotFound
    | StudentNotFound
    | QuestionNotFound
    | NotInProgress     // "Cannot save answer: exam is not in progress"
    | NotStarted        // "Cannot submit exam: exam not started"
    | AlreadyCompleted  // "Exam session already completed"
    | WriteFailed       // the database refused the write (the catch-all 500)

  datatype Result<T> = Ok(value: T) | Fail(error: Error)

  datatype StartOk = StartOk(startTime: Timestamp, alreadyStarted: bool)

  datatype SubmitOk = SubmitOk(score: nat, totalQuestions: int, timeTaken: int)

  /** The response of a route together with the session row it leaves. */
  datatype Step<T> = Step(response: Result<T>, session: ExamSession)

  // ---------------------------------------------------------------------
  // The session lifecycle
  // ---------------------------------------------------------------------

  /** Pending is 0, in progress is 1, the two terminal states are 2. */
  function Rank(s: Status): nat
  {
    match s
    case Pending => 0
    case InProgress => 1
    case Completed => 2
    case AutoSubmitted => 2
  }

  /** What every session reachable through the routes satisfies: it is
      pending exactly when it has no start time, a pending session has
      nothing recorded, a completed one has its end, score and time taken,
      and none is ever auto-submitted, since no route writes that status. */
  ghost predicate SessionShapeOk(s: ExamSession)
  {
    && s.status != AutoSubmitted
    && (s.status == Pending <==> s.startTime.None?)
    && (s.status == Pending ==> IsNotYetStarted(s))
    && (s.status == InProgress ==> s.endTime.None? && s.score.None? && s.timeTaken.None?)
    && (s.status == Completed ==> s.endTime.Some? && s.score.Some? && s.timeTaken.Some?)
  }

  /** A later version of the same session: the key, the owner, the subject
      and the question-count snapshot never change, the status never moves
      back, and a start time once set is never changed. */
  ghost predicate SessionProgress(before: ExamSession, after: ExamSession)
  {
    && after.id == before.id
    && after.studentId == before.studentId
    && after.subjectId == before.subjectId
    && after.totalQuestions == before.totalQuestions
    && Rank(before.status) <= Rank(after.status)
    && (before.startTime.Some? ==> after.startTime == before.startTime)
  }

  /** The same for a whole sessions table, which may also have grown. */
  ghost predicate TableProgress(before: seq<ExamSession>, after: seq<ExamSession>)
  {
    |before| <= |after| && forall i :: 0 <= i < |before| ==> SessionProgress(before[i], after[i])
  }

  /** Progress composes, so any run of routes keeps it. */
  lemma TableProgressTransitive(a: seq<ExamSession>, b: seq<ExamSession>, c: seq<ExamSession>)
    requires TableProgress(a, b) && TableProgress(b, c)
    ensures TableProgress(a, c)
  {
    forall i | 0 <= i < |a| ensures SessionProgress(a[i], c[i]) {
      assert SessionProgress(a[i], b[i]) && SessionProgress(b[i], c[i]);
    }
  }

  /** A session that has left "pending" never returns to it. */
  lemma NeverBackToPending(before: ExamSession, after: ExamSession)
    requires SessionProgress(before, after) && before.status != Pending
    ensures after.status != Pending
  {
  }

  /** `POST /api/exam-session/:id/start` on an existing session. */
  function StartStep(s: ExamSession, now: Timestamp): Step<StartOk>
  {
    if s.status == InProgress && s.startTime.Some? then
      Step(Ok(StartOk(s.startTime.value, true)), s)
    else if s.status == Completed || s.status == AutoSubmitted then
      Step(Fail(AlreadyCompleted), s)
    else
      var started := ApplyPatch(s, SessionPatch(Some(InProgress), Some(now), None, None, None));
      Step(Ok(StartOk(now, false)), started)
  }

  /** `POST /api/submit-exam/:id` on an existing session whose answer rows
      are `rows`. There is no status guard: a completed session is scored
      again and its end time and time taken are overwritten. */
  function SubmitStep(s: ExamSession, rows: seq<Answer>, now: Timestamp): Step<SubmitOk>
  {
    if s.startTime.None? then
      Step(Fail(NotStarted), s)
    else
      var score := CountCorrect(rows);
      var timeTaken := FloorSeconds(now - s.startTime.value);
      var done := ApplyPatch(s, SessionPatch(Some(Completed), None, Some(now), Some(score), Some(timeTaken)));
      Step(Ok(SubmitOk(score, s.totalQuestions, timeTaken)), done)
  }

  /** Start keeps the session invariant and only moves the session forward;
      the only session it writes is a pending one, which it makes in
      progress with start time `now`. */
  lemma StartKeepsShape(s: ExamSession, now: Timestamp)
    requires SessionShapeOk(s)
    ensures SessionShapeOk(StartStep(s, now).session)
    ensures SessionProgress(s, StartStep(s, now).session)
    ensures StartStep(s, now).session != s <==> s.status == Pending
    ensures s.status == Pending ==>
      StartStep(s, now).session.status == InProgress && StartStep(s, now).session.startTime == Some(now)
  {
  }

  /** Start refuses a finished session and writes nothing. */
  lemma StartRefusesTerminal(s: ExamSession, now: Timestamp)
    requires s.status == Completed || s.status == AutoSubmitted
    ensures StartStep(s, now) == Step(Fail(AlreadyCompleted), s)
  {
  }

  /** Start is idempotent: starting again, at any later time, answers with
      the start time of the first start, flags it as already started and
      writes nothing. */
  lemma StartIdempotent(s: ExamSession, t1: Timestamp, t2: Timestamp)
    requires SessionShapeOk(s)
    requires StartStep(s, t1).response.Ok?
    ensures var first := StartStep(s, t1);
      && StartStep(first.session, t2).session == first.session
      && StartStep(first.session, t2).response == Ok(StartOk(first.response.value.startTime, true))
  {
  }

  /** Submit keeps the session invariant and only moves the session forward;
      it writes exactly when the session has been started. */
  lemma SubmitKeepsShape(s: ExamSession, rows: seq<Answer>, now: Timestamp)
    requires SessionShapeOk(s)
    ensures SessionShapeOk(SubmitStep(s, rows, now).session)
    ensures SessionProgress(s, SubmitStep(s, rows, now).session)
    ensures SubmitStep(s, rows, now).response.Fail? <==> s.status == Pending
    ensures s.status == Pending ==> SubmitStep(s, rows, now) == Step(Fail(NotStarted), s)
  {
  }

  /** The submitted score is the number of rows marked correct, so it is at most
      the number of rows, and `timeTaken` is the floored elapsed seconds
      since the start. */
  lemma SubmitScore(s: ExamSession, rows: seq<Answer>, now: Timestamp)
    requires s.startTime.Some?
    ensures var r := SubmitStep(s, rows, now).response;
      && r.Ok?
      && r.value.score == |CorrectPositions(rows)|
      && r.value.score <= |rows|
      && (r.value.score == |rows| <==> forall i :: 0 <= i < |rows| ==> rows[i].isCorrect == Some(true))
      && r.value.timeTaken * 1000 <= now - s.startTime.value < r.value.timeTaken * 1000 + 1000
      && r.value.totalQuestions == s.totalQuestions
      && SubmitStep(s, rows, now).session.score == Some(r.value.score)
      && SubmitStep(s, rows, now).session.timeTaken == Some(r.value.timeTaken)
  {
  }

  /** A second submit does not keep the first result: the session ends up
      exactly as if only the second submit had happened. */
  lemma SubmitAgainOverwrites(s: ExamSession, rows: seq<Answer>, t1: Timestamp, t2: Timestamp)
    ensures SubmitStep(SubmitStep(s, rows, t1).session, rows, t2) == SubmitStep(s, rows, t2)
  {
  }

  /** The questions for which session `sessionId` has a row marked correct. */
  ghost function CorrectQuestions(answers: seq<Answer>, sessionId: Id): set<Id>
  {
    set i | 0 <= i < |answers| && answers[i].examSessionId == sessionId && answers[i].isCorrect == Some(true)
      :: answers[i].questionId
  }

  /** The correct questions of a table split at its first row; with one row
      per (session, question) the first row's question is not among the
      rest's. */
  lemma CorrectQuestionsCons(answers: seq<Answer>, sessionId: Id)
    requires |answers| > 0 && AnswerPairsUnique(answers)
    ensures CorrectQuestions(answers, sessionId) ==
      (if answers[0].examSessionId == sessionId && answers[0].isCorrect == Some(true)
       then {answers[0].questionId} else {}) + CorrectQuestions(answers[1..], sessionId)
    ensures answers[0].examSessionId == sessionId ==>
      answers[0].questionId !in CorrectQuestions(answers[1..], sessionId)
  {
    var a := answers[0];
    var rest := answers[1..];
    var first: set<Id> := if a.examSessionId == sessionId && a.isCorrect == Some(true) then {a.questionId} else {};
    forall q | q in CorrectQuestions(answers, sessionId)
      ensures q in first + CorrectQuestions(rest, sessionId)
    {
      var i :| 0 <= i < |answers| && answers[i].examSessionId == sessionId
        && answers[i].isCorrect == Some(true) && answers[i].questionId == q;
      if i > 0 {
        assert rest[i - 1] == answers[i];
      }
    }
    forall q | q in CorrectQuestions(rest, sessionId)
      ensures q in CorrectQuestions(answers, sessionId)
      ensures a.examSessionId == sessionId ==> q != a.questionId
    {
      var j :| 0 <= j < |rest| && rest[j].examSessionId == sessionId
        && rest[j].isCorrect == Some(true) && rest[j].questionId == q;
      assert answers[j + 1] == rest[j];
    }
  }

  /** With one row per (session, question), which the store keeps, the score
      submit computes from a session's rows is the number of distinct
      questions the session answered correctly: a re-saved answer is never
      counted twice. */
  lemma {:induction false} ScoreCountsCorrectQuestions(answers: seq<Answer>, sessionId: Id)
    requires AnswerPairsUnique(answers)
    ensures CountCorrect(AnswersOf(answers, sessionId)) == |CorrectQuestions(answers, sessionId)|
  {
    if |answers| == 0 {
      assert CorrectQuestions(answers, sessionId) == {};
    } else {
      var a := answers[0];
      var rest := answers[1..];
      assert AnswerPairsUnique(rest) by {
        forall i, j | 0 <= i < j < |rest|
          ensures rest[i].examSessionId != rest[j].examSessionId || rest[i].questionId != rest[j].questionId
        {
          assert rest[i] == answers[i + 1] && rest[j] == answers[j + 1];
        }
      }
      ScoreCountsCorrectQuestions(rest, sessionId);
      CorrectQuestionsCons(answers, sessionId);
      if a.examSessionId == sessionId {
        assert AnswersOf(answers, sessionId) == [a] + AnswersOf(rest, sessionId);
        CountCorrectCons(a, AnswersOf(rest, sessionId));
      } else {
        assert AnswersOf(answers, sessionId) == AnswersOf(rest, sessionId);
      }
    }
  }

  // ---------------------------------------------------------------------
  // Values derived for the responses
  // ---------------------------------------------------------------------

  /** A question as it is sent to the browser: every column but the
      correct option. */
  datatype PublicQuestion = PublicQuestion(
    id: Id,
    subjectId: Id,
    questionNumber: int,
    questionText: string,
    instruction: Option<string>,
    optionA: string,
    optionB: string,
    optionC: string,
    optionD: string,
    optionE: Option<string>)

  /** `({ correctOption, ...q }) => q`. */
  function Strip(q: Question): (p: PublicQuestion)
    ensures WithKey(p, q.correctOption) == q
  {
    PublicQuestion(q.id, q.subjectId, q.questionNumber, q.questionText, q.instruction,
                   q.optionA, q.optionB, q.optionC, q.optionD, q.optionE)
  }

  /** Puts an answer key back on a served question. */
  function WithKey(p: PublicQuestion, correctOption: string): Question
  {
    Question(p.id, p.subjectId, p.questionNumber, p.questionText, p.instruction,
             p.optionA, p.optionB, p.optionC, p.optionD, p.optionE, correctOption)
  }

  /** Stripping loses exactly the answer key: two questions that differ
      only in their correct option are served identically. */
  lemma StripForgetsOnlyTheKey(q1: Question, q2: Question)
    ensures Strip(q1) == Strip(q2) <==> q1.(correctOption := q2.correctOption) == q2
  {
    if Strip(q1) == Strip(q2) {
      assert WithKey(Strip(q1), q2.correctOption) == q2;
    }
  }

  function StripAll(qs: seq<Question>): (ps: seq<PublicQuestion>)
    ensures |ps| == |qs|
    ensures forall i :: 0 <= i < |qs| ==> ps[i] == Strip(qs[i])
  {
    seq(|qs|, i requires 0 <= i < |qs| => Strip(qs[i]))
  }

  /** `map((q, index) => ({ ...q, questionNumber: index + 1 }))`. */
  function Renumber(ps: seq<PublicQuestion>): (r: seq<PublicQuestion>)
    ensures |r| == |ps|
    ensures forall i :: 0 <= i < |ps| ==> r[i].questionNumber == i + 1
    ensures forall i :: 0 <= i < |ps| ==> r[i].(questionNumber := ps[i].questionNumber) == ps[i]
  {
    seq(|ps|, i requires 0 <= i < |ps| => ps[i].(questionNumber := i + 1))
  }

  /** The subject whose questions are served in stored order. */
  predicate IsEnglish(subject: Option<Subject>)
  {
    subject.Some? && subject.value.name == "English"
  }

  /** A shuffle as `shuffleArray` is used here: whatever the seed, it
      returns a permutation of its input. */
  ghost predicate IsShuffle(shuffle: (seq<PublicQuestion>, Id) -> seq<PublicQuestion>)
  {
    forall xs, seed :: multiset(shuffle(xs, seed)) == multiset(xs)
  }

  /** The saved-answers map (`reduce` over the session's rows): each row
      with a non-empty selection sets its question's entry, later rows
      overwriting earlier ones. */
  function AnswersMap(rows: seq<Answer>): (m: map<Id, string>)
    ensures forall qid :: qid in m <==>
      exists i :: 0 <= i < |rows| && rows[i].questionId == qid && IsTruthy(rows[i].selectedOption)
    ensures forall qid :: qid in m ==>
      exists i :: 0 <= i < |rows| && rows[i].questionId == qid && IsTruthy(rows[i].selectedOption)
        && m[qid] == rows[i].selectedOption.value
  {
    if |rows| == 0 then map[]
    else
      var init := rows[..|rows| - 1];
      var last := rows[|rows| - 1];
      var m := AnswersMap(init);
      assert forall i :: 0 <= i < |init| ==> init[i] == rows[i];
      if IsTruthy(last.selectedOption) then m[last.questionId := last.selectedOption.value] else m
  }

  /** When no two rows share a question, as for the rows of one session,
      each selected row's entry holds that row's selection. */
  lemma AnswersMapExact(rows: seq<Answer>, i: nat)
    requires forall j, k :: 0 <= j < k < |rows| ==> rows[j].questionId != rows[k].questionId
    requires i < |rows| && IsTruthy(rows[i].selectedOption)
    ensures rows[i].questionId in AnswersMap(rows)
    ensures AnswersMap(rows)[rows[i].questionId] == rows[i].selectedOption.value
  {
  }

  /** The saved-answers map of one session has an entry exactly for the
      questions whose row in that session has a non-empty selection. */
  lemma SavedAnswerKeys(answers: seq<Answer>, sessionId: Id, qid: Id)
    ensures qid in AnswersMap(AnswersOf(answers, sessionId)) <==>
      exists i :: 0 <= i < |answers| && IsPair(answers[i], sessionId, qid) && IsTruthy(answers[i].selectedOption)
  {
    var rows := AnswersOf(answers, sessionId);
    if qid in AnswersMap(rows) {
      var j :| 0 <= j < |rows| && rows[j].questionId == qid && IsTruthy(rows[j].selectedOption);
      assert rows[j] in rows;
      assert rows[j] in answers;
      var i :| 0 <= i < |answers| && answers[i] == rows[j];
      assert IsPair(answers[i], sessionId, qid);
    }
    if exists i :: 0 <= i < |answers| && IsPair(answers[i], sessionId, qid) && IsTruthy(answers[i].selectedOption) {
      var i :| 0 <= i < |answers| && IsPair(answers[i], sessionId, qid) && IsTruthy(answers[i].selectedOption);
      assert answers[i] in rows;
    }
  }

  /** With at most one row per (session, question), the entry of a selected
      row's question is that row's selection. */
  lemma SavedAnswerValue(answers: seq<Answer>, sessionId: Id, i: nat)
    requires AnswerPairsUnique(answers)
    requires i < |answers| && answers[i].examSessionId == sessionId && IsTruthy(answers[i].selectedOption)
    ensures var m := AnswersMap(AnswersOf(answers, sessionId));
      answers[i].questionId in m && m[answers[i].questionId] == answers[i].selectedOption.value
  {
    var rows := AnswersOf(answers, sessionId);
    var m := AnswersMap(rows);
    var a := answers[i];
    assert a in rows;
    var j :| 0 <= j < |rows| && rows[j] == a;
    assert a.questionId in m;
    var k :| 0 <= k < |rows| && rows[k].questionId == a.questionId && IsTruthy(rows[k].selectedOption)
      && m[a.questionId] == rows[k].selectedOption.value;
    var b := rows[k];
    assert b in rows;
    assert b in answers;
    var i2 :| 0 <= i2 < |answers| && answers[i2] == b;
    assert answers[i2].examSessionId == answers[i].examSessionId && answers[i2].questionId == answers[i].questionId;
  }

  /** The two facts above for every question and every row at once. */
  lemma SavedAnswersMap(answers: seq<Answer>, sessionId: Id)
    requires AnswerPairsUnique(answers)
    ensures forall qid :: qid in AnswersMap(AnswersOf(answers, sessionId)) <==>
      exists i :: 0 <= i < |answers| && IsPair(answers[i], sessionId, qid) && IsTruthy(answers[i].selectedOption)
    ensures forall i :: 0 <= i < |answers| && answers[i].examSessionId == sessionId
                        && IsTruthy(answers[i].selectedOption) ==>
      AnswersMap(AnswersOf(answers, sessionId))[answers[i].questionId] == answers[i].selectedOption.value
  {
    forall qid
      ensures qid in AnswersMap(AnswersOf(answers, sessionId)) <==>
        exists i :: 0 <= i < |answers| && IsPair(answers[i], sessionId, qid) && IsTruthy(answers[i].selectedOption)
    {
      SavedAnswerKeys(answers, sessionId, qid);
    }
    forall i | 0 <= i < |answers| && answers[i].examSessionId == sessionId && IsTruthy(answers[i].selectedOption)
      ensures answers[i].questionId in AnswersMap(AnswersOf(answers, sessionId))
      ensures AnswersMap(AnswersOf(answers, sessionId))[answers[i].questionId] == answers[i].selectedOption.value
    {
      SavedAnswerValue(answers, sessionId, i);
    }
  }

  /** `subject?.name || "Unknown"`: never empty. */
  function DisplayName(subject: Option<Subject>): (r: string)
    ensures r != ""
    ensures subject.Some? && subject.value.name != "" ==> r == subject.value.name
    ensures subject.None? ==> r == "Unknown"
  {
    if subject.Some? && subject.value.name != "" then subject.value.name else "Unknown"
  }

  /** `subject?.duration || 60`: never zero, so a missing subject or a zero
      duration both give 60 minutes. */
  function DisplayDuration(subject: Option<Subject>): (r: int)
    ensures r != 0
    ensures subject.Some? && subject.value.duration != 0 ==> r == subject.value.duration
    ensures subject.None? || subject.value.duration == 0 ==> r == 60
  {
    if subject.Some? && subject.value.duration != 0 then subject.value.duration else 60
  }

  /** `x || 0` on a nullable integer column. */
  function OrZero(x: Option<int>): (r: int)
    ensures x.Some? ==> r == x.value
    ensures x.None? ==> r == 0
  {
    if x.Some? then x.value else 0
  }
}
