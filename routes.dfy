/** The exam routes as handlers over the store. Each handler reads the
    store, checks its guards in the order the route does, and performs at
    most the writes the route performs. The clock is the `now` argument. */
module Routes {
  import opened Common
  import opened Schema
  import opened Storage
  import opened SessionRules

  datatype StartExamOk = StartExamOk(examSessionId: Id, studentId: Id, subjectId: Id)

  datatype SessionView = SessionView(
    id: Id,
    subjectId: Id,
    subjectName: string,
    duration: int,
    totalQuestions: int,
    startTime: Option<Timestamp>,
    endTime: Option<Timestamp>,
    timeTaken: Option<int>,
    status: Status)

  /** A save either wrote a row or was acknowledged without writing. */
  datatype SaveAck = Saved(answerId: Id) | NoAnswerSelected

  datatype ResultsView = ResultsView(
    studentName: string,
    gender: string,
    subjectName: string,
    score: int,
    totalQuestions: int,
    timeTaken: int)

  /** Every store the routes can produce from an empty one. */
  ghost predicate Reachable(store: Store)
    reads store
  {
    store.Valid() && forall i :: 0 <= i < |store.sessions| ==> SessionShapeOk(store.sessions[i])
  }

  lemma EmptyStoreIsReachable(store: Store)
    requires store.Valid() && store.sessions == []
    ensures Reachable(store)
  {
  }

  /** `POST /api/start-exam`: validates the student before writing anything,
      inserts the student, then looks the subject up by name; an unknown
      subject is reported only after the student row exists. The new
      session snapshots the subject's question count. */
  method StartExam(store: Store, name: string, gender: string, subjectName: string, now: Timestamp)
    returns (r: Result<StartExamOk>)
    requires Reachable(store)
    modifies store`students, store`sessions
    ensures Reachable(store)
    ensures TableProgress(old(store.sessions), store.sessions)
    ensures ParseStudent(name, gender).None? ==>
      r == Fail(ValidationError) && store.students == old(store.students) && store.sessions == old(store.sessions)
    ensures ParseStudent(name, gender).Some? ==>
      store.students == old(store.students) + [Student(|old(store.students)|, name, gender, now)]
    ensures ParseStudent(name, gender).Some? && store.SubjectByName(subjectName).None? ==>
      r == Fail(SubjectNotFound) && store.sessions == old(store.sessions)
    ensures ParseStudent(name, gender).Some? && store.SubjectByName(subjectName).Some? ==>
      var subject := store.SubjectByName(subjectName).value;
      var sessionId := |old(store.sessions)|;
      && store.sessions == old(store.sessions) +
           [NewSession(sessionId, InsertExamSession(|old(store.students)|, subject.id, subject.questionCount))]
      && r == Ok(StartExamOk(sessionId, |old(store.students)|, subject.id))
  {
    var input := ParseStudent(name, gender);
    if input.None? {
      return Fail(ValidationError);
    }
    var student := store.CreateStudent(input.value, now);
    var subject := store.SubjectByName(subjectName);
    if subject.None? {
      return Fail(SubjectNotFound);
    }
    var session := store.CreateExamSession(
      InsertExamSession(student.id, subject.value.id, subject.value.questionCount));
    r := Ok(StartExamOk(session.id, student.id, subject.value.id));
  }

  /** `GET /api/exam-session/:id`: the session's own columns with its
      subject's name and duration, falling back to "Unknown" and 60. */
  method GetExamSession(store: Store, sessionId: Id) returns (r: Result<SessionView>)
    requires store.Valid()
    ensures store.SessionById(sessionId).None? ==> r == Fail(SessionNotFound)
    ensures store.SessionById(sessionId).Some? ==>
      var s := store.SessionById(sessionId).value;
      var subject := store.SubjectById(s.subjectId);
      r == Ok(SessionView(s.id, s.subjectId, DisplayName(subject), DisplayDuration(subject),
                          s.totalQuestions, s.startTime, s.endTime, s.timeTaken, s.status))
  {
    var session := store.SessionById(sessionId);
    if session.None? {
      return Fail(SessionNotFound);
    }
    var s := session.value;
    var subject := store.SubjectById(s.subjectId);
    r := Ok(SessionView(s.id, s.subjectId, DisplayName(subject), DisplayDuration(subject),
                        s.totalQuestions, s.startTime, s.endTime, s.timeTaken, s.status));
  }

  /** `GET /api/questions/session/:id`: the subject's questions without
      their answer key; for every subject but English shuffled with the
      session key as seed and renumbered from 1. The session's status is not
      checked: a pending session is served too. */
  method GetSessionQuestions(store: Store, sessionId: Id,
                             shuffle: (seq<PublicQuestion>, Id) -> seq<PublicQuestion>)
    returns (r: Result<seq<PublicQuestion>>)
    requires store.Valid()
    requires IsShuffle(shuffle)
    ensures store.SessionById(sessionId).None? ==> r == Fail(SessionNotFound)
    ensures store.SessionById(sessionId).Some? ==>
      var s := store.SessionById(sessionId).value;
      var stored := store.QuestionsBySubject(s.subjectId);
      && r.Ok?
      && (IsEnglish(store.SubjectById(s.subjectId)) ==> r.value == StripAll(stored))
      && (!IsEnglish(store.SubjectById(s.subjectId)) ==>
            && |r.value| == |stored|
            && (forall i :: 0 <= i < |r.value| ==> r.value[i].questionNumber == i + 1)
            && exists p :: multiset(p) == multiset(StripAll(stored)) && r.value == Renumber(p))
  {
    var session := store.SessionById(sessionId);
    if session.None? {
      return Fail(SessionNotFound);
    }
    var subject := store.SubjectById(session.value.subjectId);
    var all := store.QuestionsBySubject(session.value.subjectId);
    var withoutAnswers := StripAll(all);
    var final := withoutAnswers;
    if !IsEnglish(subject) {
      var shuffled := shuffle(withoutAnswers, sessionId);
      assert multiset(shuffled) == multiset(withoutAnswers);
      assert |shuffled| == |all| by {
        assert |multiset(shuffled)| == |multiset(withoutAnswers)|;
      }
      final := Renumber(shuffled);
    }
    r := Ok(final);
  }

  /** `POST /api/save-answer/:id`. Refuses, in this order, a missing
      session, a session not in progress and a missing question, writing
      nothing. An empty selection is acknowledged without a write. Otherwise
      the answer is upserted with `isCorrect` computed from the stored key.
      The question is not checked to belong to the session's subject. */
  method SaveAnswer(store: Store, sessionId: Id, questionId: Id, selectedOption: Option<string>, now: Timestamp)
    returns (r: Result<SaveAck>)
    requires Reachable(store)
    modifies store`answers
    ensures Reachable(store)
    ensures store.SessionById(sessionId).None? ==>
      r == Fail(SessionNotFound) && store.answers == old(store.answers)
    ensures store.SessionById(sessionId).Some? && store.SessionById(sessionId).value.status != InProgress ==>
      r == Fail(NotInProgress) && store.answers == old(store.answers)
    ensures store.SessionById(sessionId).Some? && store.SessionById(sessionId).value.status == InProgress ==>
      var q := store.QuestionById(questionId);
      && (q.None? ==> r == Fail(QuestionNotFound) && store.answers == old(store.answers))
      && (q.Some? && !IsTruthy(selectedOption) ==> r == Ok(NoAnswerSelected) && store.answers == old(store.answers))
      && (q.Some? && IsTruthy(selectedOption) && !FitsVarchar(selectedOption.value, 1) ==>
            r == Fail(WriteFailed) && store.answers == old(store.answers))
      && (q.Some? && IsTruthy(selectedOption) && FitsVarchar(selectedOption.value, 1) ==>
            var isCorrect := selectedOption.value == q.value.correctOption;
            && store.answers == Upsert(old(store.answers), InsertAnswer(sessionId, questionId, selectedOption, Some(isCorrect)), now)
            && store.AnswerFor(sessionId, questionId).Some?
            && store.AnswerFor(sessionId, questionId).value.selectedOption == selectedOption
            && store.AnswerFor(sessionId, questionId).value.isCorrect == Some(isCorrect)
            && r == Ok(Saved(store.AnswerFor(sessionId, questionId).value.id)))
  {
    var session := store.SessionById(sessionId);
    if session.None? {
      return Fail(SessionNotFound);
    }
    if session.value.status != InProgress {
      return Fail(NotInProgress);
    }
    var question := store.QuestionById(questionId);
    if question.None? {
      return Fail(QuestionNotFound);
    }
    if IsTruthy(selectedOption) {
      var isCorrect := selectedOption.value == question.value.correctOption;
      var answer := store.SaveAnswer(InsertAnswer(sessionId, questionId, selectedOption, Some(isCorrect)), now);
      if answer.None? {
        return Fail(WriteFailed);
      }
      r := Ok(Saved(answer.value.id));
    } else {
      r := Ok(NoAnswerSelected);
    }
  }

  /** `POST /api/submit-exam/:id`: `SubmitStep` on the stored session with
      its answer rows. There is no status guard. The score is the number of
      distinct questions the session answered correctly. */
  method SubmitExam(store: Store, sessionId: Id, now: Timestamp) returns (r: Result<SubmitOk>)
    requires Reachable(store)
    modifies store`sessions
    ensures Reachable(store)
    ensures TableProgress(old(store.sessions), store.sessions)
    ensures sessionId >= |old(store.sessions)| ==> r == Fail(SessionNotFound) && store.sessions == old(store.sessions)
    ensures sessionId < |old(store.sessions)| ==>
      var step := SubmitStep(old(store.sessions)[sessionId], store.AnswersBySession(sessionId), now);
      r == step.response && store.sessions == old(store.sessions)[sessionId := step.session]
    ensures r.Ok? ==> r.value.score == |CorrectQuestions(store.answers, sessionId)|
  {
    var session := store.SessionById(sessionId);
    if session.None? {
      return Fail(SessionNotFound);
    }
    var allAnswers := store.AnswersBySession(sessionId);
    var correctAnswers := CountCorrect(allAnswers);
    var totalQuestions := session.value.totalQuestions;
    if session.value.startTime.None? {
      return Fail(NotStarted);
    }
    var timeTaken := FloorSeconds(now - session.value.startTime.value);
    var updated := store.UpdateExamSession(sessionId,
      SessionPatch(Some(Completed), None, Some(now), Some(correctAnswers), Some(timeTaken)));
    SubmitKeepsShape(session.value, allAnswers, now);
    r := Ok(SubmitOk(correctAnswers, totalQuestions, timeTaken));
    assert correctAnswers == |CorrectQuestions(store.answers, sessionId)| by {
      assert allAnswers == AnswersOf(store.answers, sessionId);
      ScoreCountsCorrectQuestions(store.answers, sessionId);
    }
  }

  /** `GET /api/results/:id`: the student, the subject name and the stored
      score and time taken, each null read as 0. */
  method GetResults(store: Store, sessionId: Id) returns (r: Result<ResultsView>)
    requires Reachable(store)
    ensures store.SessionById(sessionId).None? ==> r == Fail(SessionNotFound)
    ensures store.SessionById(sessionId).Some? ==>
      var s := store.SessionById(sessionId).value;
      var student := store.StudentById(s.studentId);
      && (student.None? ==> r == Fail(StudentNotFound))
      && (student.Some? ==>
            r == Ok(ResultsView(student.value.name, student.value.gender, DisplayName(store.SubjectById(s.subjectId)),
                                OrZero(s.score), s.totalQuestions, OrZero(s.timeTaken))))
      && (student.Some? && s.status == Completed ==>
            r.value.score == s.score.value && r.value.timeTaken == s.timeTaken.value)
      && (student.Some? && s.status != Completed ==> r.value.score == 0 && r.value.timeTaken == 0)
  {
    var session := store.SessionById(sessionId);
    if session.None? {
      return Fail(SessionNotFound);
    }
    var s := session.value;
    var student := store.StudentById(s.studentId);
    if student.None? {
      return Fail(StudentNotFound);
    }
    var subject := store.SubjectById(s.subjectId);
    r := Ok(ResultsView(student.value.name, student.value.gender, DisplayName(subject),
                        OrZero(s.score), s.totalQuestions, OrZero(s.timeTaken)));
  }

  /** `GET /api/subjects`: the whole subjects table. Each listed name looks
      up exactly the subject listed with it. */
  method GetSubjects(store: Store) returns (r: seq<Subject>)
    requires store.Valid()
    ensures r == store.subjects
    ensures forall i :: 0 <= i < |r| ==> store.SubjectByName(r[i].name) == Some(r[i])
  {
    r := store.subjects;
    forall i | 0 <= i < |r|
      ensures store.SubjectByName(r[i].name) == Some(r[i])
    {
      assert SubjectIndex(store.subjects, r[i].name) == Some(i);
    }
  }

  /** `GET /api/answers/:id`: question key to selected option, for exactly
      the session's rows with a non-empty selection. */
  method GetSavedAnswers(store: Store, sessionId: Id) returns (r: Result<map<Id, string>>)
    requires store.Valid()
    ensures store.SessionById(sessionId).None? ==> r == Fail(SessionNotFound)
    ensures store.SessionById(sessionId).Some? ==>
      && r.Ok?
      && (forall qid :: qid in r.value <==>
            exists i :: 0 <= i < |store.answers| && IsPair(store.answers[i], sessionId, qid)
                        && IsTruthy(store.answers[i].selectedOption))
      && (forall i :: 0 <= i < |store.answers| && store.answers[i].examSessionId == sessionId
                      && IsTruthy(store.answers[i].selectedOption) ==>
            r.value[store.answers[i].questionId] == store.answers[i].selectedOption.value)
  {
    var session := store.SessionById(sessionId);
    if session.None? {
      return Fail(SessionNotFound);
    }
    var savedAnswers := store.AnswersBySession(sessionId);
    assert savedAnswers == AnswersOf(store.answers, sessionId);
    SavedAnswersMap(store.answers, sessionId);
    r := Ok(AnswersMap(savedAnswers));
  }

  /** `POST /api/exam-session/:id/start`: `StartStep` on the stored session. */
  method StartSession(store: Store, sessionId: Id, now: Timestamp) returns (r: Result<StartOk>)
    requires Reachable(store)
    modifies store`sessions
    ensures Reachable(store)
    ensures TableProgress(old(store.sessions), store.sessions)
    ensures sessionId >= |old(store.sessions)| ==> r == Fail(SessionNotFound) && store.sessions == old(store.sessions)
    ensures sessionId < |old(store.sessions)| ==>
      var step := StartStep(old(store.sessions)[sessionId], now);
      r == step.response && store.sessions == old(store.sessions)[sessionId := step.session]
  {
    var session := store.SessionById(sessionId);
    if session.None? {
      return Fail(SessionNotFound);
    }
    var s := session.value;
    StartKeepsShape(s, now);
    if s.status == InProgress && s.startTime.Some? {
      return Ok(StartOk(s.startTime.value, true));
    }
    if s.status == Completed || s.status == AutoSubmitted {
      return Fail(AlreadyCompleted);
    }
    var updated := store.UpdateExamSession(sessionId, SessionPatch(Some(InProgress), Some(now), None, None, None));
    r := Ok(StartOk(updated.value.startTime.value, false));
  }
}
