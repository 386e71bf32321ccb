/** The five tables of the exam database as row datatypes, with the column
    defaults, the column width limits and the uniqueness constraints that the
    table declarations impose, and the student insert validation. */
module Schema {
  import opened Common

  /** A primary key. Keys are modelled as the row's position in its table:
      every table only grows in the modelled code, so positions are unique
      and stable, as generated keys are. */
  type Id = nat

  /** Milliseconds since the epoch. */
  type Timestamp = int

  datatype Student = Student(id: Id, name: string, gender: string, createdAt: Timestamp)

  datatype Subject = Subject(id: Id, name: string, duration: int, questionCount: int)

  /** A stored question. Options A to D are required, option E is optional.
      `instruction` is not declared with the other columns but the seeding
      and instruction-update scripts write it, so it is part of the row. */
  datatype Question = Question(
    id: Id,
    subjectId: Id,
    questionNumber: int,
    questionText: string,
    instruction: Option<string>,
    optionA: string,
    optionB: string,
    optionC: string,
    optionD: string,
    optionE: Option<string>,
    correctOption: string)

  /** A question row before the database assigns its key. */
  datatype NewQuestion = NewQuestion(
    subjectId: Id,
    questionNumber: int,
    questionText: string,
    instruction: Option<string>,
    optionA: string,
    optionB: string,
    optionC: string,
    optionD: string,
    optionE: Option<string>,
    correctOption: string)

  datatype Status = Pending | InProgress | Completed | AutoSubmitted

  datatype ExamSession = ExamSession(
    id: Id,
    studentId: Id,
    subjectId: Id,
    startTime: Option<Timestamp>,
    endTime: Option<Timestamp>,
    status: Status,
    score: Option<int>,
    totalQuestions: int,
    timeTaken: Option<int>)

  datatype Answer = Answer(
    id: Id,
    examSessionId: Id,
    questionId: Id,
    selectedOption: Option<string>,
    isCorrect: Option<bool>,
    savedAt: Timestamp)

  /** The validated student input: the key and the creation time are omitted. */
  datatype InsertStudent = InsertStudent(name: string, gender: string)

  /** The session insert input: the key, startTime, endTime, status, score
      and timeTaken are omitted, so a caller cannot set them. */
  datatype InsertExamSession = InsertExamSession(studentId: Id, subjectId: Id, totalQuestions: int)

  /** The answer row the server hands to the store: `isCorrect` is computed
      by the server and passed along with the selection. */
  datatype InsertAnswer = InsertAnswer(
    examSessionId: Id,
    questionId: Id,
    selectedOption: Option<string>,
    isCorrect: Option<bool>)

  /** A partial session update over the columns the routes update: a field
      that is `Some` is written with a non-null value, a field that is `None`
      is absent from the update and left as it is. Updates naming other
      columns, or writing null, are never issued and are not modelled. */
  datatype SessionPatch = SessionPatch(
    status: Option<Status>,
    startTime: Option<Timestamp>,
    endTime: Option<Timestamp>,
    score: Option<int>,
    timeTaken: Option<int>)

  /** The student insert schema: a name of at least two characters and a
      gender of exactly "Male" or "Female". */
  function ParseStudent(name: string, gender: string): (r: Option<InsertStudent>)
    ensures r.Some? <==> |name| >= 2 && (gender == "Male" || gender == "Female")
    ensures r.Some? ==> r.value.name == name && r.value.gender == gender
  {
    if |name| >= 2 && (gender == "Male" || gender == "Female") then
      Some(InsertStudent(name, gender))
    else
      None
  }

  /** A `varchar(n)` column accepts a value of at most `n` characters. */
  predicate FitsVarchar(s: string, n: nat)
  {
    |s| <= n
  }

  /** The row the database creates from a session insert, with the column
      defaults: status "pending" and no start, end, score or time taken. */
  function NewSession(id: Id, input: InsertExamSession): (s: ExamSession)
    ensures s.id == id && s.studentId == input.studentId
    ensures s.subjectId == input.subjectId && s.totalQuestions == input.totalQuestions
    ensures IsNotYetStarted(s)
  {
    ExamSession(id, input.studentId, input.subjectId, None, None, Pending, None, input.totalQuestions, None)
  }

  /** A session as it is created and as long as nobody has started it. */
  predicate IsNotYetStarted(s: ExamSession)
  {
    s.status == Pending && s.startTime.None? && s.endTime.None? && s.score.None? && s.timeTaken.None?
  }

  /** `update ... set(updates)` for such a patch: the fields present in the
      patch are written and every other column is kept. */
  function ApplyPatch(s: ExamSession, p: SessionPatch): (r: ExamSession)
    ensures r.id == s.id && r.studentId == s.studentId && r.subjectId == s.subjectId
    ensures r.totalQuestions == s.totalQuestions
    ensures r.status == (if p.status.Some? then p.status.value else s.status)
    ensures r.startTime == (if p.startTime.Some? then p.startTime else s.startTime)
    ensures r.endTime == (if p.endTime.Some? then p.endTime else s.endTime)
    ensures r.score == (if p.score.Some? then p.score else s.score)
    ensures r.timeTaken == (if p.timeTaken.Some? then p.timeTaken else s.timeTaken)
  {
    s.(status := if p.status.Some? then p.status.value else s.status,
       startTime := if p.startTime.Some? then p.startTime else s.startTime,
       endTime := if p.endTime.Some? then p.endTime else s.endTime,
       score := if p.score.Some? then p.score else s.score,
       timeTaken := if p.timeTaken.Some? then p.timeTaken else s.timeTaken)
  }

  /** `subjects.name` is declared unique. */
  ghost predicate SubjectNamesUnique(rows: seq<Subject>)
  {
    forall i, j :: 0 <= i < j < |rows| ==> rows[i].name != rows[j].name
  }

  /** The unique index on (subject_id, question_number). */
  ghost predicate QuestionKeysUnique(rows: seq<Question>)
  {
    forall i, j :: 0 <= i < j < |rows| ==>
      rows[i].subjectId != rows[j].subjectId || rows[i].questionNumber != rows[j].questionNumber
  }

  /** At most one answer row per (session, question). The answers table
      declares no such constraint; the store's upsert keeps it. */
  ghost predicate AnswerPairsUnique(rows: seq<Answer>)
  {
    forall i, j :: 0 <= i < j < |rows| ==>
      rows[i].examSessionId != rows[j].examSessionId || rows[i].questionId != rows[j].questionId
  }
}
