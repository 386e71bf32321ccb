# Computer-CBT exam-session engine in Dafny

This project models the exam-session engine of the Computer-CBT exam runner.
A student picks a subject, a session is created in `pending`, the student
confirms the start, answers are autosaved while the session is
`in_progress`, and a submit scores the session from the stored
per-answer `isCorrect` flags.

The model has these parts:

- **Storage layer (`Storage.Store`).** A class holding five tables as sequences: students, subjects, questions, sessions and answers. A row's key is its position in its table.
- **HTTP routes (`Routes`).** Methods on the store that check their guards in the order the handlers do.
- **Lifecycle rules (`SessionRules`).** The pure rules behind the routes: start and submit as functions on one session row, the invariant every reachable session keeps, the answer-key strip and renumbering, and the saved-answers map.
- **Seeders.**
  - `SeedAllNewSubjects`: the question-array validator and the numbering loop.
  - `SeedOfficePractice`: the skip / validate / insert loop with its three counters.
  - `EnglishInstructions`: the English section-instruction update.
- **Exam screen (`ExamScreen.ExamView`).** Its state: the question index, the selected-answer map, and the save, start and submit requests it fires.
- **Countdown timer (`Countdown`).** The elapsed seconds, the one-shot time-up callback, the `mm:ss` display, and the colour and pulse thresholds.

Some things become explicit values:

- **Clock:** the clock becomes an integer `now` in milliseconds.
- **Shuffle:** the shuffle becomes a function parameter whose only stated property is that it returns a permutation of its input.
- **Database errors caught by a seeder:** these become a set of entry positions whose insert throws.

JavaScript operators are written out where they matter:

- `Math.floor` of a millisecond span, for negative spans too;
- `%`, which truncates toward zero;
- `String(n)` and `padStart(2, "0")`;
- `trim() === ""`;
- truthiness of a string-or-null.

The model follows the code as written, including these behaviours a reader might not expect:

- **Question serving:** the route serves questions for a session that has not started.
- **Submit:**
  - it has no status guard, so a second submit recomputes the score and overwrites `endTime` and `timeTaken`;
  - a time-up submit records `completed`, so nothing ever writes `auto_submitted`, although the status column's comment lists it (shared/schema.ts:47).
- **Shuffle seed:** the seed is the session key, not the start time.
- **Save-answer:** it does not check that the question belongs to the session's subject.
- **Instruction column:** the seeders write an `instruction` column that the schema file does not declare. `Question` carries it as an optional string.

## Model

| member | source | states |
|---|---|---|
| Common.FloorSeconds | server/routes.ts:191 | the whole seconds `s` of a millisecond span satisfy `1000*s <= ms < 1000*s + 1000`, negative spans included (Math.floor) |
| Schema.ParseStudent | shared/schema.ts:105-111 | a student input parses iff the name has at least 2 characters and the gender is "Male" or "Female"; a parsed input keeps both values |
| Schema.NewSession | shared/schema.ts:41-51 | a created session keeps its key, student, subject and question-count snapshot, and is pending with no start, end, score or time taken |
| Schema.ApplyPatch | server/storage.ts:115-122 | for an update naming only status, start time, end time, score and time taken with non-null values (the only updates the routes pass), each named column is replaced and every other column is kept |
| Storage.SubjectIndex | shared/schema.ts:18 | the position found holds that name and no earlier row does; none is found iff no row has the name |
| Storage.QuestionKeyIndex | shared/schema.ts:36-37 | the position found holds that (subject, number) key; none is found iff no row has it |
| Storage.AnswerIndex | server/storage.ts:161-172 | the first row with both keys is found; none is found iff no row matches both keys |
| Storage.AnswersOf | server/storage.ts:154-159 | the session's rows, each with its multiplicity, and no row of another session |
| Storage.QuestionsOf | server/storage.ts:89-96 | the subject's rows, each with its multiplicity, and no row of another subject |
| Storage.InsertByNumber | server/storage.ts:95 | inserting into a list sorted by question number keeps it sorted and adds exactly that row |
| Storage.SortByNumber | server/storage.ts:95 | the result is sorted by ascending question number and is a permutation of the input |
| Storage.CountCorrect | server/routes.ts:182 | the result is the number of positions whose row has `isCorrect === true` (the size of `CorrectPositions`); so it is at most the row count, equals it iff every row is correct, and is 0 iff none is |
| Storage.Store.constructor | server/storage.ts:46 | an empty store satisfies the table invariant |
| Storage.Store.CreateStudent | server/storage.ts:49-55 | appends exactly one student, whose key is the next position, and keeps the invariant |
| Storage.Store.StudentById | server/storage.ts:57-60 | finds the student with that key, or reports that no row has it |
| Storage.Store.CreateSubject | server/storage.ts:63-69 | an insert with a taken name is refused and writes nothing; otherwise exactly one subject is appended |
| Storage.Store.SubjectByName | server/storage.ts:75-78 | finds a subject with that name, or reports that no row has it |
| Storage.Store.SubjectById | server/routes.ts:54-57 | finds the subject with that key, or reports that no row has it |
| Storage.Store.InsertQuestion | shared/schema.ts:34-37 | an insert is refused, writing nothing, iff its (subject, number) key is taken or the answer letter is longer than one character; otherwise exactly one row is appended |
| Storage.Store.QuestionById | server/routes.ts:139-142 | finds the question with that key, or reports that no row has it |
| Storage.Store.QuestionsBySubject | server/storage.ts:89-96 | exactly the subject's questions, sorted by ascending question number |
| Storage.Store.SetInstruction | server/update-english-instructions.ts:59-62 | only the row with that key changes, and only in its instruction |
| Storage.Store.CreateExamSession | server/storage.ts:99-105 | appends exactly the new pending session with the next key |
| Storage.Store.SessionById | server/storage.ts:107-113 | finds the session with that key, or reports that no row has it |
| Storage.Store.UpdateExamSession | server/storage.ts:115-122 | the session with that key is patched and every other session is unchanged; an unknown key writes nothing |
| Storage.Store.SaveAnswer | server/storage.ts:125-152 | the answers table becomes the upsert of the input; the stored row for the pair holds the input; a selection longer than one character is refused without a write |
| Storage.Store.AnswersBySession | server/storage.ts:154-159 | exactly the session's answer rows |
| Storage.Store.AnswerFor | server/storage.ts:161-172 | the row for both keys, or reports that no row has them |
| Storage.RowOf | server/storage.ts:81-87 | the stored row keeps the insert's subject, number, answer letter and option E |
| Storage.UpsertTouchesOnlyItsPair | server/storage.ts:139-141 | an upsert grows the table by one row iff the pair was absent, and leaves every row of another pair unchanged |
| Storage.UpsertStoresInput | server/storage.ts:127-151 | after an upsert the pair's row is the existing one, or else the new last row; it holds the input's selection and flag and the save time, and keeps its key |
| Storage.UpsertKeepsPairsUnique | server/storage.ts:125-152 | the upsert keeps at most one answer row per (session, question) |
| Storage.UpsertLastWriteWins | server/storage.ts:125-152 | two saves for the same pair leave the table as the second save alone would |
| SessionRules.TableProgressTransitive | server/routes.ts:315-318 | moving forward composes: any run of routes only moves each session forward |
| SessionRules.NeverBackToPending | server/routes.ts:315-318 | a session that has left pending never returns to it |
| SessionRules.StartKeepsShape | server/routes.ts:300-318 | start keeps the session invariant (pending iff no start time) and only moves forward; it writes iff the session was pending, setting in-progress and the start time together |
| SessionRules.StartRefusesTerminal | server/routes.ts:310-312 | start on a completed or auto-submitted session fails and leaves it as it is |
| SessionRules.StartIdempotent | server/routes.ts:300-307 | a second start after a successful one writes nothing and returns the same start time with `alreadyStarted` set |
| SessionRules.SubmitKeepsShape | server/routes.ts:186-199 | submit keeps the session invariant and only moves forward; on a reachable session it fails, writing nothing, iff the session is pending |
| SessionRules.SubmitScore | server/routes.ts:179-206 | on a started session submit succeeds; the score is the number of rows marked correct, at most the rows, and equal to them iff all rows are correct; time taken is the floored elapsed seconds; the snapshot is returned; score and time taken are stored |
| SessionRules.SubmitAgainOverwrites | server/routes.ts:169-199 | with no status guard, a second submit gives the same state as a single submit at the later time |
| SessionRules.ScoreCountsCorrectQuestions | server/routes.ts:178-182 | with one row per (session, question), which the store keeps, the count of the session's rows marked correct is the number of distinct questions it answered correctly, so a re-saved answer never counts twice |
| SessionRules.Strip | server/routes.ts:97 | a served question loses only the answer key: putting the key back restores the stored row |
| SessionRules.StripForgetsOnlyTheKey | server/routes.ts:97 | two questions are served alike iff they differ at most in their correct option |
| SessionRules.StripAll | server/routes.ts:97 | every question is stripped, in the same order |
| SessionRules.Renumber | server/routes.ts:107-110 | the numbers become 1..n in list order, and nothing else changes |
| SessionRules.AnswersMap | server/routes.ts:276-281 | a key is in the map iff some row for it has a non-empty selection, and each value is such a row's selection |
| SessionRules.AnswersMapExact | server/routes.ts:276-281 | with one row per question, each row with a selection maps its question to exactly that selection |
| SessionRules.SavedAnswerKeys | server/routes.ts:273-281 | the saved-answers map of a session has a key iff the session has a row for that question with a non-empty selection |
| SessionRules.SavedAnswerValue | server/routes.ts:273-281 | with one row per pair, the map gives each such row's selection |
| SessionRules.DisplayName | server/routes.ts:62 | the subject's name when it is non-empty, otherwise "Unknown" |
| SessionRules.DisplayDuration | server/routes.ts:63 | the subject's duration when non-zero, otherwise 60 |
| SessionRules.OrZero | server/routes.ts:241 | the stored value, or 0 when it is null |
| Routes.EmptyStoreIsReachable | shared/schema.ts:41-51 | a store with no sessions satisfies the route invariant |
| Routes.StartExam | server/routes.ts:9-41 | validates the student before any write; inserts the student, then reports an unknown subject; otherwise creates a pending session snapshotting the subject's question count |
| Routes.GetExamSession | server/routes.ts:44-74 | an unknown session fails; otherwise the session's columns with the subject name and duration fallbacks |
| Routes.GetSessionQuestions | server/routes.ts:78-119 | an unknown session fails; English is served stripped in stored order; any other subject is a permutation of the stripped list, renumbered 1..n |
| Routes.SaveAnswer | server/routes.ts:122-166 | refuses, writing nothing, a missing session, a session not in progress and a missing question, in that order; an empty selection is acknowledged without a write; otherwise it upserts the selection with `isCorrect` computed from the stored key |
| Routes.SubmitExam | server/routes.ts:169-211 | an unknown session fails; otherwise the response and the new row are those of the submit rule, and the invariant is kept; a successful score is the number of distinct questions the session answered correctly |
| Routes.GetResults | server/routes.ts:214-250 | an unknown session or student fails; otherwise name, gender, subject, score or 0, snapshot, and time taken or 0; a completed session reports its stored score and time |
| Routes.GetSubjects | server/routes.ts:253-261 | the subjects table, each listed name looking up exactly its subject |
| Routes.GetSavedAnswers | server/routes.ts:264-288 | an unknown session fails; otherwise the map has exactly the session's questions with a non-empty selection, each mapped to that selection |
| Routes.StartSession | server/routes.ts:291-328 | an unknown session fails; otherwise the response and the new row are those of the start rule, and the invariant is kept |
| SeedAllNewSubjects.AnswerLetterIsOption | server/seed-all-new-subjects.ts:29-31 | membership in the option list is the letter test A–D, or A–E with option E |
| SeedAllNewSubjects.ValidateQuestion | server/seed-all-new-subjects.ts:22-44 | accepts iff the array has 6 (7 with option E) items, the answer item is a valid letter, and every text item is a non-blank string |
| SeedAllNewSubjects.BuildRow | server/seed-all-new-subjects.ts:57-67 | the row has the given subject and number and no instruction, and has an option E iff the subject has five options |
| SeedAllNewSubjects.ValidRow | server/seed-all-new-subjects.ts:60-66 | a valid array gives a row whose answer is the last item, a one-character valid letter, and whose texts are all non-blank |
| SeedAllNewSubjects.CountValidCounts | server/seed-all-new-subjects.ts:50-54 | `CountValid`, the number of entries whose `validateQuestion` passes, is the number of positions whose array passes validation (the size of `ValidPositions`) |
| SeedAllNewSubjects.NumberAtNext | server/seed-all-new-subjects.ts:50-54 | the number advances by one past a valid entry and stays after an invalid one |
| SeedAllNewSubjects.NumbersIncrease | server/seed-all-new-subjects.ts:78 | a valid entry's number is below the number of every later entry |
| SeedAllNewSubjects.GetOrCreateSubject | server/seed-all-new-subjects.ts:11-20 | an existing subject is returned with no insert; otherwise exactly one subject is created; either way the name then finds it |
| SeedAllNewSubjects.LandedBelow | server/seed-all-new-subjects.ts:57-73 | every row landed so far has the subject and a number below the next number |
| SeedAllNewSubjects.LandedRows | server/seed-all-new-subjects.ts:57-73 | the landed rows are exactly those of the entries that land, in order, each built with its running number |
| SeedAllNewSubjects.LandedNumbersIncrease | server/seed-all-new-subjects.ts:50-78 | the numbers of the rows one run inserts strictly increase |
| SeedAllNewSubjects.InsertEntry | server/seed-all-new-subjects.ts:50-77 | an entry lands iff it is valid, its insert does not throw and its key is free; then exactly its row is appended, otherwise nothing |
| SeedAllNewSubjects.InsertQs | server/seed-all-new-subjects.ts:46-83 | inserted plus skipped is the entry count, the table grows by exactly the landed rows, and `inserted` counts them |
| SeedOfficePractice.RunCounts | server/seed-office-practice.ts:389-450 | each entry increments exactly one counter, so the three sum to the list length; the table only grows, by one row per success |
| SeedOfficePractice.RunGrows | server/seed-office-practice.ts:393-450 | a later loop state extends an earlier table and has at least as many errors |
| SeedOfficePractice.CleanRunCoversKeys | server/seed-office-practice.ts:393-450 | after a run without errors every entry's key is in the table |
| SeedOfficePractice.AllPresentAllSkipped | server/seed-office-practice.ts:396-410 | when every key is present, every entry is skipped and nothing is written |
| SeedOfficePractice.RerunIsNoOp | server/seed-office-practice.ts:389-461 | once a run ends without errors, a rerun skips every entry, inserts nothing and raises no error, whatever the database does |
| SeedOfficePractice.SeedEntry | server/seed-office-practice.ts:393-449 | the present-key check comes before validation; blank text, a wrong option count and a bad letter are errors; a throwing insert is an error; a success appends exactly the entry's row |
| SeedOfficePractice.SeedQuestions | server/seed-office-practice.ts:389-450 | the table and the three counters end as the loop's specification says |
| SeedOfficePractice.SeedOfficePracticeRun | server/seed-office-practice.ts:5-461 | an existing subject is reused, otherwise it is created with duration 50 and 50 questions; the counters sum to the list length; the run throws iff the error count is positive |
| EnglishInstructions.InstructionFor | server/update-english-instructions.ts:14-29 | a number outside 1..80, including 0 and negatives, gets "" |
| EnglishInstructions.Section | server/update-english-instructions.ts:15-27 | the range index is 1..6 inside 1..80 and 0 outside |
| EnglishInstructions.InstructionIsSectionText | server/update-english-instructions.ts:14-29 | the instruction is the text of the number's range, "" outside the ranges |
| EnglishInstructions.PaperTextsDistinct | server/update-english-instructions.ts:5-12 | the six section texts and "" are pairwise different |
| EnglishInstructions.PaperInstructionsBySection | server/update-english-instructions.ts:14-29 | a number gets a non-empty instruction iff it is in 1..80, and two numbers get the same one iff they are in the same range |
| EnglishInstructions.WithInstruction | server/update-english-instructions.ts:57-62 | only the instruction changes, to the one for the question's number |
| EnglishInstructions.Annotated | server/update-english-instructions.ts:56-68 | the subject's rows get their instruction and every other row is unchanged |
| EnglishInstructions.AnnotatedIdempotent | server/update-english-instructions.ts:56-68 | running the update twice gives the same table as once |
| EnglishInstructions.AnnotateSubject | server/update-english-instructions.ts:48-68 | the table becomes the annotated table, and the counter is the number of the subject's questions |
| EnglishInstructions.UpdateEnglishInstructions | server/update-english-instructions.ts:31-75 | with no English subject nothing is written and the count is 0; otherwise every English question gets its range instruction and the count is their number |
| Countdown.Decimal | client/src/components/Timer.tsx:47 | the decimal digits of a natural number, with no leading zero |
| Countdown.DecimalRoundTrip | client/src/components/Timer.tsx:47 | reading the digits back gives the number |
| Countdown.JsString | client/src/components/Timer.tsx:47 | `String(n)`: the digits, with a leading "-" for a negative number |
| Countdown.PadStart2 | client/src/components/Timer.tsx:47 | at least two characters, the input as the suffix, zeros before it |
| Countdown.JsRem | client/src/components/Timer.tsx:46 | the remainder has the sign of the dividend and is smaller than the divisor in size |
| Countdown.JsRemOdd | client/src/components/Timer.tsx:46 | the remainder is odd in the dividend and agrees with `%` on non-negative numbers |
| Countdown.PaddedValue | client/src/components/Timer.tsx:47 | a padded number reads back as the number |
| Countdown.PaddedWidth | client/src/components/Timer.tsx:47 | a number below 100 pads to exactly two characters |
| Countdown.FormatTimeReadsBack | client/src/components/Timer.tsx:45-47 | the display is digits, a colon and two digits; the seconds are below 60, and 60 × minutes + seconds is the elapsed time |
| Countdown.FormatTimeWidth | client/src/components/Timer.tsx:45-47 | below 100 minutes the display is exactly five characters |
| Countdown.UrgencyOrder | client/src/components/Timer.tsx:53-57 | plain is calmer than yellow, yellow calmer than red, and no two colours rank alike |
| Countdown.ColorBands | client/src/components/Timer.tsx:53-57 | red iff at most 120 s remain, yellow iff 121 to 300 s, otherwise the plain colour |
| Countdown.ColorNeverCalms | client/src/components/Timer.tsx:49-57 | as the elapsed time grows, the colour never moves back to a calmer one |
| Countdown.PulseIffRed | client/src/components/Timer.tsx:54-59 | the display pulses iff it is red |
| Countdown.ExamTimer.constructor | client/src/components/Timer.tsx:13-17 | the first elapsed value is the floored seconds since the start; the interval runs iff not paused |
| Countdown.ExamTimer.Tick | client/src/components/Timer.tsx:27-40 | a tick of a running interval sets the floored elapsed seconds, then clears the interval and fires time-up iff the time is up; a cleared interval does nothing |
| Countdown.ExamTimer.TickAll | client/src/components/Timer.tsx:24-43 | time-up fires at most once, and it fires iff it had already fired or the interval was running and some tick found the time up; a paused timer never fires |
| Countdown.ExamTimer.Rerun | client/src/components/Timer.tsx:24-43 | a re-run effect keeps the elapsed value, starts the interval iff not paused and can fire again |
| ExamScreen.PreCheckOrStarted | client/src/pages/ExamInterface.tsx:52-53 | once the session is loaded exactly one of the pre-check dialog and the exam is shown; before, neither is |
| ExamScreen.DistinctIdsCount | client/src/pages/ExamInterface.tsx:186 | with distinct keys there are as many keys as questions |
| ExamScreen.UnansweredMeansMissing | client/src/pages/ExamInterface.tsx:186-187 | the unanswered count is never negative, and is positive iff some question has no selection |
| ExamScreen.AnsweredCount | client/src/pages/ExamInterface.tsx:259-263 | with distinct keys, distinct numbers and selections only for shown questions, the answered set has as many numbers as there are selections, equals `questions.length` minus the unanswered count, and is full (the progress bar at ExamInterface.tsx:310 at 100%) iff every question has a selection, which is exactly when submitting does not ask |
| ExamScreen.SaveFor | client/src/pages/ExamInterface.tsx:146-150 | the request names the question and sends the stored selection, or null when there is none or it is empty |
| ExamScreen.SelectionCount | client/src/pages/ExamInterface.tsx:157 | reselecting keeps the number of entries; a first selection adds one |
| ExamScreen.ExamView.Current | client/src/pages/ExamInterface.tsx:143-145 | the current question exists iff the index is inside the loaded list |
| ExamScreen.ExamView.constructor | client/src/pages/ExamInterface.tsx:39-40 | the screen starts at index 0 with no selections and no requests |
| ExamScreen.ExamView.SaveCurrentAnswer | client/src/pages/ExamInterface.tsx:142-152 | exactly one save request for the current question, or none without one |
| ExamScreen.ExamView.HandleAnswerSelect | client/src/pages/ExamInterface.tsx:154-158 | only the current question's entry is set; with an empty list the access throws and nothing changes |
| ExamScreen.ExamView.HandleNext | client/src/pages/ExamInterface.tsx:160-164 | nothing happens at the last index; otherwise the current answer is saved and the index moves up by one, staying in range |
| ExamScreen.ExamView.HandlePrevious | client/src/pages/ExamInterface.tsx:166-170 | nothing happens at index 0; otherwise the current answer is saved and the index moves down by one |
| ExamScreen.ExamView.HandleQuestionSelect | client/src/pages/ExamInterface.tsx:172-175 | the current answer is saved and the index becomes n − 1, in range for n in 1..length |
| ExamScreen.ExamView.AutosaveTick | client/src/pages/ExamInterface.tsx:124-139 | once the exam has started and questions are loaded, one save of the current question; otherwise nothing |
| ExamScreen.ExamView.HandleStartExam | client/src/pages/ExamInterface.tsx:213-218 | the start request goes out iff the session is pending |
| ExamScreen.ExamView.HandleSubmit | client/src/pages/ExamInterface.tsx:185-194 | confirmation is asked iff some question is unanswered, and the submit request goes out unless the candidate declines |
| ExamScreen.ExamView.HandleTimeUp | client/src/pages/ExamInterface.tsx:177-183 | the submit request goes out without asking |

## Left out

- Database plumbing, the connection pool and query builders. The tables are in-memory sequences, and keys are row positions rather than random UUIDs. No core code deletes a row.
- Concurrency. Every call runs to completion before the next, so the racing autosaves and the non-atomic check-then-insert of `saveAnswer` are not modelled.
- HTTP status codes and JSON shapes. Outcomes are a result datatype. The catch-all responses for database errors (500, or 400 with the error's message in start-exam, server/routes.ts:37-40) are not modelled. Two errors that reach a catch are modelled: start-exam's input validation error, which the start-exam catch answers with 400 (`Fail(ValidationError)`), and save-answer's selection longer than the one-character column, which becomes a failed write.
- `shuffleArray` lives in `server/utils/shuffle`, which is not part of this model. Its algorithm and its determinism per seed are not modelled; it is a parameter that returns a permutation.
- The floating-point percentage of the results route (server/routes.ts:235).
- `seedFromJSON`, the `seed()` driver of the eight subjects, reading the JSON files, and `seedInlineQuestions`. These are file I/O and fixed data around `insertQs` and `getOrCreateSubject`, which are modelled.
- The literal Office Practice question list is not reproduced. The run is modelled for any list of entries.
- SeedOfficePractice.SeedEntry: a database error in the existence query is not modelled, only one thrown by the insert.
- SeedOfficePractice.SeedOfficePracticeRun: an error while finding or creating the subject, which would abort the run, is not modelled.
- EnglishInstructions.UpdateEnglishInstructions: a database error part-way through the loop is swallowed by the catch and leaves the earlier updates in place. This is not modelled; the loop is assumed to complete.
- Console logging, `process.exit`, toasts, navigation to the results page and the query cache.
- The exam screen's online/offline flag and tab-switch counter, which never affect session state.
- React scheduling. The screen's handlers act on the current state at once rather than on a later render. The autosave interval is a tick method called from outside.
- Schema.ApplyPatch: `updateExamSession` (server/storage.ts:115) takes any partial session row, which may name the key, owner, subject or snapshot and may write null. The model's patch names only status, start time, end time, score and time taken, with non-null values. Both callers (server/routes.ts:194-199 and 315-318) pass only those columns, non-null, so the routes lose nothing; but that the key, owner, subject and snapshot never change is a property of the patch type, not of the update.
- SessionRules.SubmitStep: as in Routes.SubmitExam, submit reads the clock twice, `Date.now()` for the time taken (server/routes.ts:190) and `new Date()` for the stored end time (server/routes.ts:196). The model uses one `now` for both, so it does not capture the milliseconds that may pass between the two readings.
- Countdown.ExamTimer.Tick: the clock reading is a parameter, and the one-second period is not modelled.
- JavaScript numbers are unbounded integers here. Millisecond timestamps and counters stay far below 2^53 in practice.
- String lengths count characters, not UTF-16 code units.
- Schema.ParseStudent: zod's `min(2)` (shared/schema.ts:109) counts UTF-16 code units, so a one-character name outside the Basic Multilingual Plane, such as an emoji, passes the source's check but is refused by the model.
