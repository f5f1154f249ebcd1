# Exam platform backend: a Dafny model of its bookkeeping

This project models the exam bookkeeping of an exam-administration backend. Administrators author exams: questions with options, one option flagged correct. Registered users start an exam inside its time window and submit their answers, and the backend scores them. The route handlers do all of this by reading and writing six tables (users, exams, questions, question options, exam sessions, exam answers). The model keeps the tables and the handlers' logic and leaves out HTTP, the ORM, authentication and e-mail.

- The database is one class, `Store.Database`.
  - Each table is a `seq` field, in table order.
  - `nextId` stands in for the database's random uuids: every inserted row takes the current value, which then grows.
  - `Valid()` is the schema's invariant. Every primary key is distinct and below `nextId`, and user emails are unique.
- Each route handler is a method on the database. Its frame names exactly the tables it writes.
- Each handler is proved against pure functions over the tables. The properties the code promises are then proved about those functions as lemmas.
- Inputs the code reads from its environment become parameters:
  - the authenticated user's id;
  - the request time `now`, in milliseconds;
  - password hashing, a function parameter `hash`;
  - whether the database accepts `submit`'s answer insert, a flag `insertAccepted`.

Modules, one per file:

- `Schema` and `Api` (schema.dfy): the row types, with nullable columns as `Option`, and the error codes with the `Result` envelope.
- `Tables` (tables.dfy): filters in table order, JavaScript's `find`/`findIndex`, and the primary-key invariant.
- `Store` (store.dfy): the queries as filters, the single-table writes, and the `Database` class.
- `ExamRows` (rows.dfy): the rows one exam-creation request inserts. Ids are handed out in order, and the correct option is backfilled from the first flagged option.
- `Authoring` (authoring.dfy): `POST /exams`, and the admin exam detail with each option flagged correct or not.
- `Grouping` (grouping.dfy): the two `forEach` loops that group fetched options under their questions in a `Map`.
- `Scoring` (scoring.dfy): the per-question count (self-service results), the per-answer count (both admin results handlers), and the JavaScript percentage. The percentage is a `Percentage` value: a finite `real`, NaN or Infinity.
- `ExamRoutes` (exams.dfy): the open-exam listing, the exam detail, `start`, `submit`, and the two self-service results handlers.
- `Lifecycle` (lifecycle.dfy): any sequence of `start`/`submit` calls, and the per-(user, exam) state machine (no session, then active, then completed).
- `AdminResults` (admin_results.dfy): the all-sessions and per-student admin results.
- `Cascade` (cascade.dfy): the transactional delete of an exam and its dependents.
- `BulkUsers` (bulk_users.dfy): bulk user creation with its skip checks.
- `SampleExam` (sample_exam.dfy): the built-in sample quiz and its seven-day exam.

Where the written specification and the code differ, the model follows the code:

- **Time window.** The specification calls the window half-open. The listing is strict at both ends (src/routes/exams.ts:20-21), and `start` accepts both ends (src/routes/exams.ts:173).
- **Delete order.** The specification lists options first. The code deletes answers, sessions, options, questions, then the exam (src/routes/admin.ts:425-459).
- **Empty exams.** The specification asks for a defined score when an exam has no questions. The self-service handlers divide 0 by 0, which is NaN, and only the per-student admin handler guards with 0.
- **Duplicate answers.** The self-service score counts only the first answer to each question, through `find`. It does not take "the answer" per question.

## Model

| member | source | states |
|---|---|---|
| Tables.FindIndex | dist/routes/admin.js:66 | the index of the first element satisfying the condition, or -1 exactly when none does |
| Tables.Find | src/routes/admin.ts:141 | a row is found exactly when one satisfies the condition; it is in the table and satisfies it |
| Store.ExamById | src/routes/exams.ts:100 | an exam is found exactly when a row has that id, and it is such a row |
| Store.FindSession | src/routes/exams.ts:183-192 | a session of the pair with the given `completed` flag is found exactly when one exists |
| Store.FindPairSession | src/routes/admin.ts:310-322 | a session of the (exam, user) pair is found exactly when one exists, completed or not |
| Store.QuestionsOfExam | src/routes/admin.ts:244-245 | exactly the questions whose exam id matches |
| Store.OptionsOfQuestions | src/routes/admin.ts:184-186 | exactly the options whose question id is in the list |
| Store.SessionsOfExam | src/routes/admin.ts:230-241 | exactly the sessions of the exam |
| Store.CompletedSessionsOfUser | src/routes/exams.ts:42-55 | exactly the user's completed sessions |
| Store.AnswersOfSession | src/routes/admin.ts:258-259 | exactly the answers of the session |
| Store.QuestionById | src/routes/admin.ts:264 | `examQuestions.find` by id: found exactly when a question has that id |
| Store.OptionById | src/routes/admin.ts:269-272 | found exactly when an option has that id |
| Store.UserById | src/routes/admin.ts:240 | the joined user is found exactly when a user row has that id |
| Store.FirstAnswerFor | src/routes/exams.ts:342 | `answers.find` by question id: found exactly when some answer is to that question |
| Store.SessionIds | src/routes/admin.ts:430 | the ids of the sessions, one per session |
| Store.QuestionIds | src/routes/admin.ts:184 | the ids of the questions, one per question |
| Store.EmailsOf | src/routes/admin.ts:537-538 | exactly the registered emails |
| Store.ExamsExcept | src/routes/admin.ts:459 | the delete keeps exactly the exams with another id |
| Store.QuestionsNotOfExam | src/routes/admin.ts:454-455 | the delete keeps exactly the questions of other exams |
| Store.OptionsNotOfQuestions | src/routes/admin.ts:450-451 | the delete keeps exactly the options of questions outside the list |
| Store.SessionsNotOfExam | src/routes/admin.ts:437-438 | the delete keeps exactly the sessions of other exams |
| Store.AnswersNotOfSessions | src/routes/admin.ts:433-434 | the delete keeps exactly the answers of sessions outside the list |
| Store.CompleteSession | src/routes/exams.ts:284-289 | the session with that id becomes completed with end time `now`; every other row is unchanged |
| Store.SetCorrectOption | src/routes/admin.ts:143-145 | the question with that id gets the correct option; every other row is unchanged |
| Store.SetCorrectOptionOfLast | src/routes/admin.ts:141-146 | updating the question just inserted changes that row only |
| Store.AnswerRows | src/routes/exams.ts:275-281 | one answer row per input, in input order, each tagged with the session's id |
| Store.UserRows | src/routes/admin.ts:573-580 | one user row per accepted entry, in order, with fresh ids |
| Store.AddUsersKeepsValid | dist/db/schema.js:4-10 | users with distinct, unregistered emails and fresh ids keep the unique constraint and the primary keys |
| Store.ExamQuestionsDistinct | dist/db/schema.js:13 | the questions of one exam have distinct ids |
| Store.Database.constructor | dist/db/schema.js:4-60 | an empty database satisfies the invariant |
| Store.Database.InsertExam | src/routes/admin.ts:115-121 | appends one exam row with a fresh id and keeps the invariant |
| Store.Database.InsertQuestion | src/routes/admin.ts:125-128 | appends one question row with a fresh id and a null correct option |
| Store.Database.InsertOption | src/routes/admin.ts:132-135 | appends one option row with a fresh id |
| Store.Database.UpdateCorrectOption | src/routes/admin.ts:143-145 | sets the question's correct option, nothing else |
| Store.Database.InsertSession | src/routes/exams.ts:225-231 | appends one session with start time `now`, `completed` false and a null end time |
| Store.Database.UpdateCompleteSession | src/routes/exams.ts:284-289 | the session table becomes `CompleteSession` of the old one |
| Store.Database.InsertAnswers | src/routes/exams.ts:281 | appends `AnswerRows` and keeps the invariant |
| Store.Database.InsertUsers | src/routes/admin.ts:573-580 | appends `UserRows` for users with distinct new emails and keeps the invariant |
| Store.Database.DeleteAnswersOfSessions | src/routes/admin.ts:433-434 | the answer table becomes `AnswersNotOfSessions` of the old one |
| Store.Database.DeleteSessionsOfExam | src/routes/admin.ts:437-438 | the session table becomes `SessionsNotOfExam` of the old one |
| Store.Database.DeleteOptionsOfQuestions | src/routes/admin.ts:450-451 | the option table becomes `OptionsNotOfQuestions` of the old one |
| Store.Database.DeleteQuestionsOfExam | src/routes/admin.ts:454-455 | the question table becomes `QuestionsNotOfExam` of the old one |
| Store.Database.DeleteExamRows | src/routes/admin.ts:459-461 | removes the exam's row; the returned list is empty exactly when no such exam existed |
| Store.Database.Restore | src/routes/admin.ts:461-465 | the rollback: every table is back to the given snapshot |
| ExamRows.OptionRows | src/routes/admin.ts:130-138 | one option row per input option, in input order, with consecutive ids, all under the question |
| ExamRows.CorrectOptionIsFirstFlagged | src/routes/admin.ts:141-146 | the correct option is set exactly when some option is flagged; it is the first flagged, among the question's options |
| ExamRows.QuestionRowCorrect | src/routes/admin.ts:140-146 | a question row's correct option is set exactly when `findIndex` finds a flag, to the option id at that position |
| ExamRows.Build | src/routes/admin.ts:124-147 | the rows of the first `n` questions; the next fresh id is after all of them |
| ExamRows.BuildQuestionAt | src/routes/admin.ts:125-128 | question `i` takes the id after the rows of the questions before it |
| ExamRows.BuildOptionAt | src/routes/admin.ts:130-138 | option `k` of question `i` lands right after the earlier rows, with the next id, under question `i` |
| ExamRows.BuildCorrectOption | src/routes/admin.ts:130-146 | question `i`'s correct option is set exactly when one of its options is flagged; it is then its own option created at the first flagged position, with that option's text |
| ExamRows.BuildQuestionsOfExam | src/routes/admin.ts:125-128 | every created question carries the new exam's id |
| ExamRows.BuildOptionsOwned | src/routes/admin.ts:132-135 | every created option belongs to a created question |
| ExamRows.BuildKeys | dist/db/schema.js:13-21 | the created rows have distinct ids, from the first fresh id up to the next |
| ExamRows.BuildKeepsValid | src/routes/admin.ts:124-147 | appending the created rows keeps the tables valid |
| Authoring.InsertOptions | src/routes/admin.ts:130-138 | inserts the options in input order: exactly `OptionRows` |
| Authoring.CreateQuestion | src/routes/admin.ts:125-146 | one loop turn appends exactly the question row (with its backfilled correct option) and its option rows |
| Authoring.CreateQuestions | src/routes/admin.ts:124-147 | the loop appends exactly the rows `Build` describes and keeps the invariant |
| Authoring.CreateExam | src/routes/admin.ts:100-154 | incomplete input is `VALIDATION_ERROR` with nothing written; otherwise the exam row followed by all question and option rows, and the exam is returned |
| Authoring.AdminExamDetail | src/routes/admin.ts:167-213 | `NOT_FOUND` exactly when the exam is absent; otherwise every question of the exam with its own options, each flagged correct iff its id is the question's correct option |
| Authoring.AtMostOneFlagged | src/routes/admin.ts:197-205 | in each group of the admin detail, at most one option is flagged correct |
| Grouping.Views | src/routes/admin.ts:200-204 | one view per option, in order |
| Grouping.Grouped | src/routes/admin.ts:188-211 | every question in order, each with the views of its own options in fetched order |
| Grouping.SeedGroups | src/routes/admin.ts:189-195 | the first `forEach` enters every question with an empty option list |
| Grouping.PushOptionHit | src/routes/admin.ts:198-204 | pushing an option of a known question extends that question's list only |
| Grouping.PushOptionMiss | src/routes/admin.ts:198-199 | an option of no known question is dropped |
| Grouping.GroupOptions | src/routes/admin.ts:188-206 | the two loops over the `Map` compute exactly `Grouped` |
| Grouping.GroupedOverFetched | src/routes/admin.ts:181-186 | grouping the options fetched with `in (question ids)` equals grouping the whole option table |
| Scoring.Percent | src/routes/exams.ts:350 | `(correct / total) * 100`: finite iff total > 0, NaN iff 0/0, Infinity otherwise |
| Scoring.GuardedPercent | src/routes/admin.ts:393 | 0 for no questions, otherwise the percentage |
| Scoring.PercentBounds | src/routes/exams.ts:350 | a count within the total gives a score between 0 and 100 |
| Scoring.CorrectByQuestion | src/routes/exams.ts:340-346 | the number of questions whose first answer selects the correct option; at most the number of questions |
| Scoring.CountCorrectByQuestion | src/routes/exams.ts:340-346 | the `forEach` loop computes `CorrectByQuestion` |
| Scoring.UnkeyedNeverCorrect | src/routes/exams.ts:343 | a question with a null correct option is never counted |
| Scoring.LaterAnswersIgnored | src/routes/exams.ts:342 | extra answers to questions already answered, or to questions outside the exam, never change the count |
| Scoring.CorrectByAnswer | src/routes/admin.ts:261-266 | the number of submitted answers whose question is in the exam with that correct option; at most the number of answers |
| Scoring.CountCorrectByAnswer | src/routes/admin.ts:262-281 | the `map` loop computes `CorrectByAnswer` and one detail per answer, in order |
| Scoring.NoAnswersNoneCorrect | src/routes/exams.ts:340-346 | with no answers nothing is correct |
| Scoring.FreshAnswerDecides | src/routes/exams.ts:342-345 | a first answer to a question decides that question and leaves others as they were |
| Scoring.LastQuestionJudges | src/routes/admin.ts:264-265 | an answer is judged by the question with its id |
| Scoring.FreshAnswerAddsItsOwnCount | src/routes/exams.ts:340-346 | a first answer to a question adds exactly its own correctness to the per-question count |
| Scoring.CountsAgreeOnSingleAnswers | src/routes/admin.ts:261-266 | with distinct questions answered at most once each, the per-answer count equals the per-question count |
| Scoring.DuplicateAnswerCountsTwice | src/routes/admin.ts:261-285 | one question answered correctly twice: the admin count is 2 (score 200), the self-service count 1 (score 100) |
| Scoring.ThreeOfFourIsSeventyFive | src/routes/exams.ts:340-350 | four questions, three answered correctly, score exactly 75 |
| ExamRoutes.OpenExams | src/routes/exams.ts:17-24 | exactly the exams with `startTime < now < endTime`, in table order |
| ExamRoutes.ExamDetail | src/routes/exams.ts:97-142 | `NOT_FOUND` exactly when the exam is absent; otherwise every question with its own options as id and text, in fetched order |
| ExamRoutes.DetailRevealsAnswerKey | src/routes/exams.ts:119-124 | the question records are spread whole, so the detail exposes `correctOptionId` |
| ExamRoutes.Redact | src/routes/exams.ts:119-124 | a redacted question has no correct option and otherwise equals the original |
| ExamRoutes.Redacted | src/routes/exams.ts:119-124 | each question redacted, in order |
| ExamRoutes.RedactedHidesAnswerKey | src/routes/exams.ts:119-135 | question lists that differ only in correct options give the same redacted detail |
| ExamRoutes.RedactedKeepsOptions | src/routes/exams.ts:126-135 | the redacted detail has the same options under each question as the handler's |
| ExamRoutes.RedactedExamDetail | src/routes/exams.ts:97-142 | the detail as intended: the same lookups, with every question redacted |
| ExamRoutes.StartGuard | src/routes/exams.ts:161-222 | the guards in order: `NOT_FOUND`, then `INVALID_TIME` outside the closed window, then `EXAM_ALREADY_TAKEN`, then `SESSION_EXISTS`; none fails exactly when the exam exists, `now` is in the window and the pair has no session |
| ExamRoutes.Start | src/routes/exams.ts:155-233 | fails with the first failing guard and writes nothing; otherwise appends exactly one new active session of the pair with start time `now` |
| ExamRoutes.Submit | src/routes/exams.ts:246-293 | no active session is `SESSION_NOT_FOUND` with nothing written; a refused insert is `SERVER_ERROR` with the session still active; otherwise the answers are appended in input order and the session is completed at `now` |
| ExamRoutes.ExamResults | src/routes/exams.ts:306-355 | `RESULTS_NOT_FOUND` exactly when there is no completed session; otherwise the per-question count, its percentage, the total and `incorrect = total - correct` with `0 <= correct <= total` |
| ExamRoutes.JoinedQuestions | src/routes/exams.ts:59-61 | no questions for a null joined exam id, otherwise the exam's questions |
| ExamRoutes.ScoreOfSession | src/routes/exams.ts:58-80 | the joined exam's id and title, its question count and the per-question score; all null or empty when no exam row joins |
| ExamRoutes.ScoreSession | src/routes/exams.ts:58-80 | the callback computes `ScoreOfSession` |
| ExamRoutes.AllResults | src/routes/exams.ts:37-84 | one score row per completed session of the user, in table order |
| Lifecycle.StartKeepsOneSessionPerPair | src/routes/exams.ts:183-231 | a successful start adds no second session for a pair |
| Lifecycle.CompleteKeepsOneSessionPerPair | src/routes/exams.ts:284-289 | completing a session changes no pair |
| Lifecycle.StepKeepsOneSessionPerPair | src/routes/exams.ts:155-289 | every `start`/`submit` call keeps at most one session per pair |
| Lifecycle.RunKeepsOneSessionPerPair | src/routes/exams.ts:155-289 | any sequence of calls keeps at most one session per pair |
| Lifecycle.NeverTwoSessions | src/routes/exams.ts:155-289 | from an empty table, no pair ever gets a second session |
| Lifecycle.StartSucceedsIff | src/routes/exams.ts:162-222 | `start` succeeds exactly for a pair with no session, in the closed window of an existing exam |
| Lifecycle.SecondStartRefused | src/routes/exams.ts:204-222 | after a successful start, another start in the window is `SESSION_EXISTS` |
| Lifecycle.SubmitCompletes | src/routes/exams.ts:254-289 | after a submit the pair is completed and no active session is left |
| Lifecycle.CompletedIsFinal | src/routes/exams.ts:183-201 | once completed, a start in the window is `EXAM_ALREADY_TAKEN` |
| Lifecycle.CompletePreservesCompleted | src/routes/exams.ts:284-289 | completing a session keeps every completed session completed |
| Lifecycle.AppendNeverGoesBack | src/routes/exams.ts:225-231 | inserting a session moves no pair's state back |
| Lifecycle.CompleteNeverGoesBack | src/routes/exams.ts:284-289 | completing a session moves no pair's state back |
| Lifecycle.StepNeverGoesBack | src/routes/exams.ts:155-289 | every call moves each pair forward (none, active, completed) or leaves it |
| Lifecycle.WindowEndsStartableButUnlisted | src/routes/exams.ts:173 | at both ends of its window an exam can be started but is not listed |
| AdminResults.JoinUser | src/routes/admin.ts:230-241 | the left join: the user's columns when a user row matches, all null otherwise |
| AdminResults.OptionText | src/routes/admin.ts:269-277 | the text of the option with that id, null when none exists |
| AdminResults.Summary | src/routes/admin.ts:263-279 | an answer is correct only when a question of the exam has it as correct option; one outside the exam is incorrect |
| AdminResults.Summaries | src/routes/admin.ts:262-281 | one summary per answer, in order |
| AdminResults.ResultOf | src/routes/admin.ts:249-288 | an uncompleted session has a null score and no answers; a completed one is scored by the per-answer count, unguarded, with one summary per answer |
| AdminResults.SessionRow | src/routes/admin.ts:248-289 | the callback computes `ResultOf` |
| AdminResults.ExamResults | src/routes/admin.ts:226-292 | one row per session of the exam, in table order |
| AdminResults.NoQuestionsNoneCorrect | src/routes/admin.ts:264-266 | over no questions no answer counts |
| AdminResults.NoQuestionsScoreNaN | src/routes/admin.ts:285 | a completed session of an exam with no questions scores NaN, never Infinity |
| AdminResults.IntendedScore | src/routes/admin.ts:261-285 | the intended score: over the questions, at most 100, NaN with no questions |
| AdminResults.HandlerScoreIsIntendedOnSingleAnswers | src/routes/admin.ts:261-285 | with distinct questions answered at most once, the handler's score is the intended one |
| AdminResults.Review | src/routes/admin.ts:356-389 | correctness by question lookup; the correct option text is the correct option's text, or null when the question has none |
| AdminResults.Reviews | src/routes/admin.ts:355-391 | one review per answer, in order |
| AdminResults.StudentResultOf | src/routes/admin.ts:333-403 | an uncompleted session has null score and total and the message; a completed one has the guarded score, the total, the count and one review per answer |
| AdminResults.StudentRow | src/routes/admin.ts:333-403 | the handler after the session lookup computes `StudentResultOf` |
| AdminResults.StudentExamResult | src/routes/admin.ts:305-403 | `NOT_FOUND` exactly when the pair has no session; otherwise the result of its first session |
| AdminResults.StudentScoreBounded | src/routes/admin.ts:393 | with distinct questions answered at most once, the student's count is within the total and the score between 0 and 100 |
| Cascade.CascadeDelete | src/routes/admin.ts:423-466 | exactly the rows not hanging off the exam remain: other exams, their questions and sessions, options of other questions, answers of other sessions; users untouched |
| Cascade.NoSessionsNothingToDelete | src/routes/admin.ts:429-439 | with no sessions, skipping the guarded deletes changes nothing |
| Cascade.NoQuestionsNothingToDelete | src/routes/admin.ts:446-456 | with no questions, skipping the guarded deletes changes nothing |
| Cascade.DeleteSessions | src/routes/admin.ts:425-439 | steps 1 to 3 remove the exam's sessions and their answers |
| Cascade.DeleteQuestions | src/routes/admin.ts:442-456 | steps 4 to 6 remove the exam's questions and their options |
| Cascade.DeleteExam | src/routes/admin.ts:418-483 | an absent exam is `NOT_FOUND` with every table unchanged; a present one leaves exactly `CascadeDelete` |
| Cascade.CascadeKeepsValid | src/routes/admin.ts:423-466 | the cascade keeps primary keys and unique emails |
| Cascade.CascadeIdempotent | src/routes/admin.ts:459-464 | a second delete of the same exam removes nothing more |
| Cascade.CascadeKeepsOtherExams | src/routes/admin.ts:423-466 | another exam, its questions and sessions, and the options and answers of rows not deleted are unchanged, in order |
| Cascade.ExamsExceptKeepsOther | src/routes/admin.ts:459 | deleting one exam does not change the lookup of another |
| Cascade.CascadeKeepsExamReferences | src/routes/admin.ts:423-466 | kept questions, options and sessions still name existing rows |
| Cascade.CascadeKeepsAnswerSessions | src/routes/admin.ts:433-438 | kept answers still name existing sessions |
| Cascade.CascadeKeepsAnswerQuestions | src/routes/admin.ts:450-455 | when answers name questions of their own exam, kept answers still name existing questions |
| Cascade.CascadeKeepsAnswerOptions | src/routes/admin.ts:450-451 | when answers name options of their own exam, kept answers still name existing options |
| Cascade.CascadeKeepsReferences | src/routes/admin.ts:423-466 | when answers stay within their exam, no foreign key dangles after the cascade |
| Cascade.CrossExamAnswerDangles | src/routes/admin.ts:454-455 | an answer naming another exam's question is left dangling by the cascade |
| BulkUsers.Partition | src/routes/admin.ts:540-567 | every entry is created or skipped; the registered emails stay seen |
| BulkUsers.PartitionSeen | src/routes/admin.ts:538-566 | the emails seen are the registered ones plus those of complete entries |
| BulkUsers.AcceptedIffFirstNew | src/routes/admin.ts:544-566 | an entry is accepted exactly when it is complete, unregistered and the first complete entry with its email |
| BulkUsers.PartitionIsCreatedAndSkips | src/routes/admin.ts:540-567 | the loop yields exactly the first-new entries as users and the rest as skipped, each with its reason, in input order |
| BulkUsers.PartitionFresh | src/routes/admin.ts:550-566 | the users to insert have pairwise distinct emails, none registered |
| BulkUsers.Publics | src/routes/admin.ts:574-579 | the created users as returned, without passwords |
| BulkUsers.Decimal | src/routes/admin.ts:603 | a nonempty string of decimal digits |
| BulkUsers.DecimalRoundTrip | src/routes/admin.ts:603 | the count in the message reads back as the count |
| BulkUsers.BulkCreate | src/routes/admin.ts:518-607 | a missing or empty array is `VALIDATION_ERROR` with nothing written; otherwise exactly the accepted users are inserted and the report lists them, the skipped entries and both counts |
| BulkUsers.CreatedAndSkippedCoverInput | src/routes/admin.ts:540-567 | created plus skipped is the number of entries |
| SampleExam.SampleExamRow | dist/routes/admin.js:43-49 | the sample exam starts now and ends 604800000 ms later |
| SampleExam.Attempted | dist/routes/admin.js:51-70 | the loop builds at most every question |
| SampleExam.SampleQuestion | dist/routes/admin.js:53-69 | one loop turn appends the question row and its option rows; it fails exactly when no option is flagged |
| SampleExam.SampleLoop | dist/routes/admin.js:51-70 | the loop builds questions in order and stops after the first unflagged one |
| SampleExam.StopPosition | dist/routes/admin.js:66 | where the loop stops is the first question without a flagged option |
| SampleExam.SampleQuestions | dist/routes/admin.js:51-70 | success exactly when every question has a flagged option; the rows are those of the general construction up to where it stopped, and the invariant holds |
| SampleExam.CreateFromQuiz | dist/routes/admin.js:40-90 | the exam row, then the question rows; `SERVER_ERROR` with the partial rows left when a question has no flagged option |
| SampleExam.SampleQuizShape | dist/routes/admin.js:6-39 | three questions, each with four options of which exactly one is flagged, at positions 1, 1 and 3 |
| SampleExam.SampleQuizFlagged | dist/routes/admin.js:6-39 | no sample question lacks a flagged option, so all three are built |
| SampleExam.CreateSampleExam | dist/routes/admin.js:40-81 | the sample always succeeds with its exam row and the rows of its questions, and reports the exam's id, title, description and duration |
| SampleExam.SampleCorrectOptions | dist/routes/admin.js:58-69 | each sample question's correct option is its own option created at the flagged position, with the flagged text |
| SampleExam.FourOptionsBefore | dist/routes/admin.js:58-64 | with four options per question, four option rows per earlier question come before question `i` |
| SampleExam.FlaggedOptionLands | dist/routes/admin.js:58-69 | with four options per question, question `i`'s correct option is created option `4 * i + k`, `k` its first flagged position, an option of that question with the flagged text |

## Left out

- HTTP routing, request parsing, JSON envelopes and status codes. Only the error codes remain, as `Api.ErrorCode`.
- Authentication: the admin login route (src/routes/admin.ts:15-80) and the token middleware. They wrap bcrypt and JSON web tokens. The authenticated user's id is a parameter.
- Password hashing (bcrypt): the parameter `hash`.
- The welcome e-mails sent after bulk creation (src/routes/admin.ts:583-598). This is fire-and-forget I/O and affects neither the tables nor the response.
- `GET /exams` for administrators (src/routes/admin.ts:84-97) and `GET /users` (src/routes/admin.ts:495-514). These are plain selects without logic.
- The ORM. Queries are filters over the tables, and a row's position in its `seq` stands for table order.
  - The model does not decide whether an empty multi-row insert (`values([])` in `submit`) is accepted. `ExamRoutes.Submit: the database's acceptance of the answer insert, including an empty or dangling one, is the parameter insertAccepted.`
- The database's foreign-key checks. `Store.Database.Valid` covers primary keys and unique emails only. A delete the database would refuse, such as one leaving an answer of another exam dangling (`Cascade.CrossExamAnswerDangles`), is not modelled as refused. `Cascade.CascadeKeepsReferences` gives the condition under which no reference dangles.
- Errors the database raises unexpectedly. Every handler's generic `SERVER_ERROR` path is left out, except for `submit`'s answer insert and the sample exam's missing flag.
- `Promise.all` is taken as a sequential fold:
  - options are created in input order;
  - the admin counters increment answer by answer.
  - Concurrent requests, including two `start` calls racing past the session checks, are not modelled.
- Random uuids are modelled as a counter. Option ids increase with input order, which the uuids do not; only the pairing between input options and created rows matters to the code.
- Time is the parameter `now`. The timestamp columns `createdAt` take `now` too.
- JavaScript numbers: a percentage is a `real`, NaN or Infinity rather than a float, and no rounding is modelled.
- `dist/scripts/init-data.js` repeats the sample exam construction for the command line, and is not part of this model.

## Findings

| source | as written | input that shows it | evidently intended | confidence | as-written member | corrected member |
|---|---|---|---|---|---|---|
| src/routes/exams.ts:119-124 | the student's exam detail spreads each question record whole, so it carries `correctOptionId` | a question with correct option 2: its group in the detail carries 2, and changing the key to 3 changes the view | the detail shows options by id and text and never reveals which is correct | not executed | ExamRoutes.DetailRevealsAnswerKey | ExamRoutes.RedactedExamDetail |
| src/routes/admin.ts:261-285 | the admin all-results score counts submitted answers, so a question answered twice counts twice | one question, two correct answers to it: correct count 2, score 200 | a score out of 100, each question counted once | not executed | Scoring.DuplicateAnswerCountsTwice | AdminResults.IntendedScore |
