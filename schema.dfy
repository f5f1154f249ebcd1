/**
 * The six tables of the exam platform's database, one record type per row.
 * Identifiers (uuids generated by the database) are modelled as natural
 * numbers, timestamps as milliseconds since the epoch, and nullable columns
 * as `Option`.
 */
module Schema {

  /** A nullable column or an absent query result (`null` / `undefined`). */
  datatype Option<T> = None | Some(value: T)

  /** A row identifier (a uuid primary key in the database). */
  type Id = nat

  /** A point in time, in milliseconds since the epoch. */
  type Time = int

  /** Row of `users`; `email` carries a unique constraint, `password` is a hash. */
  datatype User = User(id: Id, email: string, username: string, password: string, createdAt: Time)

  /** Row of `exams`; `duration` is in minutes, [startTime, endTime] is the availability window. */
  datatype Exam = Exam(
    id: Id, title: string, description: string, duration: int,
    startTime: Time, endTime: Time, createdAt: Time)

  /** Row of `questions`; `correctOptionId` is nullable and backfilled after the options exist. */
  datatype Question = Question(id: Id, examId: Id, text: string, correctOptionId: Option<Id>, createdAt: Time)

  /** Row of `question_options`. */
  datatype QuestionOption = QuestionOption(id: Id, questionId: Id, text: string, createdAt: Time)

  /** Row of `exam_sessions`; `endTime` is nullable and `completed` defaults to false. */
  datatype ExamSession = ExamSession(
    id: Id, examId: Id, userId: Id, startTime: Time,
    endTime: Option<Time>, completed: bool, createdAt: Time)

  /** Row of `exam_answers`; `selectedOptionId` is not nullable. */
  datatype ExamAnswer = ExamAnswer(id: Id, sessionId: Id, questionId: Id, selectedOptionId: Id, createdAt: Time)

  // Primary-key projections, passed as function values to the generic table predicates.
  function UserKey(u: User): Id { u.id }
  function ExamKey(e: Exam): Id { e.id }
  function QuestionKey(q: Question): Id { q.id }
  function OptionKey(o: QuestionOption): Id { o.id }
  function SessionKey(s: ExamSession): Id { s.id }
  function AnswerKey(a: ExamAnswer): Id { a.id }
}

/** The error codes the route handlers put in their `{ error: { code } }` envelope. */
module Api {
  datatype ErrorCode =
    | NotFound            // NOT_FOUND
    | InvalidTime         // INVALID_TIME
    | ExamAlreadyTaken    // EXAM_ALREADY_TAKEN
    | SessionExists       // SESSION_EXISTS
    | SessionNotFound     // SESSION_NOT_FOUND
    | ResultsNotFound     // RESULTS_NOT_FOUND
    | ValidationError     // VALIDATION_ERROR
    | ServerError         // SERVER_ERROR

  /** What a handler answers: `{ data }` on success, `{ error }` on failure. */
  datatype Result<T> = Success(value: T) | Failure(error: ErrorCode)
}
