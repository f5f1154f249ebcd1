/**
 * The two administrator results handlers: `GET /exams/:examId/results`, one
 * row per session of the exam, and `GET /exams/:examId/results/:userId`, the
 * reviewed answers of one student. Both count correct answers over the
 * submitted answers (`Scoring.CorrectByAnswer`), and both attach the user
 * columns with a left join.
 */
module AdminResults {
  import opened Schema
  import opened Api
  import opened Tables
  import opened Store
  import opened Scoring

  // ----- The joined session row -----

  /**
   * A session with the user columns of `left join users on users.id =
   * exam_sessions.user_id`; `userId` is `users.id`, so it is null, like the
   * email and the username, when no user row joins.
   */
  datatype SessionInfo = SessionInfo(
    sessionId: Id, startTime: Time, endTime: Option<Time>, completed: bool,
    userId: Option<Id>, userEmail: Option<string>, username: Option<string>)

  function JoinUser(users: seq<User>, s: ExamSession): (r: SessionInfo)
    ensures r.sessionId == s.id && r.startTime == s.startTime && r.endTime == s.endTime && r.completed == s.completed
    ensures r.userId.Some? <==> exists u :: u in users && u.id == s.userId
    ensures r.userId.Some? ==>
      && r.userId.value == s.userId
      && exists u :: u in users && u.id == s.userId && r.userEmail == Some(u.email) && r.username == Some(u.username)
    ensures r.userId.None? ==> r.userEmail.None? && r.username.None?
  {
    var u := UserById(users, s.userId);
    if u.None? then SessionInfo(s.id, s.startTime, s.endTime, s.completed, None, None, None)
    else SessionInfo(s.id, s.startTime, s.endTime, s.completed, Some(u.value.id), Some(u.value.email), Some(u.value.username))
  }

  /** `selectedOption?.text` after `select ... where id = ... limit 1`. */
  function OptionText(options: seq<QuestionOption>, id: Id): (r: Option<string>)
    ensures r.Some? <==> exists o :: o in options && o.id == id
    ensures r.Some? ==> exists o :: o in options && o.id == id && o.text == r.value
  {
    var o := OptionById(options, id);
    if o.None? then None else Some(o.value.text)
  }

  // ----- GET /exams/:examId/results -----

  /** One entry of a session's `answers`. */
  datatype AnswerSummary = AnswerSummary(questionId: Id, selectedOptionId: Id, selectedOptionText: Option<string>, isCorrect: bool)

  /** The summary of one answer: an answer to a question outside the exam is incorrect. */
  function Summary(questions: seq<Question>, options: seq<QuestionOption>, a: ExamAnswer): (r: AnswerSummary)
    ensures r.questionId == a.questionId && r.selectedOptionId == a.selectedOptionId
    ensures r.selectedOptionText == OptionText(options, a.selectedOptionId)
    ensures r.isCorrect ==> exists q :: q in questions && q.id == a.questionId && q.correctOptionId == Some(a.selectedOptionId)
    ensures (forall q :: q in questions ==> q.id != a.questionId) ==> !r.isCorrect
  {
    AnswerSummary(a.questionId, a.selectedOptionId, OptionText(options, a.selectedOptionId), IsCorrectAnswer(questions, a))
  }

  function Summaries(questions: seq<Question>, options: seq<QuestionOption>, answers: seq<ExamAnswer>): (r: seq<AnswerSummary>)
    ensures |r| == |answers|
    ensures forall i :: 0 <= i < |answers| ==> r[i] == Summary(questions, options, answers[i])
  {
    seq(|answers|, i requires 0 <= i < |answers| => Summary(questions, options, answers[i]))
  }

  /** One row of the exam's results; `score` is null for a session not completed. */
  datatype SessionResult = SessionResult(session: SessionInfo, score: Option<Percentage>, totalQuestions: nat, answers: seq<AnswerSummary>)

  /**
   * The row of one session. An uncompleted session has no score and no
   * answers; a completed one is scored over its submitted answers, divided by
   * the number of the exam's questions with no guard against zero.
   */
  function ResultOf(users: seq<User>, options: seq<QuestionOption>, answers: seq<ExamAnswer>,
                    examQuestions: seq<Question>, s: ExamSession): (r: SessionResult)
    ensures r.session == JoinUser(users, s) && r.totalQuestions == |examQuestions|
    ensures !s.completed ==> r.score.None? && r.answers == []
    ensures s.completed ==>
      var own := AnswersOfSession(answers, s.id);
      && r.score == Some(Percent(CorrectByAnswer(examQuestions, own), |examQuestions|))
      && |r.answers| == |own|
      && forall i :: 0 <= i < |own| ==> r.answers[i] == Summary(examQuestions, options, own[i])
  {
    var info := JoinUser(users, s);
    if !s.completed then SessionResult(info, None, |examQuestions|, [])
    else
      var own := AnswersOfSession(answers, s.id);
      SessionResult(info, Some(Percent(CorrectByAnswer(examQuestions, own), |examQuestions|)), |examQuestions|,
                    Summaries(examQuestions, options, own))
  }

  /** The body of the `map` callback over the sessions. */
  method SessionRow(db: Database, examQuestions: seq<Question>, s: ExamSession) returns (r: SessionResult)
    ensures r == ResultOf(db.users, db.options, db.answers, examQuestions, s)
  {
    var info := JoinUser(db.users, s);
    if !s.completed {
      return SessionResult(info, None, |examQuestions|, []);
    }
    var answers := AnswersOfSession(db.answers, s.id);
    var options := db.options;
    var correctAnswers, details := CountCorrectByAnswer(examQuestions, answers, (a: ExamAnswer) => Summary(examQuestions, options, a));
    assert details == Summaries(examQuestions, options, answers);
    r := SessionResult(info, Some(Percent(correctAnswers, |examQuestions|)), |examQuestions|, details);
  }

  /** `GET /exams/:examId/results`: one row per session of the exam, in table order; an unknown exam has none. */
  method ExamResults(db: Database, examId: Id) returns (results: seq<SessionResult>)
    ensures var sessions := SessionsOfExam(db.sessions, examId);
      && |results| == |sessions|
      && forall i :: 0 <= i < |sessions| ==>
           results[i] == ResultOf(db.users, db.options, db.answers, QuestionsOfExam(db.questions, examId), sessions[i])
  {
    var sessions := SessionsOfExam(db.sessions, examId);
    var examQuestions := QuestionsOfExam(db.questions, examId);
    var users, options, answers := db.users, db.options, db.answers;
    results := [];
    for i := 0 to |sessions|
      invariant |results| == i
      invariant forall k :: 0 <= k < i ==> results[k] == ResultOf(users, options, answers, examQuestions, sessions[k])
    {
      var row := SessionRow(db, examQuestions, sessions[i]);
      results := results + [row];
    }
  }

  /** Over no questions no answer is correct. */
  lemma {:induction false} NoQuestionsNoneCorrect(answers: seq<ExamAnswer>)
    ensures CorrectByAnswer([], answers) == 0
    decreases |answers|
  {
    if answers != [] {
      NoQuestionsNoneCorrect(answers[..|answers| - 1]);
    }
  }

  /**
   * A completed session of an exam with no questions scores 0/0, which is
   * NaN, never Infinity: with no questions no answer counts.
   */
  lemma NoQuestionsScoreNaN(users: seq<User>, options: seq<QuestionOption>, answers: seq<ExamAnswer>, s: ExamSession)
    requires s.completed
    ensures ResultOf(users, options, answers, [], s).score == Some(NaN)
  {
    NoQuestionsNoneCorrect(AnswersOfSession(answers, s.id));
  }

  /**
   * The score as evidently intended: over the exam's questions, each decided
   * by its first answer. It never exceeds 100, and it agrees with the handler's
   * count whenever no question is answered twice.
   */
  function IntendedScore(examQuestions: seq<Question>, own: seq<ExamAnswer>): (p: Percentage)
    ensures |examQuestions| > 0 ==> p.Finite? && 0.0 <= p.value <= 100.0
    ensures |examQuestions| == 0 ==> p.NaN?
  {
    var correct := CorrectByQuestion(examQuestions, own);
    if |examQuestions| > 0 then PercentBounds(correct, |examQuestions|); Percent(correct, |examQuestions|)
    else Percent(correct, 0)
  }

  /** With distinct questions and at most one answer each, the handler's score is the intended one. */
  lemma HandlerScoreIsIntendedOnSingleAnswers(users: seq<User>, options: seq<QuestionOption>, answers: seq<ExamAnswer>,
                                              examQuestions: seq<Question>, s: ExamSession)
    requires s.completed
    requires DistinctQuestionIds(examQuestions)
    requires OneAnswerPerQuestion(AnswersOfSession(answers, s.id))
    ensures ResultOf(users, options, answers, examQuestions, s).score == Some(IntendedScore(examQuestions, AnswersOfSession(answers, s.id)))
  {
    CountsAgreeOnSingleAnswers(examQuestions, AnswersOfSession(answers, s.id));
  }

  // ----- GET /exams/:examId/results/:userId -----

  /** One reviewed answer: the question's text and correct option, when the question is in the exam. */
  datatype AnswerReview = AnswerReview(
    questionId: Id, questionText: Option<string>, selectedOptionId: Id, selectedOptionText: Option<string>,
    correctOptionId: Option<Id>, correctOptionText: Option<string>, isCorrect: bool)

  /**
   * The review of one answer. `correctOptionText` is the selected option's
   * text when the answer is correct and otherwise the text of the question's
   * correct option, fetched only when that option is set; so in both cases it
   * is the text of the correct option, or null when the question has none.
   */
  function Review(questions: seq<Question>, options: seq<QuestionOption>, a: ExamAnswer): (r: AnswerReview)
    ensures r.questionId == a.questionId && r.selectedOptionId == a.selectedOptionId
    ensures r.selectedOptionText == OptionText(options, a.selectedOptionId)
    ensures r.isCorrect == IsCorrectAnswer(questions, a)
    ensures r.questionText.Some? <==> exists q :: q in questions && q.id == a.questionId
    ensures r.correctOptionId.Some? ==> exists q :: q in questions && q.id == a.questionId && q.correctOptionId == r.correctOptionId
    ensures r.isCorrect ==> r.correctOptionId == Some(a.selectedOptionId)
    ensures r.correctOptionId.Some? ==> r.correctOptionText == OptionText(options, r.correctOptionId.value)
    ensures r.correctOptionId.None? ==> r.correctOptionText.None? && !r.isCorrect
  {
    var question := QuestionById(questions, a.questionId);
    var correctId := if question.Some? then question.value.correctOptionId else None;
    var isCorrect := IsCorrectAnswer(questions, a);
    var selectedText := OptionText(options, a.selectedOptionId);
    var correctText := if correctId.Some? && !isCorrect then OptionText(options, correctId.value) else None;
    AnswerReview(
      a.questionId, if question.Some? then Some(question.value.text) else None,
      a.selectedOptionId, selectedText, correctId, if isCorrect then selectedText else correctText, isCorrect)
  }

  function Reviews(questions: seq<Question>, options: seq<QuestionOption>, answers: seq<ExamAnswer>): (r: seq<AnswerReview>)
    ensures |r| == |answers|
    ensures forall i :: 0 <= i < |answers| ==> r[i] == Review(questions, options, answers[i])
  {
    seq(|answers|, i requires 0 <= i < |answers| => Review(questions, options, answers[i]))
  }

  const NotCompletedMessage := "Exam session not completed."

  /**
   * The student's result. For a session not completed, score and total are
   * null and a message says so; otherwise the score is guarded against an exam
   * with no questions and the count of correct answers is reported.
   */
  datatype StudentResult = StudentResult(
    session: SessionInfo, score: Option<real>, totalQuestions: Option<nat>, correctAnswers: Option<nat>,
    answers: seq<AnswerReview>, message: Option<string>)

  function StudentResultOf(users: seq<User>, options: seq<QuestionOption>, answers: seq<ExamAnswer>,
                           examQuestions: seq<Question>, s: ExamSession): (r: StudentResult)
    ensures r.session == JoinUser(users, s)
    ensures !s.completed ==>
      r.score.None? && r.totalQuestions.None? && r.correctAnswers.None? && r.answers == [] && r.message == Some(NotCompletedMessage)
    ensures s.completed ==>
      var own := AnswersOfSession(answers, s.id);
      var correct := CorrectByAnswer(examQuestions, own);
      && r.score == Some(GuardedPercent(correct, |examQuestions|))
      && r.totalQuestions == Some(|examQuestions|) && r.correctAnswers == Some(correct) && r.message.None?
      && |r.answers| == |own|
      && forall i :: 0 <= i < |own| ==> r.answers[i] == Review(examQuestions, options, own[i])
  {
    var info := JoinUser(users, s);
    if !s.completed then StudentResult(info, None, None, None, [], Some(NotCompletedMessage))
    else
      var own := AnswersOfSession(answers, s.id);
      var correct := CorrectByAnswer(examQuestions, own);
      StudentResult(info, Some(GuardedPercent(correct, |examQuestions|)), Some(|examQuestions|), Some(correct),
                    Reviews(examQuestions, options, own), None)
  }

  /** The handler once the session is found: only a completed session has its questions and answers fetched. */
  method StudentRow(db: Database, examId: Id, s: ExamSession) returns (r: StudentResult)
    ensures r == StudentResultOf(db.users, db.options, db.answers, QuestionsOfExam(db.questions, examId), s)
  {
    var info := JoinUser(db.users, s);
    if !s.completed {
      return StudentResult(info, None, None, None, [], Some(NotCompletedMessage));
    }
    var examQuestions := QuestionsOfExam(db.questions, examId);
    var answers := AnswersOfSession(db.answers, s.id);
    var options := db.options;
    var correctAnswers, details := CountCorrectByAnswer(examQuestions, answers, (a: ExamAnswer) => Review(examQuestions, options, a));
    assert details == Reviews(examQuestions, options, answers);
    var score := GuardedPercent(correctAnswers, |examQuestions|);
    r := StudentResult(info, Some(score), Some(|examQuestions|), Some(correctAnswers), details, None);
  }

  /** `GET /exams/:examId/results/:userId`: the first session of the pair, if any, and its reviewed answers. */
  method StudentExamResult(db: Database, examId: Id, userId: Id) returns (r: Result<StudentResult>)
    ensures r.Failure? <==> FindPairSession(db.sessions, examId, userId).None?
    ensures r.Failure? ==> r.error == NotFound
    ensures r.Success? ==>
      r.value == StudentResultOf(db.users, db.options, db.answers, QuestionsOfExam(db.questions, examId),
                                 FindPairSession(db.sessions, examId, userId).value)
  {
    var session := FindPairSession(db.sessions, examId, userId);
    if session.None? {
      return Failure(NotFound);
    }
    var row := StudentRow(db, examId, session.value);
    return Success(row);
  }

  /**
   * With distinct questions, each answered at most once, the student's score
   * lies between 0 and 100 and the count never exceeds the number of questions.
   */
  lemma StudentScoreBounded(users: seq<User>, options: seq<QuestionOption>, answers: seq<ExamAnswer>,
                            examQuestions: seq<Question>, s: ExamSession)
    requires s.completed
    requires DistinctQuestionIds(examQuestions)
    requires OneAnswerPerQuestion(AnswersOfSession(answers, s.id))
    ensures var r := StudentResultOf(users, options, answers, examQuestions, s);
      && r.correctAnswers.value <= |examQuestions|
      && 0.0 <= r.score.value <= 100.0
  {
    var own := AnswersOfSession(answers, s.id);
    CountsAgreeOnSingleAnswers(examQuestions, own);
    if |examQuestions| > 0 {
      PercentBounds(CorrectByAnswer(examQuestions, own), |examQuestions|);
    }
  }
}
