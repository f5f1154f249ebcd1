/**
 * The student-facing exam routes: the listing of open exams, the exam detail
 * view, starting and submitting a session, and the two self-service results
 * handlers. The authenticated user's id and the request time are inputs.
 */
module ExamRoutes {
  import opened Schema
  import opened Api
  import opened Tables
  import opened Store
  import opened Scoring
  import opened Grouping

  // ----- GET / -----

  /** An exam is listed strictly inside its window: `startTime < now` and `endTime > now`. */
  predicate IsOpen(e: Exam, now: Time) {
    e.startTime < now && now < e.endTime
  }

  /** The exams listed at time `now`, in table order. */
  function OpenExams(exams: seq<Exam>, now: Time): (r: seq<Exam>)
    ensures forall e :: e in r <==> e in exams && e.startTime < now && now < e.endTime
    ensures |r| <= |exams|
  {
    Filter(exams, (e: Exam) => IsOpen(e, now))
  }

  // ----- GET /:examId -----

  /** An option as a student sees it: id and text only. */
  datatype UserOptionView = UserOptionView(id: Id, text: string)

  function UserView(q: Question, o: QuestionOption): UserOptionView {
    UserOptionView(o.id, o.text)
  }

  /**
   * The exam and its questions, each with its own options (id and text) in
   * table order. The question records are spread whole into the response.
   */
  method ExamDetail(db: Database, examId: Id) returns (r: Result<ExamView<UserOptionView>>)
    requires db.Valid()
    ensures r.Failure? <==> ExamById(db.exams, examId).None?
    ensures r.Failure? ==> r.error == NotFound
    ensures r.Success? ==>
      r.value == ExamView(ExamById(db.exams, examId).value, Grouped(QuestionsOfExam(db.questions, examId), db.options, UserView))
  {
    var exam := ExamById(db.exams, examId);
    if exam.None? {
      return Failure(NotFound);
    }
    var examQuestions := QuestionsOfExam(db.questions, examId);
    ExamQuestionsDistinct(db.questions, examId, db.nextId);
    var questionIds := QuestionIds(examQuestions);
    var options := OptionsOfQuestions(db.options, questionIds);
    var groups := GroupOptions(examQuestions, options, UserView);
    GroupedOverFetched(examQuestions, questionIds, db.options, UserView);
    return Success(ExamView(exam.value, groups));
  }

  /**
   * As written, the detail spreads each question record whole, so a student
   * sees every question's `correctOptionId`: two exams that differ only in
   * their answer keys give detail views that differ.
   */
  lemma DetailRevealsAnswerKey()
    ensures var q := Question(1, 0, "q", Some(2), 0);
      var options := [QuestionOption(2, 1, "a", 0), QuestionOption(3, 1, "b", 0)];
      && Grouped([q], options, UserView)[0].question.correctOptionId == Some(2)
      && Grouped([q], options, UserView) != Grouped([q.(correctOptionId := Some(3))], options, UserView)
  {
    var q := Question(1, 0, "q", Some(2), 0);
    var options := [QuestionOption(2, 1, "a", 0), QuestionOption(3, 1, "b", 0)];
    assert Grouped([q.(correctOptionId := Some(3))], options, UserView)[0].question.correctOptionId == Some(3);
  }

  /** A question as a student should see it: its answer key withheld. */
  function Redact(q: Question): (r: Question)
    ensures r.correctOptionId.None?
    ensures r.(correctOptionId := q.correctOptionId) == q
  {
    q.(correctOptionId := None)
  }

  function Redacted(questions: seq<Question>): (r: seq<Question>)
    ensures |r| == |questions|
    ensures forall i :: 0 <= i < |questions| ==> r[i] == Redact(questions[i])
  {
    seq(|questions|, i requires 0 <= i < |questions| => Redact(questions[i]))
  }

  /** Redaction keeps the ids, so distinct ids stay distinct. */
  lemma RedactedDistinct(questions: seq<Question>)
    requires DistinctIds(questions)
    ensures DistinctIds(Redacted(questions))
  {
    var r := Redacted(questions);
    forall i, j | 0 <= i < j < |r| ensures r[i].id != r[j].id {
      assert r[i].id == questions[i].id && r[j].id == questions[j].id;
    }
  }

  /**
   * The redacted detail says nothing about the answer keys: question lists
   * that agree on everything but `correctOptionId` give the same view.
   */
  lemma RedactedHidesAnswerKey(questions: seq<Question>, questions': seq<Question>, options: seq<QuestionOption>)
    requires |questions| == |questions'|
    requires forall i :: 0 <= i < |questions| ==> questions[i].(correctOptionId := None) == questions'[i].(correctOptionId := None)
    ensures Grouped(Redacted(questions), options, UserView) == Grouped(Redacted(questions'), options, UserView)
  {
    assert Redacted(questions) == Redacted(questions');
  }

  /** The redacted detail carries the same options under each question as the handler's view. */
  lemma RedactedKeepsOptions(questions: seq<Question>, options: seq<QuestionOption>, i: nat)
    requires i < |questions|
    ensures Grouped(Redacted(questions), options, UserView)[i].options == Grouped(questions, options, UserView)[i].options
    ensures Grouped(Redacted(questions), options, UserView)[i].question == Redact(questions[i])
  {
    var r := Redacted(questions);
    assert r[i].id == questions[i].id;
  }

  /** The detail handler as intended: the same lookups, with every question redacted. */
  method RedactedExamDetail(db: Database, examId: Id) returns (r: Result<ExamView<UserOptionView>>)
    requires db.Valid()
    ensures r.Failure? <==> ExamById(db.exams, examId).None?
    ensures r.Failure? ==> r.error == NotFound
    ensures r.Success? ==>
      r.value == ExamView(ExamById(db.exams, examId).value, Grouped(Redacted(QuestionsOfExam(db.questions, examId)), db.options, UserView))
  {
    var exam := ExamById(db.exams, examId);
    if exam.None? {
      return Failure(NotFound);
    }
    var examQuestions := QuestionsOfExam(db.questions, examId);
    ExamQuestionsDistinct(db.questions, examId, db.nextId);
    var questionIds := QuestionIds(examQuestions);
    var options := OptionsOfQuestions(db.options, questionIds);
    var shown := Redacted(examQuestions);
    RedactedDistinct(examQuestions);
    var groups := GroupOptions(shown, options, UserView);
    assert forall i :: 0 <= i < |shown| ==> shown[i].id in questionIds by {
      forall i | 0 <= i < |shown| ensures shown[i].id in questionIds {
        assert shown[i].id == examQuestions[i].id;
      }
    }
    GroupedOverFetched(shown, questionIds, db.options, UserView);
    return Success(ExamView(exam.value, groups));
  }

  // ----- POST /:examId/start -----

  /**
   * The guards of `start`, in the order the handler runs them; `None` means
   * every guard passed. The window is closed at both ends.
   */
  function StartGuard(exams: seq<Exam>, sessions: seq<ExamSession>, examId: Id, userId: Id, now: Time): (r: Option<ErrorCode>)
    ensures r == Some(NotFound) <==> ExamById(exams, examId).None?
    ensures r == Some(InvalidTime) <==>
      ExamById(exams, examId).Some? && !(ExamById(exams, examId).value.startTime <= now <= ExamById(exams, examId).value.endTime)
    ensures r == Some(ExamAlreadyTaken) ==> FindSession(sessions, examId, userId, true).Some?
    ensures r == Some(SessionExists) ==>
      FindSession(sessions, examId, userId, false).Some? && FindSession(sessions, examId, userId, true).None?
    ensures r == None <==>
      && ExamById(exams, examId).Some?
      && ExamById(exams, examId).value.startTime <= now <= ExamById(exams, examId).value.endTime
      && FindPairSession(sessions, examId, userId).None?
    ensures r.Some? ==> r.value in {NotFound, InvalidTime, ExamAlreadyTaken, SessionExists}
  {
    var exam := ExamById(exams, examId);
    if exam.None? then Some(NotFound)
    else if now < exam.value.startTime || now > exam.value.endTime then Some(InvalidTime)
    else if FindSession(sessions, examId, userId, true).Some? then Some(ExamAlreadyTaken)
    else if FindSession(sessions, examId, userId, false).Some? then Some(SessionExists)
    else None
  }

  /** The row `start` inserts: `completed` takes its default false, `endTime` stays null. */
  function NewSession(id: Id, examId: Id, userId: Id, now: Time): ExamSession {
    ExamSession(id, examId, userId, now, None, false, now)
  }

  /** `start`: the guards in order, then one insert into `exam_sessions`; no other table changes. */
  method Start(db: Database, examId: Id, userId: Id, now: Time) returns (r: Result<ExamSession>)
    requires db.Valid()
    modifies db`sessions, db`nextId
    ensures db.Valid()
    ensures r.Failure? <==> StartGuard(db.exams, old(db.sessions), examId, userId, now).Some?
    ensures r.Failure? ==>
      && StartGuard(db.exams, old(db.sessions), examId, userId, now) == Some(r.error)
      && db.sessions == old(db.sessions) && db.nextId == old(db.nextId)
    ensures r.Success? ==>
      && r.value == NewSession(old(db.nextId), examId, userId, now)
      && db.sessions == old(db.sessions) + [r.value] && db.nextId == old(db.nextId) + 1
  {
    var exam := ExamById(db.exams, examId);
    if exam.None? {
      return Failure(NotFound);
    }
    if now < exam.value.startTime || now > exam.value.endTime {
      return Failure(InvalidTime);
    }
    var completedSession := FindSession(db.sessions, examId, userId, true);
    if completedSession.Some? {
      return Failure(ExamAlreadyTaken);
    }
    var existingSession := FindSession(db.sessions, examId, userId, false);
    if existingSession.Some? {
      return Failure(SessionExists);
    }
    var session := db.InsertSession(examId, userId, now);
    return Success(session);
  }

  // ----- POST /:examId/submit -----

  const SubmittedMessage := "Exam submitted successfully"

  /**
   * `submit`: find the active session, insert the answers, then mark the
   * session completed. `insertAccepted` is whether the database accepts the
   * multi-row insert (it can refuse, for instance, an answer naming a row that
   * does not exist); when it refuses, the handler reports a server error and,
   * with no transaction around the two writes, leaves the session active.
   * Neither the exam's window nor its duration is consulted, and answers are
   * not checked against the exam's questions.
   */
  method Submit(db: Database, examId: Id, userId: Id, inputs: seq<AnswerInput>, now: Time, insertAccepted: bool)
    returns (r: Result<string>)
    requires db.Valid()
    modifies db`answers, db`sessions, db`nextId
    ensures db.Valid()
    ensures FindSession(old(db.sessions), examId, userId, false).None? ==>
      && r == Failure(SessionNotFound)
      && db.answers == old(db.answers) && db.sessions == old(db.sessions) && db.nextId == old(db.nextId)
    ensures FindSession(old(db.sessions), examId, userId, false).Some? && !insertAccepted ==>
      && r == Failure(ServerError)
      && db.answers == old(db.answers) && db.sessions == old(db.sessions) && db.nextId == old(db.nextId)
    ensures FindSession(old(db.sessions), examId, userId, false).Some? && insertAccepted ==>
      var active := FindSession(old(db.sessions), examId, userId, false).value;
      && r == Success(SubmittedMessage)
      && db.answers == old(db.answers) + AnswerRows(active.id, inputs, old(db.nextId), now)
      && db.sessions == CompleteSession(old(db.sessions), active.id, now)
      && db.nextId == old(db.nextId) + |inputs|
  {
    var session := FindSession(db.sessions, examId, userId, false);
    if session.None? {
      return Failure(SessionNotFound);
    }
    if !insertAccepted {
      return Failure(ServerError);
    }
    var inserted := db.InsertAnswers(session.value.id, inputs, now);
    db.UpdateCompleteSession(session.value.id, now);
    return Success(SubmittedMessage);
  }

  // ----- GET /:examId/results -----

  datatype ScoreReport = ScoreReport(score: Percentage, totalQuestions: nat, correctAnswers: nat, incorrectAnswers: int)

  /**
   * The score of the user's completed session: every question of the exam is
   * checked against the first answer given to it.
   */
  method ExamResults(db: Database, examId: Id, userId: Id) returns (r: Result<ScoreReport>)
    ensures r.Failure? <==> FindSession(db.sessions, examId, userId, true).None?
    ensures r.Failure? ==> r.error == ResultsNotFound
    ensures r.Success? ==>
      var qs := QuestionsOfExam(db.questions, examId);
      var correct := CorrectByQuestion(qs, AnswersOfSession(db.answers, FindSession(db.sessions, examId, userId, true).value.id));
      r.value == ScoreReport(Percent(correct, |qs|), |qs|, correct, |qs| - correct)
    ensures r.Success? ==>
      && 0 <= r.value.correctAnswers <= r.value.totalQuestions
      && r.value.incorrectAnswers == r.value.totalQuestions - r.value.correctAnswers >= 0
  {
    var session := FindSession(db.sessions, examId, userId, true);
    if session.None? {
      return Failure(ResultsNotFound);
    }
    var examQuestions := QuestionsOfExam(db.questions, examId);
    var userAnswers := AnswersOfSession(db.answers, session.value.id);
    var correctAnswers := CountCorrectByQuestion(examQuestions, userAnswers);
    return Success(ScoreReport(
      Percent(correctAnswers, |examQuestions|), |examQuestions|, correctAnswers, |examQuestions| - correctAnswers));
  }

  // ----- GET /results -----

  /** One row of the user's results; `examId` and `examTitle` come from a left join. */
  datatype SessionScore = SessionScore(
    examId: Option<Id>, examTitle: Option<string>, score: Percentage, totalQuestions: nat, completedAt: Option<Time>)

  /**
   * The questions fetched for a joined exam id; a null id (no exam row joined)
   * compares equal to no row.
   */
  function JoinedQuestions(questions: seq<Question>, examId: Option<Id>): (r: seq<Question>)
    ensures examId.None? ==> r == []
    ensures examId.Some? ==> r == QuestionsOfExam(questions, examId.value)
  {
    if examId.None? then [] else QuestionsOfExam(questions, examId.value)
  }

  /** The score row of one completed session, as the `/results` handler builds it. */
  function ScoreOfSession(exams: seq<Exam>, questions: seq<Question>, answers: seq<ExamAnswer>, s: ExamSession): (r: SessionScore)
    ensures ExamById(exams, s.examId).Some? ==>
      && r.examId == Some(s.examId)
      && r.examTitle == Some(ExamById(exams, s.examId).value.title)
      && r.totalQuestions == |QuestionsOfExam(questions, s.examId)|
      && r.score == Percent(CorrectByQuestion(QuestionsOfExam(questions, s.examId), AnswersOfSession(answers, s.id)),
                            |QuestionsOfExam(questions, s.examId)|)
    ensures ExamById(exams, s.examId).None? ==> r.examId.None? && r.examTitle.None? && r.totalQuestions == 0 && r.score.NaN?
    ensures r.completedAt == s.endTime
  {
    var exam := ExamById(exams, s.examId);
    var examId := if exam.Some? then Some(exam.value.id) else None;
    var examQuestions := JoinedQuestions(questions, examId);
    SessionScore(
      examId,
      if exam.Some? then Some(exam.value.title) else None,
      Percent(CorrectByQuestion(examQuestions, AnswersOfSession(answers, s.id)), |examQuestions|),
      |examQuestions|,
      s.endTime)
  }

  /** The body of the `map` callback: two queries and the `forEach` count. */
  method ScoreSession(db: Database, session: ExamSession) returns (row: SessionScore)
    ensures row == ScoreOfSession(db.exams, db.questions, db.answers, session)
  {
    var exam := ExamById(db.exams, session.examId);
    var examId := if exam.Some? then Some(exam.value.id) else None;
    var examTitle := if exam.Some? then Some(exam.value.title) else None;
    var examQuestions := JoinedQuestions(db.questions, examId);
    var answers := AnswersOfSession(db.answers, session.id);
    var correctAnswers := CountCorrectByQuestion(examQuestions, answers);
    row := SessionScore(examId, examTitle, Percent(correctAnswers, |examQuestions|), |examQuestions|, session.endTime);
  }

  /** One score row per completed session of the user, in table order. */
  method AllResults(db: Database, userId: Id) returns (results: seq<SessionScore>)
    ensures |results| == |CompletedSessionsOfUser(db.sessions, userId)|
    ensures forall i :: 0 <= i < |results| ==>
      results[i] == ScoreOfSession(db.exams, db.questions, db.answers, CompletedSessionsOfUser(db.sessions, userId)[i])
  {
    var completedSessions := CompletedSessionsOfUser(db.sessions, userId);
    results := [];
    for i := 0 to |completedSessions|
      invariant |results| == i
      invariant forall k :: 0 <= k < i ==> results[k] == ScoreOfSession(db.exams, db.questions, db.answers, completedSessions[k])
    {
      var row := ScoreSession(db, completedSessions[i]);
      results := results + [row];
    }
  }
}
