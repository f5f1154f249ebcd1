/**
 * `DELETE /exams/:examId`: inside one transaction, the answers of the exam's
 * sessions, the sessions, the options of its questions, the questions and
 * finally the exam row are deleted; when no exam row was deleted the handler
 * throws, the transaction rolls back and `NOT_FOUND` is reported.
 */
module Cascade {
  import opened Schema
  import opened Api
  import opened Tables
  import opened Store

  /** The ids of the exam's sessions and of its questions, as the handler selects them. */
  function ExamSessionIds(t: Snapshot, examId: Id): seq<Id> {
    SessionIds(SessionsOfExam(t.sessions, examId))
  }

  function ExamQuestionIds(t: Snapshot, examId: Id): seq<Id> {
    QuestionIds(QuestionsOfExam(t.questions, examId))
  }

  /**
   * The tables once the exam and everything hanging off it are gone: every
   * other row stays, in table order.
   */
  function CascadeDelete(t: Snapshot, examId: Id): (r: Snapshot)
    ensures r.users == t.users
    ensures forall e :: e in r.exams <==> e in t.exams && e.id != examId
    ensures forall q :: q in r.questions <==> q in t.questions && q.examId != examId
    ensures forall o :: o in r.options <==>
      o in t.options && !exists q :: q in t.questions && q.examId == examId && q.id == o.questionId
    ensures forall s :: s in r.sessions <==> s in t.sessions && s.examId != examId
    ensures forall a :: a in r.answers <==>
      a in t.answers && !exists s :: s in t.sessions && s.examId == examId && s.id == a.sessionId
  {
    Snapshot(
      t.users,
      ExamsExcept(t.exams, examId),
      QuestionsNotOfExam(t.questions, examId),
      OptionsNotOfQuestions(t.options, ExamQuestionIds(t, examId)),
      SessionsNotOfExam(t.sessions, examId),
      AnswersNotOfSessions(t.answers, ExamSessionIds(t, examId)))
  }

  const DeletedMessage := "Exam deleted successfully"

  /** An exam with no sessions: the guarded deletes of answers and sessions would change nothing. */
  lemma NoSessionsNothingToDelete(t: Snapshot, examId: Id)
    requires |SessionsOfExam(t.sessions, examId)| == 0
    ensures SessionsNotOfExam(t.sessions, examId) == t.sessions
    ensures AnswersNotOfSessions(t.answers, ExamSessionIds(t, examId)) == t.answers
  {
    assert forall s :: s in t.sessions ==> s.examId != examId;
    FilterKeepsAll(t.sessions, (s: ExamSession) => s.examId != examId);
    FilterKeepsAll(t.answers, (a: ExamAnswer) => a.sessionId !in ExamSessionIds(t, examId));
  }

  /** An exam with no questions: the guarded deletes of options and questions would change nothing. */
  lemma NoQuestionsNothingToDelete(t: Snapshot, examId: Id)
    requires |QuestionsOfExam(t.questions, examId)| == 0
    ensures QuestionsNotOfExam(t.questions, examId) == t.questions
    ensures OptionsNotOfQuestions(t.options, ExamQuestionIds(t, examId)) == t.options
  {
    assert forall q :: q in t.questions ==> q.examId != examId;
    FilterKeepsAll(t.questions, (q: Question) => q.examId != examId);
    FilterKeepsAll(t.options, (o: QuestionOption) => o.questionId !in ExamQuestionIds(t, examId));
  }

  /** Steps 1 to 3: the answers of the exam's sessions, then the sessions, when there are any. */
  method DeleteSessions(db: Database, examId: Id)
    requires db.Valid()
    modifies db`answers, db`sessions
    ensures db.Valid()
    ensures db.answers == AnswersNotOfSessions(old(db.answers), ExamSessionIds(old(db.Tables()), examId))
    ensures db.sessions == SessionsNotOfExam(old(db.sessions), examId)
  {
    var sessionsToDelete := SessionsOfExam(db.sessions, examId);
    if |sessionsToDelete| > 0 {
      var sessionIds := SessionIds(sessionsToDelete);
      db.DeleteAnswersOfSessions(sessionIds);
      db.DeleteSessionsOfExam(examId);
    } else {
      NoSessionsNothingToDelete(db.Tables(), examId);
    }
  }

  /** Steps 4 to 6: the options of the exam's questions, then the questions, when there are any. */
  method DeleteQuestions(db: Database, examId: Id)
    requires db.Valid()
    modifies db`options, db`questions
    ensures db.Valid()
    ensures db.options == OptionsNotOfQuestions(old(db.options), ExamQuestionIds(old(db.Tables()), examId))
    ensures db.questions == QuestionsNotOfExam(old(db.questions), examId)
  {
    var questionsToDelete := QuestionsOfExam(db.questions, examId);
    if |questionsToDelete| > 0 {
      var questionIds := QuestionIds(questionsToDelete);
      db.DeleteOptionsOfQuestions(questionIds);
      db.DeleteQuestionsOfExam(examId);
    } else {
      NoQuestionsNothingToDelete(db.Tables(), examId);
    }
  }

  /**
   * The handler: all or nothing. A present exam goes with all its dependents
   * and nothing else changes; an absent exam leaves every table as it was.
   */
  method DeleteExam(db: Database, examId: Id) returns (r: Result<string>)
    requires db.Valid()
    modifies db`users, db`exams, db`questions, db`options, db`sessions, db`answers
    ensures db.Valid()
    ensures ExamById(old(db.exams), examId).None? ==> r == Failure(NotFound) && db.Tables() == old(db.Tables())
    ensures ExamById(old(db.exams), examId).Some? ==>
      r == Success(DeletedMessage) && db.Tables() == CascadeDelete(old(db.Tables()), examId)
  {
    var before := db.Tables();
    DeleteSessions(db, examId);
    DeleteQuestions(db, examId);
    var deleteResult := db.DeleteExamRows(examId);
    if |deleteResult| == 0 {
      db.Restore(before);
      return Failure(NotFound);
    }
    return Success(DeletedMessage);
  }

  // ----- What the cascade keeps -----

  /** Deleting rows keeps primary keys distinct and emails unique. */
  lemma CascadeKeepsValid(t: Snapshot, examId: Id, bound: Id)
    requires ValidTables(t, bound)
    ensures ValidTables(CascadeDelete(t, examId), bound)
  {
    PrimaryKeyFilter(t.exams, (e: Exam) => e.id != examId, ExamKey, bound);
    PrimaryKeyFilter(t.questions, (q: Question) => q.examId != examId, QuestionKey, bound);
    PrimaryKeyFilter(t.options, (o: QuestionOption) => o.questionId !in ExamQuestionIds(t, examId), OptionKey, bound);
    PrimaryKeyFilter(t.sessions, (s: ExamSession) => s.examId != examId, SessionKey, bound);
    PrimaryKeyFilter(t.answers, (a: ExamAnswer) => a.sessionId !in ExamSessionIds(t, examId), AnswerKey, bound);
  }

  /** A second delete of the same exam finds nothing more to remove. */
  lemma CascadeIdempotent(t: Snapshot, examId: Id)
    ensures CascadeDelete(CascadeDelete(t, examId), examId) == CascadeDelete(t, examId)
  {
    var r := CascadeDelete(t, examId);
    FilterKeepsNone(r.sessions, (s: ExamSession) => s.examId == examId);
    FilterKeepsNone(r.questions, (q: Question) => q.examId == examId);
    NoSessionsNothingToDelete(r, examId);
    NoQuestionsNothingToDelete(r, examId);
    FilterKeepsAll(r.exams, (e: Exam) => e.id != examId);
  }

  /**
   * The rows of any other exam are untouched, in order: its questions, its
   * sessions, the options of a question that is not the deleted exam's, and
   * the answers of a session that is not the deleted exam's.
   */
  lemma CascadeKeepsOtherExams(t: Snapshot, examId: Id, other: Id, questionId: Id, sessionId: Id)
    requires other != examId
    requires forall q :: q in t.questions && q.examId == examId ==> q.id != questionId
    requires forall s :: s in t.sessions && s.examId == examId ==> s.id != sessionId
    ensures var r := CascadeDelete(t, examId);
      && ExamById(r.exams, other) == ExamById(t.exams, other)
      && QuestionsOfExam(r.questions, other) == QuestionsOfExam(t.questions, other)
      && SessionsOfExam(r.sessions, other) == SessionsOfExam(t.sessions, other)
      && Filter(r.options, (o: QuestionOption) => o.questionId == questionId)
         == Filter(t.options, (o: QuestionOption) => o.questionId == questionId)
      && AnswersOfSession(r.answers, sessionId) == AnswersOfSession(t.answers, sessionId)
  {
    FilterFilter(t.questions, (q: Question) => q.examId != examId, (q: Question) => q.examId == other);
    FilterFilter(t.sessions, (s: ExamSession) => s.examId != examId, (s: ExamSession) => s.examId == other);
    var qids, sids := ExamQuestionIds(t, examId), ExamSessionIds(t, examId);
    assert questionId !in qids;
    assert sessionId !in sids;
    FilterFilter(t.options, (o: QuestionOption) => o.questionId !in qids, (o: QuestionOption) => o.questionId == questionId);
    FilterFilter(t.answers, (a: ExamAnswer) => a.sessionId !in sids, (a: ExamAnswer) => a.sessionId == sessionId);
    ExamsExceptKeepsOther(t.exams, examId, other);
  }

  /** Removing the rows of one id does not change which row the query for another id finds. */
  lemma {:induction false} ExamsExceptKeepsOther(exams: seq<Exam>, examId: Id, other: Id)
    requires other != examId
    ensures ExamById(ExamsExcept(exams, examId), other) == ExamById(exams, other)
    decreases |exams|
  {
    if exams != [] {
      ExamsExceptKeepsOther(exams[1..], examId, other);
      if exams[0].id == examId {
        assert ExamsExcept(exams, examId) == ExamsExcept(exams[1..], examId);
      } else {
        var rest := ExamsExcept(exams[1..], examId);
        assert ExamsExcept(exams, examId) == [exams[0]] + rest;
        assert ([exams[0]] + rest)[1..] == rest;
      }
    }
  }

  // ----- References -----

  // One predicate per foreign key of the schema: every row names an existing row.
  predicate QuestionsNameExams(t: Snapshot) {
    forall q :: q in t.questions ==> exists e :: e in t.exams && e.id == q.examId
  }
  predicate OptionsNameQuestions(t: Snapshot) {
    forall o :: o in t.options ==> exists q :: q in t.questions && q.id == o.questionId
  }
  predicate SessionsNameExams(t: Snapshot) {
    forall s :: s in t.sessions ==> exists e :: e in t.exams && e.id == s.examId
  }
  predicate SessionsNameUsers(t: Snapshot) {
    forall s :: s in t.sessions ==> exists u :: u in t.users && u.id == s.userId
  }
  predicate AnswersNameSessions(t: Snapshot) {
    forall a :: a in t.answers ==> exists s :: s in t.sessions && s.id == a.sessionId
  }
  predicate AnswersNameQuestions(t: Snapshot) {
    forall a :: a in t.answers ==> exists q :: q in t.questions && q.id == a.questionId
  }
  predicate AnswersNameOptions(t: Snapshot) {
    forall a :: a in t.answers ==> exists o :: o in t.options && o.id == a.selectedOptionId
  }

  /** Every foreign key of the schema names an existing row. */
  predicate References(t: Snapshot) {
    && QuestionsNameExams(t) && OptionsNameQuestions(t) && SessionsNameExams(t) && SessionsNameUsers(t)
    && AnswersNameSessions(t) && AnswersNameQuestions(t) && AnswersNameOptions(t)
  }

  /**
   * Every answer names a question, and an option of a question, of its own
   * session's exam. `submit` does not check this.
   */
  predicate AnswerQuestionsWithinExam(t: Snapshot) {
    forall a, s, q :: a in t.answers && s in t.sessions && q in t.questions && s.id == a.sessionId && q.id == a.questionId
      ==> q.examId == s.examId
  }
  predicate AnswerOptionsWithinExam(t: Snapshot) {
    forall a, s, o, q :: a in t.answers && s in t.sessions && o in t.options && q in t.questions
      && s.id == a.sessionId && o.id == a.selectedOptionId && q.id == o.questionId
      ==> q.examId == s.examId
  }

  /** The exam side of the cascade: questions, options and sessions keep their references. */
  lemma CascadeKeepsExamReferences(t: Snapshot, examId: Id)
    requires QuestionsNameExams(t) && OptionsNameQuestions(t) && SessionsNameExams(t) && SessionsNameUsers(t)
    ensures var r := CascadeDelete(t, examId);
      QuestionsNameExams(r) && OptionsNameQuestions(r) && SessionsNameExams(r) && SessionsNameUsers(r)
  {
    var r := CascadeDelete(t, examId);
    forall q | q in r.questions ensures exists e :: e in r.exams && e.id == q.examId {
      var e :| e in t.exams && e.id == q.examId;
      assert e in r.exams;
    }
    forall o | o in r.options ensures exists q :: q in r.questions && q.id == o.questionId {
      var q :| q in t.questions && q.id == o.questionId;
      assert q in r.questions;
    }
    forall s | s in r.sessions ensures exists e :: e in r.exams && e.id == s.examId {
      var e :| e in t.exams && e.id == s.examId;
      assert e in r.exams;
    }
  }

  /** A kept answer's session is kept. */
  lemma CascadeKeepsAnswerSessions(t: Snapshot, examId: Id)
    requires AnswersNameSessions(t)
    ensures AnswersNameSessions(CascadeDelete(t, examId))
  {
    var r := CascadeDelete(t, examId);
    forall a | a in r.answers ensures exists s :: s in r.sessions && s.id == a.sessionId {
      var s :| s in t.sessions && s.id == a.sessionId;
      assert s in r.sessions;
    }
  }

  /** A kept answer's question is of the answer's exam, which is not the deleted one, so it is kept. */
  lemma CascadeKeepsAnswerQuestions(t: Snapshot, examId: Id)
    requires AnswersNameSessions(t) && AnswersNameQuestions(t) && AnswerQuestionsWithinExam(t)
    ensures AnswersNameQuestions(CascadeDelete(t, examId))
  {
    var r := CascadeDelete(t, examId);
    forall a | a in r.answers ensures exists q :: q in r.questions && q.id == a.questionId {
      var s :| s in t.sessions && s.id == a.sessionId;
      var q :| q in t.questions && q.id == a.questionId;
      assert q in r.questions;
    }
  }

  /** A kept answer's option belongs to a question of the answer's exam, so it is kept. */
  lemma CascadeKeepsAnswerOptions(t: Snapshot, examId: Id)
    requires AnswersNameSessions(t) && AnswersNameOptions(t) && AnswerOptionsWithinExam(t)
    ensures AnswersNameOptions(CascadeDelete(t, examId))
  {
    var r := CascadeDelete(t, examId);
    forall a | a in r.answers ensures exists o :: o in r.options && o.id == a.selectedOptionId {
      var s :| s in t.sessions && s.id == a.sessionId;
      var o :| o in t.options && o.id == a.selectedOptionId;
      assert o in r.options;
    }
  }

  /** When answers stay within their exam, the cascade leaves no reference dangling. */
  lemma CascadeKeepsReferences(t: Snapshot, examId: Id)
    requires References(t) && AnswerQuestionsWithinExam(t) && AnswerOptionsWithinExam(t)
    ensures References(CascadeDelete(t, examId))
  {
    CascadeKeepsExamReferences(t, examId);
    CascadeKeepsAnswerSessions(t, examId);
    CascadeKeepsAnswerQuestions(t, examId);
    CascadeKeepsAnswerOptions(t, examId);
  }

  /**
   * Without that condition the cascade can leave an answer of another exam's
   * session pointing at a deleted question (the database's foreign key would
   * then refuse the delete).
   */
  lemma CrossExamAnswerDangles()
    ensures var t := Snapshot(
              [User(1, "u@x", "u", "h", 0)],
              [Exam(2, "a", "d", 10, 0, 9, 0), Exam(3, "b", "d", 10, 0, 9, 0)],
              [Question(4, 2, "q", Some(5), 0)],
              [QuestionOption(5, 4, "o", 0)],
              [ExamSession(6, 3, 1, 0, None, true, 0)],
              [ExamAnswer(7, 6, 4, 5, 0)]);
      && AnswersNameQuestions(t)
      && !AnswersNameQuestions(CascadeDelete(t, 2))
  {
    var t := Snapshot(
      [User(1, "u@x", "u", "h", 0)],
      [Exam(2, "a", "d", 10, 0, 9, 0), Exam(3, "b", "d", 10, 0, 9, 0)],
      [Question(4, 2, "q", Some(5), 0)],
      [QuestionOption(5, 4, "o", 0)],
      [ExamSession(6, 3, 1, 0, None, true, 0)],
      [ExamAnswer(7, 6, 4, 5, 0)]);
    assert t.questions[0] in t.questions;
    var r := CascadeDelete(t, 2);
    assert t.answers[0] in r.answers;
    assert r.questions == [];
  }
}
