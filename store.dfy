/**
 * The database: the six tables as sequences of rows in table order, the
 * queries the route handlers issue against them (each a filter over a table),
 * the single-table writes they perform, and the invariant the schema imposes
 * (primary keys distinct, user emails unique). Fresh uuids are modelled by a
 * counter: every id handed out is the current `nextId`, which then grows.
 */
module Store {
  import opened Schema
  import opened Tables

  // ----- Queries -----

  /** `select from exams where id = ... limit 1` */
  function ExamById(exams: seq<Exam>, id: Id): (r: Option<Exam>)
    ensures r.Some? <==> exists e :: e in exams && e.id == id
    ensures r.Some? ==> r.value in exams && r.value.id == id
  {
    Find(exams, (e: Exam) => e.id == id)
  }

  /** The first session of `userId` at `examId` whose `completed` flag equals `completed` (`.limit(1)`). */
  function FindSession(sessions: seq<ExamSession>, examId: Id, userId: Id, completed: bool): (r: Option<ExamSession>)
    ensures r.Some? <==> exists s :: s in sessions && s.examId == examId && s.userId == userId && s.completed == completed
    ensures r.Some? ==> r.value in sessions && r.value.examId == examId && r.value.userId == userId && r.value.completed == completed
  {
    Find(sessions, (s: ExamSession) => s.examId == examId && s.userId == userId && s.completed == completed)
  }

  /** The first session of `userId` at `examId`, completed or not (`.limit(1)`). */
  function FindPairSession(sessions: seq<ExamSession>, examId: Id, userId: Id): (r: Option<ExamSession>)
    ensures r.Some? <==> exists s :: s in sessions && s.examId == examId && s.userId == userId
    ensures r.Some? ==> r.value in sessions && r.value.examId == examId && r.value.userId == userId
  {
    Find(sessions, (s: ExamSession) => s.examId == examId && s.userId == userId)
  }

  /** `select from questions where exam_id = ...` */
  function QuestionsOfExam(questions: seq<Question>, examId: Id): (r: seq<Question>)
    ensures forall q :: q in r <==> q in questions && q.examId == examId
  {
    Filter(questions, (q: Question) => q.examId == examId)
  }

  /** `select from question_options where question_id in (...)` */
  function OptionsOfQuestions(options: seq<QuestionOption>, questionIds: seq<Id>): (r: seq<QuestionOption>)
    ensures forall o :: o in r <==> o in options && o.questionId in questionIds
  {
    Filter(options, (o: QuestionOption) => o.questionId in questionIds)
  }

  /** `select from exam_sessions where exam_id = ...` */
  function SessionsOfExam(sessions: seq<ExamSession>, examId: Id): (r: seq<ExamSession>)
    ensures forall s :: s in r <==> s in sessions && s.examId == examId
  {
    Filter(sessions, (s: ExamSession) => s.examId == examId)
  }

  /** `select from exam_sessions where user_id = ... and completed = true` */
  function CompletedSessionsOfUser(sessions: seq<ExamSession>, userId: Id): (r: seq<ExamSession>)
    ensures forall s :: s in r <==> s in sessions && s.userId == userId && s.completed
  {
    Filter(sessions, (s: ExamSession) => s.userId == userId && s.completed)
  }

  /** `select from exam_answers where session_id = ...` */
  function AnswersOfSession(answers: seq<ExamAnswer>, sessionId: Id): (r: seq<ExamAnswer>)
    ensures forall a :: a in r <==> a in answers && a.sessionId == sessionId
  {
    Filter(answers, (a: ExamAnswer) => a.sessionId == sessionId)
  }

  /** The condition `q => q.id === id`. */
  function QuestionWithId(id: Id): Question -> bool {
    (q: Question) => q.id == id
  }

  /** The first row of `questions` with the given id (`examQuestions.find(q => q.id === ...)`). */
  function QuestionById(questions: seq<Question>, id: Id): (r: Option<Question>)
    ensures r.Some? <==> exists q :: q in questions && q.id == id
    ensures r.Some? ==> r.value in questions && r.value.id == id
  {
    Find(questions, QuestionWithId(id))
  }

  /** `select from question_options where id = ... limit 1` */
  function OptionById(options: seq<QuestionOption>, id: Id): (r: Option<QuestionOption>)
    ensures r.Some? <==> exists o :: o in options && o.id == id
    ensures r.Some? ==> r.value in options && r.value.id == id
  {
    Find(options, (o: QuestionOption) => o.id == id)
  }

  /** The user row a `left join users on users.id = ...` attaches, if any. */
  function UserById(users: seq<User>, id: Id): (r: Option<User>)
    ensures r.Some? <==> exists u :: u in users && u.id == id
    ensures r.Some? ==> r.value in users && r.value.id == id
  {
    Find(users, (u: User) => u.id == id)
  }

  /** The condition `a => a.questionId === questionId`. */
  function AnswerTo(questionId: Id): ExamAnswer -> bool {
    (a: ExamAnswer) => a.questionId == questionId
  }

  /** The first answer given to a question (`answers.find(a => a.questionId === ...)`). */
  function FirstAnswerFor(answers: seq<ExamAnswer>, questionId: Id): (r: Option<ExamAnswer>)
    ensures r.Some? <==> exists a :: a in answers && a.questionId == questionId
    ensures r.Some? ==> r.value in answers && r.value.questionId == questionId
  {
    Find(answers, AnswerTo(questionId))
  }

  /** The session ids of a list of sessions, in order (`sessions.map(s => s.id)`). */
  function SessionIds(sessions: seq<ExamSession>): (r: seq<Id>)
    ensures |r| == |sessions|
    ensures forall id :: id in r <==> exists s :: s in sessions && s.id == id
  {
    var r := seq(|sessions|, i requires 0 <= i < |sessions| => sessions[i].id);
    assert forall i :: 0 <= i < |sessions| ==> r[i] == sessions[i].id;
    r
  }

  /** The question ids of a list of questions, in order (`questions.map(q => q.id)`). */
  function QuestionIds(questions: seq<Question>): (r: seq<Id>)
    ensures |r| == |questions|
    ensures forall id :: id in r <==> exists q :: q in questions && q.id == id
  {
    var r := seq(|questions|, i requires 0 <= i < |questions| => questions[i].id);
    assert forall i :: 0 <= i < |questions| ==> r[i] == questions[i].id;
    r
  }

  /** The set of emails already registered. */
  function EmailsOf(users: seq<User>): (r: set<string>)
    ensures forall e :: e in r <==> exists u :: u in users && u.email == e
  {
    set u | u in users :: u.email
  }

  // ----- Deletes (each a `delete from ... where ...`: the rows not matched remain, in order) -----

  function ExamsExcept(exams: seq<Exam>, examId: Id): (r: seq<Exam>)
    ensures forall e :: e in r <==> e in exams && e.id != examId
  {
    Filter(exams, (e: Exam) => e.id != examId)
  }

  function QuestionsNotOfExam(questions: seq<Question>, examId: Id): (r: seq<Question>)
    ensures forall q :: q in r <==> q in questions && q.examId != examId
  {
    Filter(questions, (q: Question) => q.examId != examId)
  }

  function OptionsNotOfQuestions(options: seq<QuestionOption>, questionIds: seq<Id>): (r: seq<QuestionOption>)
    ensures forall o :: o in r <==> o in options && o.questionId !in questionIds
  {
    Filter(options, (o: QuestionOption) => o.questionId !in questionIds)
  }

  function SessionsNotOfExam(sessions: seq<ExamSession>, examId: Id): (r: seq<ExamSession>)
    ensures forall s :: s in r <==> s in sessions && s.examId != examId
  {
    Filter(sessions, (s: ExamSession) => s.examId != examId)
  }

  function AnswersNotOfSessions(answers: seq<ExamAnswer>, sessionIds: seq<Id>): (r: seq<ExamAnswer>)
    ensures forall a :: a in r <==> a in answers && a.sessionId !in sessionIds
  {
    Filter(answers, (a: ExamAnswer) => a.sessionId !in sessionIds)
  }

  // ----- Updates and inserted rows -----

  /** `update exam_sessions set completed = true, end_time = now where id = ...` */
  function CompleteSession(sessions: seq<ExamSession>, sessionId: Id, now: Time): (r: seq<ExamSession>)
    ensures |r| == |sessions|
    ensures forall i :: 0 <= i < |r| ==>
      r[i] == if sessions[i].id == sessionId then sessions[i].(completed := true, endTime := Some(now)) else sessions[i]
  {
    seq(|sessions|, i requires 0 <= i < |sessions| =>
      if sessions[i].id == sessionId then sessions[i].(completed := true, endTime := Some(now)) else sessions[i])
  }

  /** `update questions set correct_option_id = ... where id = ...` */
  function SetCorrectOption(questions: seq<Question>, questionId: Id, optionId: Id): (r: seq<Question>)
    ensures |r| == |questions|
    ensures forall i :: 0 <= i < |r| ==>
      r[i] == if questions[i].id == questionId then questions[i].(correctOptionId := Some(optionId)) else questions[i]
  {
    seq(|questions|, i requires 0 <= i < |questions| =>
      if questions[i].id == questionId then questions[i].(correctOptionId := Some(optionId)) else questions[i])
  }

  /** Setting the correct option of the row just inserted changes that row only. */
  lemma SetCorrectOptionOfLast(questions: seq<Question>, q: Question, optionId: Id)
    requires forall x :: x in questions ==> x.id != q.id
    ensures SetCorrectOption(questions + [q], q.id, optionId) == questions + [q.(correctOptionId := Some(optionId))]
  {
    var s := SetCorrectOption(questions + [q], q.id, optionId);
    forall i | 0 <= i < |questions| ensures s[i] == questions[i] {
      assert (questions + [q])[i] == questions[i] && questions[i] in questions;
    }
  }

  /** What the submit handler supplies per answer row (`{ questionId, selectedOptionId }`). */
  datatype AnswerInput = AnswerInput(questionId: Id, selectedOptionId: Id)

  /** The answer rows one multi-row insert creates, ids handed out from `first` in input order. */
  function AnswerRows(sessionId: Id, inputs: seq<AnswerInput>, first: Id, now: Time): (r: seq<ExamAnswer>)
    ensures |r| == |inputs|
    ensures forall k :: 0 <= k < |r| ==>
      r[k] == ExamAnswer(first + k, sessionId, inputs[k].questionId, inputs[k].selectedOptionId, now)
  {
    seq(|inputs|, k requires 0 <= k < |inputs| =>
      ExamAnswer(first + k, sessionId, inputs[k].questionId, inputs[k].selectedOptionId, now))
  }

  /** A user to insert: email, password hash, username. */
  datatype NewUser = NewUser(email: string, passwordHash: string, username: string)

  /** The user rows one multi-row insert creates, ids handed out from `first` in input order. */
  function UserRows(newUsers: seq<NewUser>, first: Id, now: Time): (r: seq<User>)
    ensures |r| == |newUsers|
    ensures forall k :: 0 <= k < |r| ==>
      r[k] == User(first + k, newUsers[k].email, newUsers[k].username, newUsers[k].passwordHash, now)
  {
    seq(|newUsers|, k requires 0 <= k < |newUsers| =>
      User(first + k, newUsers[k].email, newUsers[k].username, newUsers[k].passwordHash, now))
  }

  // ----- The invariant -----

  /** All six tables at one moment (what a transaction can roll back to). */
  datatype Snapshot = Snapshot(
    users: seq<User>, exams: seq<Exam>, questions: seq<Question>,
    options: seq<QuestionOption>, sessions: seq<ExamSession>, answers: seq<ExamAnswer>)

  predicate UniqueEmails(users: seq<User>) {
    forall i, j :: 0 <= i < j < |users| ==> users[i].email != users[j].email
  }

  /** Every primary key distinct and below `bound`; `users.email` unique. */
  predicate ValidTables(t: Snapshot, bound: Id) {
    match t
    case Snapshot(users, exams, questions, options, sessions, answers) =>
      && PrimaryKey(users, UserKey, bound)
      && PrimaryKey(exams, ExamKey, bound)
      && PrimaryKey(questions, QuestionKey, bound)
      && PrimaryKey(options, OptionKey, bound)
      && PrimaryKey(sessions, SessionKey, bound)
      && PrimaryKey(answers, AnswerKey, bound)
      && UniqueEmails(users)
  }

  /** Fresh keys below a larger bound remain fresh. */
  lemma ValidTablesGrow(t: Snapshot, bound: Id, bound': Id)
    requires ValidTables(t, bound) && bound <= bound'
    ensures ValidTables(t, bound')
  {
  }

  /** New users with fresh ids and emails distinct and not yet registered keep the tables valid. */
  lemma AddUsersKeepsValid(t: Snapshot, bound: Id, newUsers: seq<NewUser>, now: Time)
    requires ValidTables(t, bound)
    requires forall i, j :: 0 <= i < j < |newUsers| ==> newUsers[i].email != newUsers[j].email
    requires forall i :: 0 <= i < |newUsers| ==> newUsers[i].email !in EmailsOf(t.users)
    ensures ValidTables(t.(users := t.users + UserRows(newUsers, bound, now)), bound + |newUsers|)
  {
    var rows := UserRows(newUsers, bound, now);
    var bound' := bound + |newUsers|;
    ValidTablesGrow(t, bound, bound');
    PrimaryKeyAppend(t.users, rows, UserKey, bound, bound');
    var all := t.users + rows;
    forall i, j | 0 <= i < j < |all| ensures all[i].email != all[j].email {
      if j >= |t.users| && i < |t.users| {
        assert all[i] in t.users && all[i].email in EmailsOf(t.users);
        assert all[j].email == newUsers[j - |t.users|].email;
      } else if j >= |t.users| {
        assert all[i].email == newUsers[i - |t.users|].email;
        assert all[j].email == newUsers[j - |t.users|].email;
      }
    }
  }

  /** The questions of one exam have distinct ids, because `questions.id` is a primary key. */
  lemma ExamQuestionsDistinct(questions: seq<Question>, examId: Id, bound: Id)
    requires PrimaryKey(questions, QuestionKey, bound)
    ensures var qs := QuestionsOfExam(questions, examId);
      forall i, j :: 0 <= i < j < |qs| ==> qs[i].id != qs[j].id
  {
    PrimaryKeyFilter(questions, (q: Question) => q.examId == examId, QuestionKey, bound);
  }

  class Database {
    var users: seq<User>
    var exams: seq<Exam>
    var questions: seq<Question>
    var options: seq<QuestionOption>
    var sessions: seq<ExamSession>
    var answers: seq<ExamAnswer>
    var nextId: Id

    function Tables(): Snapshot
      reads this
    {
      Snapshot(users, exams, questions, options, sessions, answers)
    }

    ghost predicate Valid()
      reads this
    {
      ValidTables(Tables(), nextId)
    }

    /** An empty database. */
    constructor ()
      ensures Valid()
      ensures Tables() == Snapshot([], [], [], [], [], []) && nextId == 0
    {
      users, exams, questions, options, sessions, answers := [], [], [], [], [], [];
      nextId := 0;
    }

    method InsertExam(title: string, description: string, duration: int, startTime: Time, endTime: Time, now: Time)
      returns (e: Exam)
      requires Valid()
      modifies this`exams, this`nextId
      ensures Valid()
      ensures e == Exam(old(nextId), title, description, duration, startTime, endTime, now)
      ensures exams == old(exams) + [e] && nextId == old(nextId) + 1
    {
      e := Exam(nextId, title, description, duration, startTime, endTime, now);
      ValidTablesGrow(Tables(), nextId, nextId + 1);
      PrimaryKeyAppend(exams, [e], ExamKey, nextId, nextId + 1);
      exams := exams + [e];
      nextId := nextId + 1;
    }

    /*
     * The three writes of exam authoring state only the change they make; the
     * authoring handlers keep the invariant over all of them at once (see
     * `ExamRows.BuildKeepsValid`).
     */

    /** A new question, `correct_option_id` still null. */
    method InsertQuestion(examId: Id, text: string, now: Time) returns (q: Question)
      modifies this`questions, this`nextId
      ensures q == Question(old(nextId), examId, text, None, now)
      ensures questions == old(questions) + [q] && nextId == old(nextId) + 1
    {
      q := Question(nextId, examId, text, None, now);
      questions := questions + [q];
      nextId := nextId + 1;
    }

    method InsertOption(questionId: Id, text: string, now: Time) returns (o: QuestionOption)
      modifies this`options, this`nextId
      ensures o == QuestionOption(old(nextId), questionId, text, now)
      ensures options == old(options) + [o] && nextId == old(nextId) + 1
    {
      o := QuestionOption(nextId, questionId, text, now);
      options := options + [o];
      nextId := nextId + 1;
    }

    method UpdateCorrectOption(questionId: Id, optionId: Id)
      modifies this`questions
      ensures questions == SetCorrectOption(old(questions), questionId, optionId)
    {
      questions := SetCorrectOption(questions, questionId, optionId);
    }

    /** A new session: `completed` takes its default false, `end_time` is null. */
    method InsertSession(examId: Id, userId: Id, now: Time) returns (s: ExamSession)
      requires Valid()
      modifies this`sessions, this`nextId
      ensures Valid()
      ensures s == ExamSession(old(nextId), examId, userId, now, None, false, now)
      ensures sessions == old(sessions) + [s] && nextId == old(nextId) + 1
    {
      s := ExamSession(nextId, examId, userId, now, None, false, now);
      ValidTablesGrow(Tables(), nextId, nextId + 1);
      PrimaryKeyAppend(sessions, [s], SessionKey, nextId, nextId + 1);
      sessions := sessions + [s];
      nextId := nextId + 1;
    }

    method UpdateCompleteSession(sessionId: Id, now: Time)
      requires Valid()
      modifies this`sessions
      ensures Valid()
      ensures sessions == CompleteSession(old(sessions), sessionId, now)
    {
      var updated := CompleteSession(sessions, sessionId, now);
      assert forall i :: 0 <= i < |updated| ==> SessionKey(updated[i]) == SessionKey(sessions[i]);
      sessions := updated;
    }

    /** One multi-row insert into `exam_answers`. */
    method InsertAnswers(sessionId: Id, inputs: seq<AnswerInput>, now: Time) returns (rows: seq<ExamAnswer>)
      requires Valid()
      modifies this`answers, this`nextId
      ensures Valid()
      ensures rows == AnswerRows(sessionId, inputs, old(nextId), now)
      ensures answers == old(answers) + rows && nextId == old(nextId) + |inputs|
    {
      rows := AnswerRows(sessionId, inputs, nextId, now);
      var bound := nextId + |inputs|;
      ValidTablesGrow(Tables(), nextId, bound);
      PrimaryKeyAppend(answers, rows, AnswerKey, nextId, bound);
      answers := answers + rows;
      nextId := bound;
    }

    /** One multi-row insert into `users`; the unique constraint on `email` must hold. */
    method InsertUsers(newUsers: seq<NewUser>, now: Time) returns (rows: seq<User>)
      requires Valid()
      requires forall i, j :: 0 <= i < j < |newUsers| ==> newUsers[i].email != newUsers[j].email
      requires forall i :: 0 <= i < |newUsers| ==> newUsers[i].email !in EmailsOf(users)
      modifies this`users, this`nextId
      ensures Valid()
      ensures rows == UserRows(newUsers, old(nextId), now)
      ensures users == old(users) + rows && nextId == old(nextId) + |newUsers|
    {
      rows := UserRows(newUsers, nextId, now);
      var bound := nextId + |newUsers|;
      ghost var t := Tables();
      AddUsersKeepsValid(t, nextId, newUsers, now);
      users := users + rows;
      nextId := bound;
      assert Tables() == t.(users := t.users + rows);
    }

    method DeleteAnswersOfSessions(sessionIds: seq<Id>)
      requires Valid()
      modifies this`answers
      ensures Valid()
      ensures answers == AnswersNotOfSessions(old(answers), sessionIds)
    {
      PrimaryKeyFilter(answers, (a: ExamAnswer) => a.sessionId !in sessionIds, AnswerKey, nextId);
      answers := AnswersNotOfSessions(answers, sessionIds);
    }

    method DeleteSessionsOfExam(examId: Id)
      requires Valid()
      modifies this`sessions
      ensures Valid()
      ensures sessions == SessionsNotOfExam(old(sessions), examId)
    {
      PrimaryKeyFilter(sessions, (s: ExamSession) => s.examId != examId, SessionKey, nextId);
      sessions := SessionsNotOfExam(sessions, examId);
    }

    method DeleteOptionsOfQuestions(questionIds: seq<Id>)
      requires Valid()
      modifies this`options
      ensures Valid()
      ensures options == OptionsNotOfQuestions(old(options), questionIds)
    {
      PrimaryKeyFilter(options, (o: QuestionOption) => o.questionId !in questionIds, OptionKey, nextId);
      options := OptionsNotOfQuestions(options, questionIds);
    }

    method DeleteQuestionsOfExam(examId: Id)
      requires Valid()
      modifies this`questions
      ensures Valid()
      ensures questions == QuestionsNotOfExam(old(questions), examId)
    {
      PrimaryKeyFilter(questions, (q: Question) => q.examId != examId, QuestionKey, nextId);
      questions := QuestionsNotOfExam(questions, examId);
    }

    /** `delete from exams where id = ... returning`: the deleted rows are returned. */
    method DeleteExamRows(examId: Id) returns (deleted: seq<Exam>)
      requires Valid()
      modifies this`exams
      ensures Valid()
      ensures exams == ExamsExcept(old(exams), examId)
      ensures |deleted| == 0 <==> ExamById(old(exams), examId).None?
    {
      deleted := Filter(exams, (e: Exam) => e.id == examId);
      if ExamById(exams, examId).Some? {
        assert ExamById(exams, examId).value in deleted;
      }
      if |deleted| > 0 {
        assert deleted[0] in deleted;
      }
      PrimaryKeyFilter(exams, (e: Exam) => e.id != examId, ExamKey, nextId);
      exams := ExamsExcept(exams, examId);
    }

    /** Roll every table back to `t` (a transaction's rollback). */
    method Restore(t: Snapshot)
      requires ValidTables(t, nextId)
      modifies this`users, this`exams, this`questions, this`options, this`sessions, this`answers
      ensures Valid()
      ensures Tables() == t
    {
      users, exams, questions, options, sessions, answers := t.users, t.exams, t.questions, t.options, t.sessions, t.answers;
    }
  }
}
