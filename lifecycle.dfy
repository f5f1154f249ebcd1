/**
 * The life of a (user, exam) pair's session under any sequence of `start` and
 * `submit` calls handled one after another: no session, then one active
 * session, then that session completed, for good. `Step` is the change each
 * call makes to the session table, exactly as the contracts of
 * `ExamRoutes.Start` and `ExamRoutes.Submit` state it.
 */
module Lifecycle {
  import opened Schema
  import opened Api
  import opened Tables
  import opened Store
  import opened ExamRoutes

  /** No two sessions share a (user, exam) pair. */
  predicate OneSessionPerPair(sessions: seq<ExamSession>) {
    forall i, j :: 0 <= i < j < |sessions| ==>
      sessions[i].examId != sessions[j].examId || sessions[i].userId != sessions[j].userId
  }

  /** The session table and the next fresh id. */
  datatype SessionTable = SessionTable(sessions: seq<ExamSession>, nextId: Id)

  /** A request: `start`, or `submit` with its number of answers and whether the database accepts them. */
  datatype Call =
    | StartCall(examId: Id, userId: Id, now: Time)
    | SubmitCall(examId: Id, userId: Id, now: Time, answerCount: nat, accepted: bool)

  /** The change one call makes to the session table. */
  function Step(exams: seq<Exam>, t: SessionTable, c: Call): SessionTable {
    match c
    case StartCall(examId, userId, now) =>
      if StartGuard(exams, t.sessions, examId, userId, now).None?
      then SessionTable(t.sessions + [NewSession(t.nextId, examId, userId, now)], t.nextId + 1)
      else t
    case SubmitCall(examId, userId, now, answerCount, accepted) =>
      var active := FindSession(t.sessions, examId, userId, false);
      if active.Some? && accepted
      then SessionTable(CompleteSession(t.sessions, active.value.id, now), t.nextId + answerCount)
      else t
  }

  /** The calls handled in order. */
  function Run(exams: seq<Exam>, t: SessionTable, calls: seq<Call>): SessionTable
    decreases |calls|
  {
    if calls == [] then t
    else Step(exams, Run(exams, t, calls[..|calls| - 1]), calls[|calls| - 1])
  }

  // ----- The invariant -----

  /** A successful `start` found no session of its pair, so it cannot create a second one. */
  lemma StartKeepsOneSessionPerPair(exams: seq<Exam>, sessions: seq<ExamSession>, examId: Id, userId: Id, now: Time, id: Id)
    requires OneSessionPerPair(sessions)
    requires StartGuard(exams, sessions, examId, userId, now).None?
    ensures OneSessionPerPair(sessions + [NewSession(id, examId, userId, now)])
  {
    var s := sessions + [NewSession(id, examId, userId, now)];
    forall i, j | 0 <= i < j < |s| ensures s[i].examId != s[j].examId || s[i].userId != s[j].userId {
      if j == |sessions| {
        assert s[i] in sessions;
      } else {
        assert s[i] == sessions[i] && s[j] == sessions[j];
      }
    }
  }

  /** Completing a session changes no session's pair. */
  lemma CompleteKeepsOneSessionPerPair(sessions: seq<ExamSession>, sessionId: Id, now: Time)
    requires OneSessionPerPair(sessions)
    ensures OneSessionPerPair(CompleteSession(sessions, sessionId, now))
  {
    var s := CompleteSession(sessions, sessionId, now);
    assert forall i :: 0 <= i < |s| ==> s[i].examId == sessions[i].examId && s[i].userId == sessions[i].userId;
  }

  lemma StepKeepsOneSessionPerPair(exams: seq<Exam>, t: SessionTable, c: Call)
    requires OneSessionPerPair(t.sessions)
    ensures OneSessionPerPair(Step(exams, t, c).sessions)
  {
    match c
    case StartCall(examId, userId, now) =>
      if StartGuard(exams, t.sessions, examId, userId, now).None? {
        StartKeepsOneSessionPerPair(exams, t.sessions, examId, userId, now, t.nextId);
      }
    case SubmitCall(examId, userId, now, _, accepted) =>
      var active := FindSession(t.sessions, examId, userId, false);
      if active.Some? && accepted {
        CompleteKeepsOneSessionPerPair(t.sessions, active.value.id, now);
      }
  }

  /** Sequential `start`/`submit` calls never give a (user, exam) pair a second session. */
  lemma {:induction false} RunKeepsOneSessionPerPair(exams: seq<Exam>, t: SessionTable, calls: seq<Call>)
    requires OneSessionPerPair(t.sessions)
    ensures OneSessionPerPair(Run(exams, t, calls).sessions)
    decreases |calls|
  {
    if calls != [] {
      RunKeepsOneSessionPerPair(exams, t, calls[..|calls| - 1]);
      StepKeepsOneSessionPerPair(exams, Run(exams, t, calls[..|calls| - 1]), calls[|calls| - 1]);
    }
  }

  /** Starting from an empty session table. */
  lemma NeverTwoSessions(exams: seq<Exam>, nextId: Id, calls: seq<Call>)
    ensures OneSessionPerPair(Run(exams, SessionTable([], nextId), calls).sessions)
  {
    RunKeepsOneSessionPerPair(exams, SessionTable([], nextId), calls);
  }

  // ----- The pair's state machine -----

  datatype PairState = NoSession | Active | Completed

  function StateOf(sessions: seq<ExamSession>, examId: Id, userId: Id): PairState {
    if FindSession(sessions, examId, userId, true).Some? then Completed
    else if FindSession(sessions, examId, userId, false).Some? then Active
    else NoSession
  }

  function Rank(p: PairState): nat {
    match p
    case NoSession => 0
    case Active => 1
    case Completed => 2
  }

  /** `start` succeeds exactly for a pair with no session, inside the closed window of an existing exam. */
  lemma StartSucceedsIff(exams: seq<Exam>, sessions: seq<ExamSession>, examId: Id, userId: Id, now: Time)
    ensures StartGuard(exams, sessions, examId, userId, now).None? <==>
      && StateOf(sessions, examId, userId) == NoSession
      && ExamById(exams, examId).Some?
      && ExamById(exams, examId).value.startTime <= now <= ExamById(exams, examId).value.endTime
  {
    if FindPairSession(sessions, examId, userId).Some? {
      var s := FindPairSession(sessions, examId, userId).value;
      assert FindSession(sessions, examId, userId, s.completed).Some?;
    }
  }

  /** Inside the window, a second `start` after a successful one is refused with `SESSION_EXISTS`. */
  lemma SecondStartRefused(exams: seq<Exam>, sessions: seq<ExamSession>, examId: Id, userId: Id, now: Time, id: Id, later: Time)
    requires StartGuard(exams, sessions, examId, userId, now).None?
    requires ExamById(exams, examId).value.startTime <= later <= ExamById(exams, examId).value.endTime
    ensures StartGuard(exams, sessions + [NewSession(id, examId, userId, now)], examId, userId, later) == Some(SessionExists)
  {
    var s := sessions + [NewSession(id, examId, userId, now)];
    assert s[|sessions|] in s;
  }

  /** Under the invariant, a pair names at most one row. */
  lemma SamePairSameRow(sessions: seq<ExamSession>, i: nat, j: nat)
    requires OneSessionPerPair(sessions)
    requires i < |sessions| && j < |sessions|
    requires sessions[i].examId == sessions[j].examId && sessions[i].userId == sessions[j].userId
    ensures i == j
  {
  }

  /** A successful `submit` leaves its pair completed with no active session, so a second `submit` finds none. */
  lemma SubmitCompletes(sessions: seq<ExamSession>, examId: Id, userId: Id, now: Time)
    requires OneSessionPerPair(sessions)
    requires FindSession(sessions, examId, userId, false).Some?
    ensures var active := FindSession(sessions, examId, userId, false).value;
      var s := CompleteSession(sessions, active.id, now);
      && StateOf(s, examId, userId) == Completed
      && FindSession(s, examId, userId, false).None?
  {
    var active := FindSession(sessions, examId, userId, false).value;
    var s := CompleteSession(sessions, active.id, now);
    var k :| 0 <= k < |sessions| && sessions[k] == active;
    assert s[k].examId == examId && s[k].userId == userId && s[k].completed;
    assert s[k] in s;
    forall m | 0 <= m < |s| && s[m].examId == examId && s[m].userId == userId
      ensures s[m].completed
    {
      SamePairSameRow(sessions, m, k);
    }
  }

  /** After a completed session exists, `start` inside the window answers `EXAM_ALREADY_TAKEN`. */
  lemma CompletedIsFinal(exams: seq<Exam>, sessions: seq<ExamSession>, examId: Id, userId: Id, now: Time)
    requires StateOf(sessions, examId, userId) == Completed
    requires ExamById(exams, examId).Some?
    requires ExamById(exams, examId).value.startTime <= now <= ExamById(exams, examId).value.endTime
    ensures StartGuard(exams, sessions, examId, userId, now) == Some(ExamAlreadyTaken)
  {
  }

  /** Completing a session keeps every completed session completed. */
  lemma CompletePreservesCompleted(sessions: seq<ExamSession>, sessionId: Id, now: Time, examId: Id, userId: Id)
    requires FindSession(sessions, examId, userId, true).Some?
    ensures FindSession(CompleteSession(sessions, sessionId, now), examId, userId, true).Some?
  {
    var s := CompleteSession(sessions, sessionId, now);
    var x := FindSession(sessions, examId, userId, true).value;
    var k :| 0 <= k < |sessions| && sessions[k] == x;
    assert s[k] in s;
  }

  /** Appending a session moves no pair's state back. */
  lemma AppendNeverGoesBack(sessions: seq<ExamSession>, s: ExamSession, examId: Id, userId: Id)
    ensures Rank(StateOf(sessions, examId, userId)) <= Rank(StateOf(sessions + [s], examId, userId))
  {
    FindAppend(sessions, [s], (x: ExamSession) => x.examId == examId && x.userId == userId && x.completed == true);
    FindAppend(sessions, [s], (x: ExamSession) => x.examId == examId && x.userId == userId && x.completed == false);
  }

  /** Completing a session moves no pair's state back. */
  lemma CompleteNeverGoesBack(sessions: seq<ExamSession>, sessionId: Id, now: Time, examId: Id, userId: Id)
    ensures Rank(StateOf(sessions, examId, userId)) <= Rank(StateOf(CompleteSession(sessions, sessionId, now), examId, userId))
  {
    var after := CompleteSession(sessions, sessionId, now);
    if FindSession(sessions, examId, userId, true).Some? {
      CompletePreservesCompleted(sessions, sessionId, now, examId, userId);
    } else if FindSession(sessions, examId, userId, false).Some? {
      var x := FindSession(sessions, examId, userId, false).value;
      var k :| 0 <= k < |sessions| && sessions[k] == x;
      assert after[k] in after;
    }
  }

  /** Every call moves each pair's state forward (no session, active, completed) or leaves it. */
  lemma StepNeverGoesBack(exams: seq<Exam>, t: SessionTable, c: Call, examId: Id, userId: Id)
    ensures Rank(StateOf(t.sessions, examId, userId)) <= Rank(StateOf(Step(exams, t, c).sessions, examId, userId))
  {
    match c
    case StartCall(e, u, now) =>
      if StartGuard(exams, t.sessions, e, u, now).None? {
        AppendNeverGoesBack(t.sessions, NewSession(t.nextId, e, u, now), examId, userId);
      }
    case SubmitCall(e, u, now, _, accepted) =>
      var active := FindSession(t.sessions, e, u, false);
      if active.Some? && accepted {
        CompleteNeverGoesBack(t.sessions, active.value.id, now, examId, userId);
      }
  }

  /** The time-window asymmetry: at either end of its window an exam can be started but is not listed. */
  lemma WindowEndsStartableButUnlisted(exams: seq<Exam>, sessions: seq<ExamSession>, examId: Id, userId: Id)
    requires ExamById(exams, examId).Some?
    requires ExamById(exams, examId).value.startTime <= ExamById(exams, examId).value.endTime
    requires StateOf(sessions, examId, userId) == NoSession
    ensures var e := ExamById(exams, examId).value;
      && StartGuard(exams, sessions, examId, userId, e.startTime).None?
      && StartGuard(exams, sessions, examId, userId, e.endTime).None?
      && e !in OpenExams(exams, e.startTime)
      && e !in OpenExams(exams, e.endTime)
  {
    var e := ExamById(exams, examId).value;
    StartSucceedsIff(exams, sessions, examId, userId, e.startTime);
    StartSucceedsIff(exams, sessions, examId, userId, e.endTime);
  }
}
