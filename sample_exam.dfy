/**
 * `POST /create-sample-exam`: the built-in programming quiz inserted as an
 * exam open for seven days from now. Each question is inserted, then its
 * options, then its `correctOptionId` is set to the created option at the
 * position `findIndex` returns for the first flagged option. A question with
 * no flagged option makes that index -1, the lookup yields nothing, reading
 * its id throws, and the handler answers with a server error, leaving the
 * rows already inserted in place.
 */
module SampleExam {
  import opened Schema
  import opened Api
  import opened Tables
  import opened Store
  import opened ExamRows
  import opened Authoring

  /** A quiz: the exam's fields and its questions. */
  datatype Quiz = Quiz(title: string, description: string, duration: int, questions: seq<QuestionInput>)

  /** The built-in quiz. */
  const SampleQuiz := Quiz(
    "Sample Programming Quiz",
    "A basic quiz about programming concepts",
    30,
    [ QuestionInput("What is TypeScript?", [
        OptionInput("A JavaScript framework", false),
        OptionInput("A superset of JavaScript with static typing", true),
        OptionInput("A new programming language", false),
        OptionInput("A JavaScript runtime", false)]),
      QuestionInput("What does REST stand for?", [
        OptionInput("React Express Server Time", false),
        OptionInput("Representational State Transfer", true),
        OptionInput("Remote Endpoint Service Transfer", false),
        OptionInput("Regular Expression State Test", false)]),
      QuestionInput("Which of these is NOT a JavaScript data type?", [
        OptionInput("undefined", false),
        OptionInput("boolean", false),
        OptionInput("string", false),
        OptionInput("integer", true)]) ])

  /** Seven days in milliseconds, the length of the sample exam's window. */
  const SevenDays: int := 7 * 24 * 60 * 60 * 1000

  const CreatedMessage := "Sample exam created successfully"

  /** The exam fields the response carries. */
  datatype SampleReply = SampleReply(message: string, id: Id, title: string, description: string, duration: int)

  /** The exam row inserted for a quiz at time `now`. */
  function SampleExamRow(quiz: Quiz, id: Id, now: Time): (e: Exam)
    ensures e.id == id && e.title == quiz.title && e.duration == quiz.duration
    ensures e.startTime == now && e.endTime - e.startTime == 604800000
  {
    Exam(id, quiz.title, quiz.description, quiz.duration, now, now + SevenDays, now)
  }

  /**
   * How many questions of a list the loop builds: all of them, or those up to
   * and including the first one without a flagged option.
   */
  function Attempted(questionsList: seq<QuestionInput>): (n: nat)
    ensures n <= |questionsList|
  {
    var stop := FindIndex(questionsList, Unflagged);
    if stop < 0 then |questionsList| else stop + 1
  }

  /** A question whose options have none flagged correct. */
  predicate Unflagged(q: QuestionInput) {
    FindIndex(q.options, IsFlagged) < 0
  }

  /**
   * One turn of the loop: the question, then its options, then the lookup of
   * the created option at the flagged position, which fails when there is
   * none; otherwise `correctOptionId` is set. Either way the rows are those
   * of the general construction, since an unflagged question keeps its null
   * `correctOptionId`.
   */
  method SampleQuestion(db: Database, examId: Id, questionData: QuestionInput, now: Time)
    returns (ok: bool, question: Question, createdOptions: seq<QuestionOption>)
    requires KeysBelow(db.questions, QuestionKey, db.nextId)
    modifies db`questions, db`options, db`nextId
    ensures ok <==> !Unflagged(questionData)
    ensures KeysBelow(db.questions, QuestionKey, db.nextId)
    ensures question == QuestionRow(examId, questionData, old(db.nextId), now)
    ensures createdOptions == OptionRows(old(db.nextId), questionData.options, old(db.nextId) + 1, now)
    ensures db.questions == old(db.questions) + [question]
    ensures db.options == old(db.options) + createdOptions
    ensures db.nextId == old(db.nextId) + 1 + |questionData.options|
  {
    var questionsBefore := db.questions;
    assert forall x :: x in questionsBefore ==> x.id < db.nextId by {
      forall x | x in questionsBefore ensures x.id < db.nextId {
        var k :| 0 <= k < |questionsBefore| && questionsBefore[k] == x;
        assert QuestionKey(questionsBefore[k]) < db.nextId;
      }
    }
    var inserted := db.InsertQuestion(examId, questionData.text, now);
    createdOptions := InsertOptions(db, inserted.id, questionData.options, now);
    question := inserted;
    var correct := FindIndex(questionData.options, IsFlagged);
    if correct < 0 {
      // `createdOptions[-1]` is undefined, and reading its `id` throws.
      ok := false;
    } else {
      assert createdOptions[correct].id == inserted.id + 1 + correct;
      SetCorrectOptionOfLast(questionsBefore, inserted, createdOptions[correct].id);
      db.UpdateCorrectOption(inserted.id, createdOptions[correct].id);
      question := inserted.(correctOptionId := Some(createdOptions[correct].id));
      ok := true;
    }
    KeysBelowSnoc(questionsBefore, question, QuestionKey, inserted.id, db.nextId);
  }

  /**
   * The handler's `for` loop: questions are built in order until one has no
   * flagged option; `n` counts those built, the failing one included.
   */
  /** One more question with a flagged option extends the prefix the loop has passed. */
  lemma FlaggedPrefixGrows(questionsList: seq<QuestionInput>, n: nat)
    requires n < |questionsList|
    requires forall j :: 0 <= j < n ==> !Unflagged(questionsList[j])
    requires !Unflagged(questionsList[n])
    ensures forall j :: 0 <= j < n + 1 ==> !Unflagged(questionsList[j])
  {
  }

  method SampleLoop(db: Database, examId: Id, questionsList: seq<QuestionInput>, now: Time) returns (n: nat, ok: bool)
    requires KeysBelow(db.questions, QuestionKey, db.nextId)
    modifies db`questions, db`options, db`nextId
    ensures n <= |questionsList|
    ensures forall j :: 0 <= j < n && (ok || j < n - 1) ==> !Unflagged(questionsList[j])
    ensures ok ==> n == |questionsList|
    ensures !ok ==> 0 < n && Unflagged(questionsList[n - 1])
    ensures var b := Build(examId, questionsList, n, old(db.nextId), now);
      && db.questions == old(db.questions) + b.questions
      && db.options == old(db.options) + b.options
      && db.nextId == b.next
  {
    ghost var built := Build(examId, questionsList, 0, db.nextId, now);
    n := 0;
    ok := true;
    while n < |questionsList|
      invariant 0 <= n <= |questionsList|
      invariant forall j :: 0 <= j < n ==> !Unflagged(questionsList[j])
      invariant KeysBelow(db.questions, QuestionKey, db.nextId)
      invariant built == Build(examId, questionsList, n, old(db.nextId), now)
      invariant db.questions == old(db.questions) + built.questions
      invariant db.options == old(db.options) + built.options
      invariant db.nextId == built.next
    {
      ghost var pre := built;
      var questionOk, question, rows := SampleQuestion(db, examId, questionsList[n], now);
      ExtendWith(pre, examId, questionsList[n], now, question, rows);
      built := Extend(pre, examId, questionsList[n], now);
      AppendAssoc(old(db.questions), pre.questions, [question]);
      AppendAssoc(old(db.options), pre.options, rows);
      if !questionOk {
        n, ok := n + 1, false;
        return;
      }
      FlaggedPrefixGrows(questionsList, n);
      n := n + 1;
    }
  }

  /**
   * The loop over all the questions. When every question has a flagged
   * option, the rows of all of them are added; otherwise the loop stops at
   * the first unflagged question, whose rows (with a null `correctOptionId`)
   * are the last ones added.
   */
  method SampleQuestions(db: Database, examId: Id, questionsList: seq<QuestionInput>, now: Time) returns (ok: bool)
    requires db.Valid()
    modifies db`questions, db`options, db`nextId
    ensures db.Valid()
    ensures ok <==> FindIndex(questionsList, Unflagged) < 0
    ensures var b := Build(examId, questionsList, Attempted(questionsList), old(db.nextId), now);
      && db.questions == old(db.questions) + b.questions
      && db.options == old(db.options) + b.options
      && db.nextId == b.next
  {
    ghost var tables := db.Tables();
    var n;
    n, ok := SampleLoop(db, examId, questionsList, now);
    StopPosition(questionsList, n, ok);
    BuildKeepsValid(tables, old(db.nextId), examId, questionsList, n, now);
    ghost var b := Build(examId, questionsList, n, old(db.nextId), now);
    assert db.Tables() == tables.(questions := tables.questions + b.questions, options := tables.options + b.options);
  }

  /** Where the loop stops, stated with `FindIndex`. */
  lemma StopPosition(questionsList: seq<QuestionInput>, n: nat, ok: bool)
    requires n <= |questionsList|
    requires forall j :: 0 <= j < n && (ok || j < n - 1) ==> !Unflagged(questionsList[j])
    requires ok ==> n == |questionsList|
    requires !ok ==> 0 < n && Unflagged(questionsList[n - 1])
    ensures ok <==> FindIndex(questionsList, Unflagged) < 0
    ensures n == Attempted(questionsList)
  {
    if !ok {
      FindIndexIsFirst(questionsList, Unflagged, n - 1);
    }
  }

  /** `FindIndex` returns the first position that satisfies `p`. */
  lemma FindIndexIsFirst<T>(s: seq<T>, p: T -> bool, i: nat)
    requires i < |s| && p(s[i])
    requires forall j :: 0 <= j < i ==> !p(s[j])
    ensures FindIndex(s, p) == i
  {
  }

  /**
   * Builds a quiz as the handler does: the exam row, then its questions. A
   * question without a flagged option is a server error; the exam row and the
   * rows of the questions up to and including that one stay in the tables.
   */
  method CreateFromQuiz(db: Database, quiz: Quiz, now: Time) returns (r: Result<SampleReply>)
    requires db.Valid()
    modifies db`exams, db`questions, db`options, db`nextId
    ensures db.Valid()
    ensures var exam := SampleExamRow(quiz, old(db.nextId), now);
      && db.exams == old(db.exams) + [exam]
      && (FindIndex(quiz.questions, Unflagged) < 0 ==>
            r == Success(SampleReply(CreatedMessage, exam.id, exam.title, exam.description, exam.duration)))
      && (0 <= FindIndex(quiz.questions, Unflagged) ==> r == Failure(ServerError))
    ensures var b := Build(old(db.nextId), quiz.questions, Attempted(quiz.questions), old(db.nextId) + 1, now);
      && db.questions == old(db.questions) + b.questions
      && db.options == old(db.options) + b.options
      && db.nextId == b.next
  {
    var exam := db.InsertExam(quiz.title, quiz.description, quiz.duration, now, now + SevenDays, now);
    var ok := SampleQuestions(db, exam.id, quiz.questions, now);
    if !ok {
      return Failure(ServerError);
    }
    return Success(SampleReply(CreatedMessage, exam.id, exam.title, exam.description, exam.duration));
  }

  /** The positions of the correct options in the built-in quiz. */
  const SampleCorrect: seq<nat> := [1, 1, 3]

  /**
   * The built-in quiz has three questions, each with four options of which
   * exactly one is flagged correct, at the positions `SampleCorrect` lists.
   */
  lemma SampleQuizShape()
    ensures |SampleQuiz.questions| == 3
    ensures forall i :: 0 <= i < 3 ==>
      var options := SampleQuiz.questions[i].options;
      && |options| == 4
      && FindIndex(options, IsFlagged) == SampleCorrect[i]
      && forall k :: 0 <= k < 4 ==> (options[k].correct <==> k == SampleCorrect[i])
  {
    var qs := SampleQuiz.questions;
    forall i | 0 <= i < 3
      ensures FindIndex(qs[i].options, IsFlagged) == SampleCorrect[i]
    {
      FindIndexIsFirst(qs[i].options, IsFlagged, SampleCorrect[i]);
    }
  }

  /** No question of the built-in quiz lacks a flagged option, so the loop builds all three. */
  lemma SampleQuizFlagged()
    ensures FindIndex(SampleQuiz.questions, Unflagged) < 0
    ensures Attempted(SampleQuiz.questions) == 3
  {
    SampleQuizShape();
    assert forall i :: 0 <= i < |SampleQuiz.questions| ==> !Unflagged(SampleQuiz.questions[i]);
  }

  /**
   * The handler: the built-in quiz always succeeds, with the exam open from
   * now for seven days and the rows of its questions added
   * (`SampleQuizFlagged`: all three of them).
   */
  method CreateSampleExam(db: Database, now: Time) returns (r: Result<SampleReply>)
    requires db.Valid()
    modifies db`exams, db`questions, db`options, db`nextId
    ensures db.Valid()
    ensures var exam := SampleExamRow(SampleQuiz, old(db.nextId), now);
      && db.exams == old(db.exams) + [exam]
      && r == Success(SampleReply(CreatedMessage, exam.id, SampleQuiz.title, SampleQuiz.description, 30))
    ensures var b := Build(old(db.nextId), SampleQuiz.questions, Attempted(SampleQuiz.questions), old(db.nextId) + 1, now);
      && db.questions == old(db.questions) + b.questions
      && db.options == old(db.options) + b.options
      && db.nextId == b.next
  {
    SampleQuizFlagged();
    r := CreateFromQuiz(db, SampleQuiz, now);
  }

  /** Every question of the quiz has four options, as the built-in ones do. */
  predicate FourOptionsEach(questionsList: seq<QuestionInput>) {
    forall j :: 0 <= j < |questionsList| ==> |questionsList[j].options| == 4
  }

  /** Before question `i` come four option rows per earlier question. */
  lemma {:induction false} FourOptionsBefore(examId: Id, questionsList: seq<QuestionInput>, i: nat, first: Id, now: Time)
    requires i <= |questionsList|
    requires FourOptionsEach(questionsList)
    ensures |Build(examId, questionsList, i, first, now).options| == 4 * i
    decreases i
  {
    if i > 0 {
      FourOptionsBefore(examId, questionsList, i - 1, first, now);
    }
  }

  /**
   * With four options per question, question `i`'s correct option is row
   * `4 * i + k` of the created options, `k` its first flagged position: an
   * option of that question with the flagged text.
   */
  lemma FlaggedOptionLands(examId: Id, questionsList: seq<QuestionInput>, n: nat, first: Id, now: Time, i: nat)
    requires i < n <= |questionsList|
    requires FourOptionsEach(questionsList)
    requires 0 <= FindIndex(questionsList[i].options, IsFlagged)
    ensures var b := Build(examId, questionsList, n, first, now);
      var q := b.questions[i];
      var k := FindIndex(questionsList[i].options, IsFlagged);
      && q.correctOptionId.Some?
      && 4 * i + k < |b.options|
      && var o := b.options[4 * i + k];
      && o.id == q.correctOptionId.value
      && o.questionId == q.id
      && o.text == questionsList[i].options[k].text
  {
    var k := FindIndex(questionsList[i].options, IsFlagged);
    assert questionsList[i].options[k].correct;
    BuildCorrectOption(examId, questionsList, n, first, now, i);
    FourOptionsBefore(examId, questionsList, i, first, now);
    var b := Build(examId, questionsList, n, first, now);
    assert b.options[|Build(examId, questionsList, i, first, now).options| + k] == b.options[4 * i + k];
  }

  /**
   * In the rows built for the built-in quiz, each question's `correctOptionId`
   * names the option created at its flagged position, which belongs to that
   * question and carries the flagged text.
   */
  lemma SampleCorrectOptions(examId: Id, first: Id, now: Time, i: nat)
    requires i < 3
    ensures var qs := SampleQuiz.questions;
      var b := Build(examId, qs, 3, first, now);
      var q := b.questions[i];
      && q.correctOptionId.Some?
      && var o := b.options[4 * i + SampleCorrect[i]];
      && o.id == q.correctOptionId.value
      && o.questionId == q.id
      && o.text == qs[i].options[SampleCorrect[i]].text
  {
    var qs := SampleQuiz.questions;
    SampleQuizShape();
    assert FourOptionsEach(qs);
    assert FindIndex(qs[i].options, IsFlagged) == SampleCorrect[i];
    FlaggedOptionLands(examId, qs, 3, first, now, i);
  }
}
