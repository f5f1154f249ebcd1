/**
 * Exam authoring by an administrator: `POST /exams`, which inserts the exam,
 * then each question followed by its options, and backfills each question's
 * `correctOptionId` from its first option flagged correct; and
 * `GET /exams/:examId`, the detail view that flags each option as correct or
 * not.
 */
module Authoring {
  import opened Schema
  import opened Api
  import opened Tables
  import opened Store
  import opened Grouping
  import opened ExamRows

  // ----- The request body -----

  /**
   * The body of `POST /exams`. A field that is absent is modelled by its falsy
   * value: the empty string, 0, or the empty list.
   */
  datatype ExamInput = ExamInput(
    title: string, description: string, duration: int, startTime: Time, endTime: Time,
    questions: seq<QuestionInput>)

  /** The validation: every field truthy and at least one question. */
  predicate Complete(input: ExamInput) {
    && input.title != ""
    && input.description != ""
    && input.duration != 0
    && input.startTime != 0
    && input.endTime != 0
    && |input.questions| > 0
  }

  // ----- POST /exams -----

  /** The exam row the handler's insert creates. */
  function ExamRow(input: ExamInput, id: Id, now: Time): Exam {
    Exam(id, input.title, input.description, input.duration, input.startTime, input.endTime, now)
  }

  /** The inner loop: the options of one question inserted one after another, in input order. */
  method InsertOptions(db: Database, questionId: Id, inputs: seq<OptionInput>, now: Time)
    returns (createdOptions: seq<QuestionOption>)
    modifies db`options, db`nextId
    ensures createdOptions == OptionRows(questionId, inputs, old(db.nextId), now)
    ensures db.options == old(db.options) + createdOptions
    ensures db.nextId == old(db.nextId) + |inputs|
  {
    createdOptions := [];
    for j := 0 to |inputs|
      invariant createdOptions == OptionRows(questionId, inputs[..j], old(db.nextId), now)
      invariant db.options == old(db.options) + createdOptions
      invariant db.nextId == old(db.nextId) + j
    {
      var option := db.InsertOption(questionId, inputs[j].text, now);
      createdOptions := createdOptions + [option];
    }
    assert inputs[..|inputs|] == inputs;
  }

  /**
   * One turn of the handler's loop: insert the question, then its options,
   * then, when an option is flagged, set the question's `correctOptionId` to
   * the created option at the first flagged position
   * (`createdOptions.find(opt => opt.correct)`).
   */
  method CreateQuestion(db: Database, examId: Id, questionData: QuestionInput, now: Time)
    returns (question: Question, createdOptions: seq<QuestionOption>)
    requires KeysBelow(db.questions, QuestionKey, db.nextId)
    modifies db`questions, db`options, db`nextId
    ensures KeysBelow(db.questions, QuestionKey, db.nextId)
    ensures question == QuestionRow(examId, questionData, old(db.nextId), now)
    ensures createdOptions == OptionRows(old(db.nextId), questionData.options, old(db.nextId) + 1, now)
    ensures db.questions == old(db.questions) + [question]
    ensures db.options == old(db.options) + createdOptions
    ensures db.nextId == old(db.nextId) + 1 + |questionData.options|
  {
    var questionsBefore := db.questions;
    assert forall x :: x in questionsBefore ==> x.id < db.nextId by {
      forall x | x in questionsBefore ensures x.id < db.nextId {
        var k :| 0 <= k < |questionsBefore| && questionsBefore[k] == x;
        assert QuestionKey(questionsBefore[k]) < db.nextId;
      }
    }
    var inserted := db.InsertQuestion(examId, questionData.text, now);
    createdOptions := InsertOptions(db, inserted.id, questionData.options, now);
    // The created options carry the input flags position by position.
    var correct := FindIndex(questionData.options, IsFlagged);
    if correct >= 0 {
      assert createdOptions[correct].id == inserted.id + 1 + correct;
      SetCorrectOptionOfLast(questionsBefore, inserted, createdOptions[correct].id);
      db.UpdateCorrectOption(inserted.id, createdOptions[correct].id);
      question := inserted.(correctOptionId := Some(createdOptions[correct].id));
    } else {
      question := inserted;
    }
    KeysBelowSnoc(questionsBefore, question, QuestionKey, inserted.id, db.nextId);
  }

  /** The handler's `for` loop: each question in turn, with its options and its correct option. */
  method CreateQuestions(db: Database, examId: Id, questionsList: seq<QuestionInput>, now: Time)
    requires db.Valid()
    modifies db`questions, db`options, db`nextId
    ensures db.Valid()
    ensures var b := Build(examId, questionsList, |questionsList|, old(db.nextId), now);
      && db.questions == old(db.questions) + b.questions
      && db.options == old(db.options) + b.options
      && db.nextId == b.next
  {
    ghost var tables := db.Tables();
    ghost var built := Build(examId, questionsList, 0, db.nextId, now);
    for i := 0 to |questionsList|
      invariant KeysBelow(db.questions, QuestionKey, db.nextId)
      invariant built == Build(examId, questionsList, i, old(db.nextId), now)
      invariant db.questions == old(db.questions) + built.questions
      invariant db.options == old(db.options) + built.options
      invariant db.nextId == built.next
    {
      ghost var pre := built;
      var question, rows := CreateQuestion(db, examId, questionsList[i], now);
      ExtendWith(pre, examId, questionsList[i], now, question, rows);
      built := Extend(pre, examId, questionsList[i], now);
      AppendAssoc(old(db.questions), pre.questions, [question]);
      AppendAssoc(old(db.options), pre.options, rows);
    }
    BuildKeepsValid(tables, old(db.nextId), examId, questionsList, |questionsList|, now);
    assert db.Tables() == tables.(questions := tables.questions + built.questions, options := tables.options + built.options);
  }

  /**
   * `POST /exams`: validation, then one insert for the exam, then its
   * questions. The response carries the exam row as inserted.
   */
  method CreateExam(db: Database, input: ExamInput, now: Time) returns (r: Result<Exam>)
    requires db.Valid()
    modifies db`exams, db`questions, db`options, db`nextId
    ensures db.Valid()
    ensures !Complete(input) ==>
      && r == Failure(ValidationError)
      && db.exams == old(db.exams) && db.questions == old(db.questions)
      && db.options == old(db.options) && db.nextId == old(db.nextId)
    ensures Complete(input) ==>
      var exam := ExamRow(input, old(db.nextId), now);
      var b := Build(exam.id, input.questions, |input.questions|, exam.id + 1, now);
      && r == Success(exam)
      && db.exams == old(db.exams) + [exam]
      && db.questions == old(db.questions) + b.questions
      && db.options == old(db.options) + b.options
      && db.nextId == b.next
  {
    if !Complete(input) {
      return Failure(ValidationError);
    }
    var exam := db.InsertExam(input.title, input.description, input.duration, input.startTime, input.endTime, now);
    CreateQuestions(db, exam.id, input.questions, now);
    return Success(exam);
  }

  // ----- GET /exams/:examId -----

  /** An option as the administrator sees it. */
  datatype AdminOptionView = AdminOptionView(id: Id, text: string, correct: bool)

  /** `correct: option.id === question.correctOptionId` (never true when that column is null). */
  function AdminView(q: Question, o: QuestionOption): AdminOptionView {
    AdminOptionView(o.id, o.text, q.correctOptionId == Some(o.id))
  }

  /** The exam and its questions, each with its own options, flagged, in table order. */
  method AdminExamDetail(db: Database, examId: Id) returns (r: Result<ExamView<AdminOptionView>>)
    requires db.Valid()
    ensures r.Failure? <==> ExamById(db.exams, examId).None?
    ensures r.Failure? ==> r.error == NotFound
    ensures r.Success? ==>
      r.value == ExamView(ExamById(db.exams, examId).value, Grouped(QuestionsOfExam(db.questions, examId), db.options, AdminView))
  {
    var exam := ExamById(db.exams, examId);
    if exam.None? {
      return Failure(NotFound);
    }
    var examQuestions := QuestionsOfExam(db.questions, examId);
    ExamQuestionsDistinct(db.questions, examId, db.nextId);
    var questionIds := QuestionIds(examQuestions);
    var options := OptionsOfQuestions(db.options, questionIds);
    var groups := GroupOptions(examQuestions, options, AdminView);
    GroupedOverFetched(examQuestions, questionIds, db.options, AdminView);
    return Success(ExamView(exam.value, groups));
  }

  /**
   * Option ids are a primary key, so in every group at most one option is
   * flagged correct, and it is flagged exactly when its id is the question's
   * `correctOptionId`.
   */
  lemma AtMostOneFlagged(questions: seq<Question>, options: seq<QuestionOption>, bound: Id, i: nat, k: nat, m: nat)
    requires PrimaryKey(options, OptionKey, bound)
    requires i < |questions|
    requires var g := Grouped(questions, options, AdminView)[i];
      k < |g.options| && m < |g.options| && g.options[k].correct && g.options[m].correct
    ensures k == m
  {
    var q := questions[i];
    var own := Filter(options, OptionOf(q.id));
    PrimaryKeyFilter(options, OptionOf(q.id), OptionKey, bound);
    assert own[k].id == q.correctOptionId.value == own[m].id;
    PrimaryKeyUnique(own, OptionKey, bound, k, m);
  }
}
