/**
 * The two ways the handlers count correct answers, and the percentage they
 * derive from the count.
 *
 * - By question (the self-service results): every question of the exam is
 *   looked up in the session's answers; the first answer found for it decides.
 * - By answer (both admin results handlers): every submitted answer is looked
 *   up among the exam's questions, so a question answered twice counts twice
 *   and an answer to a question outside the exam counts as incorrect.
 */
module Scoring {
  import opened Schema
  import opened Tables
  import opened Store

  // ----- Percentages -----

  /** The JavaScript number `(correct / total) * 100`: NaN for 0/0, Infinity for n/0. */
  datatype Percentage = Finite(value: real) | NaN | Infinity

  function Percent(correct: nat, total: nat): (p: Percentage)
    ensures p.Finite? <==> total > 0
    ensures p.Finite? ==> p.value * total as real == 100.0 * correct as real
    ensures p.NaN? <==> total == 0 && correct == 0
  {
    if total == 0 then (if correct == 0 then NaN else Infinity)
    else Finite(correct as real / total as real * 100.0)
  }

  /** The per-user admin formula `total > 0 ? (correct / total) * 100 : 0`. */
  function GuardedPercent(correct: nat, total: nat): (p: real)
    ensures total == 0 ==> p == 0.0
    ensures total > 0 ==> Percent(correct, total) == Finite(p)
  {
    if total > 0 then correct as real / total as real * 100.0 else 0.0
  }

  /** A count within the total gives a percentage between 0 and 100. */
  lemma PercentBounds(correct: nat, total: nat)
    requires 0 < total && correct <= total
    ensures 0.0 <= Percent(correct, total).value <= 100.0
  {
    var r := correct as real / total as real;
    assert r * total as real == correct as real;
    assert r <= 1.0;
  }

  // ----- Counting by question (self-service results) -----

  /** A question counts iff its first answer selects its correct option (exact id equality). */
  predicate AnsweredCorrectly(q: Question, answers: seq<ExamAnswer>) {
    var a := FirstAnswerFor(answers, q.id);
    a.Some? && q.correctOptionId == Some(a.value.selectedOptionId)
  }

  /** The number of questions answered correctly. */
  function CorrectByQuestion(questions: seq<Question>, answers: seq<ExamAnswer>): (n: nat)
    ensures n <= |questions|
    decreases |questions|
  {
    if questions == [] then 0
    else
      CorrectByQuestion(questions[..|questions| - 1], answers)
      + (if AnsweredCorrectly(questions[|questions| - 1], answers) then 1 else 0)
  }

  /** The `forEach` over the exam's questions that increments `correctAnswers`. */
  method CountCorrectByQuestion(questions: seq<Question>, answers: seq<ExamAnswer>) returns (correct: nat)
    ensures correct == CorrectByQuestion(questions, answers)
    ensures correct <= |questions|
  {
    correct := 0;
    for i := 0 to |questions|
      invariant correct == CorrectByQuestion(questions[..i], answers)
    {
      assert questions[..i + 1][..i] == questions[..i];
      var answer := FirstAnswerFor(answers, questions[i].id);
      if answer.Some? && questions[i].correctOptionId == Some(answer.value.selectedOptionId) {
        correct := correct + 1;
      }
    }
    assert questions[..|questions|] == questions;
  }

  /** The number of questions whose `correctOptionId` is set. */
  function KeyedQuestions(questions: seq<Question>): (n: nat)
    decreases |questions|
  {
    if questions == [] then 0
    else KeyedQuestions(questions[..|questions| - 1]) + (if questions[|questions| - 1].correctOptionId.Some? then 1 else 0)
  }

  /** A question whose `correctOptionId` is null is never counted, whatever is answered. */
  lemma {:induction false} UnkeyedNeverCorrect(questions: seq<Question>, answers: seq<ExamAnswer>)
    ensures CorrectByQuestion(questions, answers) <= KeyedQuestions(questions)
    decreases |questions|
  {
    if questions != [] {
      UnkeyedNeverCorrect(questions[..|questions| - 1], answers);
    }
  }

  /**
   * Answers after the first for a question, and answers to questions outside
   * the exam, never change the count: appending answers that are all of that
   * kind leaves it as it was.
   */
  lemma {:induction false} LaterAnswersIgnored(questions: seq<Question>, answers: seq<ExamAnswer>, extra: seq<ExamAnswer>)
    requires forall x :: x in extra ==>
      FirstAnswerFor(answers, x.questionId).Some? || QuestionById(questions, x.questionId).None?
    ensures CorrectByQuestion(questions, answers + extra) == CorrectByQuestion(questions, answers)
    decreases |questions|
  {
    if questions != [] {
      var init, q := questions[..|questions| - 1], questions[|questions| - 1];
      forall x | x in extra
        ensures FirstAnswerFor(answers, x.questionId).Some? || QuestionById(init, x.questionId).None?
      {
        if QuestionById(init, x.questionId).Some? {
          assert QuestionById(init, x.questionId).value in questions;
        }
      }
      LaterAnswersIgnored(init, answers, extra);
      FindAppend(answers, extra, AnswerTo(q.id));
    }
  }

  // ----- Counting by answer (admin results) -----

  /** `examQuestions.find(q => q.id === answer.questionId)?.correctOptionId === answer.selectedOptionId` */
  predicate IsCorrectAnswer(questions: seq<Question>, a: ExamAnswer) {
    var q := QuestionById(questions, a.questionId);
    q.Some? && q.value.correctOptionId == Some(a.selectedOptionId)
  }

  /** The number of submitted answers that are correct. */
  function CorrectByAnswer(questions: seq<Question>, answers: seq<ExamAnswer>): (n: nat)
    ensures n <= |answers|
    decreases |answers|
  {
    if answers == [] then 0
    else
      CorrectByAnswer(questions, answers[..|answers| - 1])
      + (if IsCorrectAnswer(questions, answers[|answers| - 1]) then 1 else 0)
  }

  /**
   * The `map` over the session's answers that builds one detail per answer
   * and increments `correctAnswers` on the way; `detail` is the per-answer
   * record each handler builds.
   */
  method CountCorrectByAnswer<D>(questions: seq<Question>, answers: seq<ExamAnswer>, detail: ExamAnswer -> D)
    returns (correct: nat, details: seq<D>)
    ensures correct == CorrectByAnswer(questions, answers)
    ensures |details| == |answers|
    ensures forall i :: 0 <= i < |answers| ==> details[i] == detail(answers[i])
  {
    correct, details := 0, [];
    for i := 0 to |answers|
      invariant correct == CorrectByAnswer(questions, answers[..i])
      invariant |details| == i
      invariant forall k :: 0 <= k < i ==> details[k] == detail(answers[k])
    {
      assert answers[..i + 1][..i] == answers[..i];
      var question := QuestionById(questions, answers[i].questionId);
      var isCorrect := question.Some? && question.value.correctOptionId == Some(answers[i].selectedOptionId);
      if isCorrect {
        correct := correct + 1;
      }
      details := details + [detail(answers[i])];
    }
    assert answers[..|answers|] == answers;
  }

  // ----- How the two counts relate -----

  predicate DistinctQuestionIds(questions: seq<Question>) {
    forall i, j :: 0 <= i < j < |questions| ==> questions[i].id != questions[j].id
  }

  predicate OneAnswerPerQuestion(answers: seq<ExamAnswer>) {
    forall i, j :: 0 <= i < j < |answers| ==> answers[i].questionId != answers[j].questionId
  }

  lemma {:induction false} NoAnswersNoneCorrect(questions: seq<Question>)
    ensures CorrectByQuestion(questions, []) == 0
    decreases |questions|
  {
    if questions != [] {
      NoAnswersNoneCorrect(questions[..|questions| - 1]);
    }
  }

  /** A first answer to `a.questionId` decides that question and leaves every other question as it was. */
  lemma FreshAnswerDecides(q: Question, answers: seq<ExamAnswer>, a: ExamAnswer)
    requires FirstAnswerFor(answers, a.questionId).None?
    ensures AnsweredCorrectly(q, answers + [a]) ==
      if q.id == a.questionId then q.correctOptionId == Some(a.selectedOptionId) else AnsweredCorrectly(q, answers)
  {
    FindAppend(answers, [a], AnswerTo(q.id));
  }

  /** With the last question's id not among the others, an answer to it is judged by the last question. */
  lemma LastQuestionJudges(init: seq<Question>, q: Question, a: ExamAnswer)
    requires forall k :: 0 <= k < |init| ==> init[k].id != q.id
    ensures IsCorrectAnswer(init + [q], a) ==
      if q.id == a.questionId then q.correctOptionId == Some(a.selectedOptionId) else IsCorrectAnswer(init, a)
  {
    FindAppend(init, [q], QuestionWithId(a.questionId));
    if q.id == a.questionId {
      assert QuestionById(init, a.questionId).None?;
    }
  }

  /** The first answer to a question not answered before adds exactly its own correctness. */
  lemma {:induction false} FreshAnswerAddsItsOwnCount(questions: seq<Question>, answers: seq<ExamAnswer>, a: ExamAnswer)
    requires DistinctQuestionIds(questions)
    requires FirstAnswerFor(answers, a.questionId).None?
    ensures CorrectByQuestion(questions, answers + [a])
         == CorrectByQuestion(questions, answers) + (if IsCorrectAnswer(questions, a) then 1 else 0)
    decreases |questions|
  {
    if questions != [] {
      var init, q := questions[..|questions| - 1], questions[|questions| - 1];
      assert questions == init + [q];
      assert DistinctQuestionIds(init);
      FreshAnswerAddsItsOwnCount(init, answers, a);
      FreshAnswerDecides(q, answers, a);
      LastQuestionJudges(init, q, a);
    }
  }

  /**
   * When every question id is distinct and each question is answered at most
   * once, the admin count over answers equals the self-service count over
   * questions: the two handlers disagree only on duplicate answers.
   */
  lemma {:induction false} CountsAgreeOnSingleAnswers(questions: seq<Question>, answers: seq<ExamAnswer>)
    requires DistinctQuestionIds(questions)
    requires OneAnswerPerQuestion(answers)
    ensures CorrectByAnswer(questions, answers) == CorrectByQuestion(questions, answers)
    decreases |answers|
  {
    if answers == [] {
      NoAnswersNoneCorrect(questions);
    } else {
      var init, a := answers[..|answers| - 1], answers[|answers| - 1];
      assert answers == init + [a];
      assert OneAnswerPerQuestion(init);
      assert FirstAnswerFor(init, a.questionId).None? by {
        forall k | 0 <= k < |init| ensures init[k].questionId != a.questionId {
          assert answers[k] == init[k];
        }
      }
      CountsAgreeOnSingleAnswers(questions, init);
      FreshAnswerAddsItsOwnCount(questions, init, a);
    }
  }

  /**
   * One question, answered correctly twice: the admin count is 2 out of 1
   * question (a score of 200), the self-service count 1 (a score of 100).
   */
  lemma DuplicateAnswerCountsTwice()
    ensures var questions := [Question(1, 7, "q", Some(2), 0)];
            var answers := [ExamAnswer(10, 5, 1, 2, 0), ExamAnswer(11, 5, 1, 2, 0)];
            && CorrectByAnswer(questions, answers) == 2
            && CorrectByQuestion(questions, answers) == 1
            && Percent(CorrectByAnswer(questions, answers), |questions|) == Finite(200.0)
            && Percent(CorrectByQuestion(questions, answers), |questions|) == Finite(100.0)
  {
    var questions := [Question(1, 7, "q", Some(2), 0)];
    var answers := [ExamAnswer(10, 5, 1, 2, 0), ExamAnswer(11, 5, 1, 2, 0)];
    assert QuestionById(questions, 1) == Some(questions[0]);
    assert answers[..1] == [answers[0]];
    assert CorrectByAnswer(questions, answers[..1]) == 1;
    assert FirstAnswerFor(answers, 1).Some?;
    assert questions[..0] == [];
  }

  /** Four questions, three answered correctly: a score of exactly 75. */
  lemma ThreeOfFourIsSeventyFive()
    ensures var questions := [
              Question(1, 9, "a", Some(11), 0), Question(2, 9, "b", Some(21), 0),
              Question(3, 9, "c", Some(31), 0), Question(4, 9, "d", Some(41), 0)];
            var answers := [
              ExamAnswer(50, 8, 1, 11, 0), ExamAnswer(51, 8, 2, 21, 0),
              ExamAnswer(52, 8, 3, 32, 0), ExamAnswer(53, 8, 4, 41, 0)];
            Percent(CorrectByQuestion(questions, answers), |questions|) == Finite(75.0)
  {
    var q1, q2, q3, q4 := Question(1, 9, "a", Some(11), 0), Question(2, 9, "b", Some(21), 0),
                          Question(3, 9, "c", Some(31), 0), Question(4, 9, "d", Some(41), 0);
    var answers := [
      ExamAnswer(50, 8, 1, 11, 0), ExamAnswer(51, 8, 2, 21, 0),
      ExamAnswer(52, 8, 3, 32, 0), ExamAnswer(53, 8, 4, 41, 0)];
    SampleAnswers(answers);
    assert AnsweredCorrectly(q1, answers) && AnsweredCorrectly(q2, answers);
    assert !AnsweredCorrectly(q3, answers) && AnsweredCorrectly(q4, answers);
    SamplePrefixes(q1, q2, q3, q4, answers);
    assert CorrectByQuestion([q1, q2, q3, q4], answers) == 3;
  }

  lemma SampleAnswers(answers: seq<ExamAnswer>)
    requires answers == [
      ExamAnswer(50, 8, 1, 11, 0), ExamAnswer(51, 8, 2, 21, 0),
      ExamAnswer(52, 8, 3, 32, 0), ExamAnswer(53, 8, 4, 41, 0)]
    ensures FirstAnswerFor(answers, 1) == Some(answers[0])
    ensures FirstAnswerFor(answers, 2) == Some(answers[1])
    ensures FirstAnswerFor(answers, 3) == Some(answers[2])
    ensures FirstAnswerFor(answers, 4) == Some(answers[3])
  {
    forall k: Id | 1 <= k <= 4 ensures FindIndex(answers, AnswerTo(k)) == k - 1 {
      assert AnswerTo(k)(answers[k - 1]);
    }
  }

  lemma SamplePrefixes(q1: Question, q2: Question, q3: Question, q4: Question, answers: seq<ExamAnswer>)
    ensures CorrectByQuestion([q1, q2, q3, q4], answers)
         == (if AnsweredCorrectly(q1, answers) then 1 else 0) + (if AnsweredCorrectly(q2, answers) then 1 else 0)
          + (if AnsweredCorrectly(q3, answers) then 1 else 0) + (if AnsweredCorrectly(q4, answers) then 1 else 0)
  {
    assert [q1, q2, q3, q4][..3] == [q1, q2, q3];
    assert [q1, q2, q3][..2] == [q1, q2];
    assert [q1, q2][..1] == [q1];
    assert [q1][..0] == [];
    var c1, c2 := CorrectByQuestion([q1], answers), CorrectByQuestion([q1, q2], answers);
    var c3 := CorrectByQuestion([q1, q2, q3], answers);
    assert c1 == CorrectByQuestion([], answers) + (if AnsweredCorrectly(q1, answers) then 1 else 0);
    assert c2 == c1 + (if AnsweredCorrectly(q2, answers) then 1 else 0);
    assert c3 == c2 + (if AnsweredCorrectly(q3, answers) then 1 else 0);
  }
}
