/**
 * The rows one `POST /exams` request creates: each question takes the next
 * id and its options take the ids right after it, in input order; a
 * question's `correctOptionId` is its option at the first flagged position.
 */
module ExamRows {
  import opened Schema
  import opened Tables
  import opened Store

  datatype OptionInput = OptionInput(text: string, correct: bool)

  datatype QuestionInput = QuestionInput(text: string, options: seq<OptionInput>)

  function IsFlagged(o: OptionInput): bool {
    o.correct
  }

  // ----- The rows one request creates -----

  /** The option rows of one question, ids handed out from `first` in input order. */
  function OptionRows(questionId: Id, inputs: seq<OptionInput>, first: Id, now: Time): (r: seq<QuestionOption>)
    ensures |r| == |inputs|
    ensures forall k :: 0 <= k < |inputs| ==> r[k] == QuestionOption(first + k, questionId, inputs[k].text, now)
  {
    seq(|inputs|, k requires 0 <= k < |inputs| => QuestionOption(first + k, questionId, inputs[k].text, now))
  }

  /**
   * The `correctOptionId` a question ends with, its options having ids from
   * `first` on: the option at the first flagged position, or null when none is
   * flagged.
   */
  function CorrectOptionOf(inputs: seq<OptionInput>, first: Id): Option<Id> {
    var k := FindIndex(inputs, IsFlagged);
    if k < 0 then None else Some(first + k)
  }

  /** Some option is flagged exactly when the correct option is set; it is then the first flagged one. */
  lemma CorrectOptionIsFirstFlagged(inputs: seq<OptionInput>, first: Id)
    ensures var r := CorrectOptionOf(inputs, first);
      && (r.Some? <==> exists k :: 0 <= k < |inputs| && inputs[k].correct)
      && (r.Some? ==>
            && first <= r.value < first + |inputs|
            && inputs[r.value - first].correct
            && forall k :: 0 <= k < r.value - first ==> !inputs[k].correct)
  {
    var k := FindIndex(inputs, IsFlagged);
    if k < 0 {
      assert forall j :: 0 <= j < |inputs| ==> !IsFlagged(inputs[j]);
    }
  }

  /** The question rows and option rows created for a list of questions, and the next fresh id. */
  datatype Built = Built(questions: seq<Question>, options: seq<QuestionOption>, next: Id)

  /** The row of one question with id `id`; its options take the ids after it. */
  function QuestionRow(examId: Id, input: QuestionInput, id: Id, now: Time): Question {
    Question(id, examId, input.text, CorrectOptionOf(input.options, id + 1), now)
  }

  /** The rows so far followed by one more question: its row, then its option rows. */
  function Extend(b: Built, examId: Id, input: QuestionInput, now: Time): Built {
    Built(
      b.questions + [QuestionRow(examId, input, b.next, now)],
      b.options + OptionRows(b.next, input.options, b.next + 1, now),
      b.next + 1 + |input.options|)
  }

  /** A question's correct option is set exactly when one of its options is flagged, to the id at the first flagged position. */
  lemma QuestionRowCorrect(examId: Id, input: QuestionInput, id: Id, now: Time)
    ensures var q := QuestionRow(examId, input, id, now);
      var k := FindIndex(input.options, IsFlagged);
      && (q.correctOptionId.Some? <==> exists m :: 0 <= m < |input.options| && input.options[m].correct)
      && (q.correctOptionId.Some? <==> 0 <= k)
      && (0 <= k ==> q.correctOptionId == Some(id + 1 + k))
  {
    CorrectOptionIsFirstFlagged(input.options, id + 1);
  }

  /** `Extend` spelled out for a question row and option rows already computed. */
  lemma ExtendWith(b: Built, examId: Id, input: QuestionInput, now: Time, question: Question, rows: seq<QuestionOption>)
    requires question == QuestionRow(examId, input, b.next, now)
    requires rows == OptionRows(b.next, input.options, b.next + 1, now)
    ensures Extend(b, examId, input, now) == Built(b.questions + [question], b.options + rows, b.next + 1 + |input.options|)
  {
  }

  /**
   * The rows created for the first `n` questions: each question takes the
   * next id, then its options take the ids right after it.
   */
  function Build(examId: Id, inputs: seq<QuestionInput>, n: nat, first: Id, now: Time): (b: Built)
    requires n <= |inputs|
    ensures |b.questions| == n
    ensures b.next == first + |b.questions| + |b.options|
    decreases n
  {
    if n == 0 then Built([], [], first)
    else Extend(Build(examId, inputs, n - 1, first, now), examId, inputs[n - 1], now)
  }

  // ----- Where each row lands -----

  /** One more question leaves the rows so far in place. */
  lemma ExtendKeepsRows(b: Built, examId: Id, input: QuestionInput, now: Time)
    ensures var e := Extend(b, examId, input, now);
      && |b.questions| < |e.questions| && |b.options| <= |e.options|
      && (forall at :: 0 <= at < |b.questions| ==> e.questions[at] == b.questions[at])
      && (forall at :: 0 <= at < |b.options| ==> e.options[at] == b.options[at])
  {
  }

  /** A question row, once created, stays in place while later questions are added. */
  lemma {:induction false} QuestionStays(examId: Id, inputs: seq<QuestionInput>, first: Id, now: Time, j: nat, n: nat, at: nat)
    requires j <= n <= |inputs| && at < j
    ensures Build(examId, inputs, n, first, now).questions[at] == Build(examId, inputs, j, first, now).questions[at]
    decreases n
  {
    if j < n {
      QuestionStays(examId, inputs, first, now, j, n - 1, at);
      ExtendKeepsRows(Build(examId, inputs, n - 1, first, now), examId, inputs[n - 1], now);
    }
  }

  /** An option row, once created, stays in place while later questions are added. */
  lemma {:induction false} OptionStays(examId: Id, inputs: seq<QuestionInput>, first: Id, now: Time, j: nat, n: nat, at: nat)
    requires j <= n <= |inputs| && at < |Build(examId, inputs, j, first, now).options|
    ensures at < |Build(examId, inputs, n, first, now).options|
    ensures Build(examId, inputs, n, first, now).options[at] == Build(examId, inputs, j, first, now).options[at]
    decreases n
  {
    if j < n {
      OptionStays(examId, inputs, first, now, j, n - 1, at);
      ExtendKeepsRows(Build(examId, inputs, n - 1, first, now), examId, inputs[n - 1], now);
    }
  }

  /** Question `i` has the id after the rows of the questions before it, the exam's id, its text and the backfilled correct option. */
  lemma BuildQuestionAt(examId: Id, inputs: seq<QuestionInput>, n: nat, first: Id, now: Time, i: nat)
    requires i < n <= |inputs|
    ensures Build(examId, inputs, n, first, now).questions[i]
      == QuestionRow(examId, inputs[i], Build(examId, inputs, i, first, now).next, now)
  {
    QuestionStays(examId, inputs, first, now, i + 1, n, i);
  }

  /** Option `k` of the added question lands right after the options so far. */
  lemma ExtendOptionAt(b: Built, examId: Id, input: QuestionInput, now: Time, k: nat)
    requires k < |input.options|
    ensures var e := Extend(b, examId, input, now);
      && |b.options| + k < |e.options|
      && e.options[|b.options| + k] == QuestionOption(b.next + 1 + k, b.next, input.options[k].text, now)
  {
  }

  /**
   * The options of question `i` form one contiguous run, in input order,
   * right after the rows of the questions before it, and belong to it.
   */
  lemma BuildOptionAt(examId: Id, inputs: seq<QuestionInput>, n: nat, first: Id, now: Time, i: nat, k: nat)
    requires i < n <= |inputs| && k < |inputs[i].options|
    ensures var pre := Build(examId, inputs, i, first, now);
      var b := Build(examId, inputs, n, first, now);
      && |pre.options| + k < |b.options|
      && b.options[|pre.options| + k] == QuestionOption(pre.next + 1 + k, pre.next, inputs[i].options[k].text, now)
  {
    var pre := Build(examId, inputs, i, first, now);
    ExtendOptionAt(pre, examId, inputs[i], now, k);
    OptionStays(examId, inputs, first, now, i + 1, n, |pre.options| + k);
  }

  /** Every created question carries the new exam's id. */
  lemma BuildQuestionsOfExam(examId: Id, inputs: seq<QuestionInput>, n: nat, first: Id, now: Time)
    requires n <= |inputs|
    ensures forall q :: q in Build(examId, inputs, n, first, now).questions ==> q.examId == examId
  {
    var b := Build(examId, inputs, n, first, now);
    forall q | q in b.questions ensures q.examId == examId {
      var i :| 0 <= i < |b.questions| && b.questions[i] == q;
      BuildQuestionAt(examId, inputs, n, first, now, i);
    }
  }

  /** The correct option of a question row whose option at the first flagged position sits at `start` plus that position in `options`. */
  lemma CorrectOptionLands(q: Question, options: seq<QuestionOption>, start: nat, examId: Id, input: QuestionInput, id: Id, now: Time)
    requires q == QuestionRow(examId, input, id, now)
    requires var k := FindIndex(input.options, IsFlagged);
      0 <= k ==> start + k < |options| && options[start + k] == QuestionOption(id + 1 + k, id, input.options[k].text, now)
    ensures && (q.correctOptionId.Some? <==> exists k :: 0 <= k < |input.options| && input.options[k].correct)
      && (q.correctOptionId.Some? ==>
            var k := FindIndex(input.options, IsFlagged);
            && 0 <= k
            && start + k < |options|
            && var o := options[start + k];
            && o.id == q.correctOptionId.value
            && o.questionId == q.id
            && o.text == input.options[k].text)
  {
    QuestionRowCorrect(examId, input, id, now);
  }

  /**
   * Question `i`'s correct option is set exactly when one of its input options
   * is flagged; it is then the created option at the first flagged position,
   * one of the question's own options.
   */
  lemma BuildCorrectOption(examId: Id, inputs: seq<QuestionInput>, n: nat, first: Id, now: Time, i: nat)
    requires i < n <= |inputs|
    ensures var b := Build(examId, inputs, n, first, now);
      var q := b.questions[i];
      && (q.correctOptionId.Some? <==> exists k :: 0 <= k < |inputs[i].options| && inputs[i].options[k].correct)
      && (q.correctOptionId.Some? ==>
            var k := FindIndex(inputs[i].options, IsFlagged);
            && 0 <= k
            && |Build(examId, inputs, i, first, now).options| + k < |b.options|
            && var o := b.options[|Build(examId, inputs, i, first, now).options| + k];
            && o.id == q.correctOptionId.value
            && o.questionId == q.id
            && o.text == inputs[i].options[k].text)
  {
    var pre := Build(examId, inputs, i, first, now);
    var b := Build(examId, inputs, n, first, now);
    BuildQuestionAt(examId, inputs, n, first, now, i);
    var k := FindIndex(inputs[i].options, IsFlagged);
    if 0 <= k {
      BuildOptionAt(examId, inputs, n, first, now, i, k);
    }
    CorrectOptionLands(b.questions[i], b.options, |pre.options|, examId, inputs[i], pre.next, now);
  }

  /** One more question keeps every option owned by a question. */
  lemma ExtendOptionsOwned(b: Built, examId: Id, input: QuestionInput, now: Time)
    requires forall o :: o in b.options ==> exists q :: q in b.questions && q.id == o.questionId
    ensures var e := Extend(b, examId, input, now);
      forall o :: o in e.options ==> exists q :: q in e.questions && q.id == o.questionId
  {
    var e := Extend(b, examId, input, now);
    var q := QuestionRow(examId, input, b.next, now);
    assert q in e.questions;
    forall o | o in e.options ensures exists q :: q in e.questions && q.id == o.questionId {
      if o in b.options {
        var p :| p in b.questions && p.id == o.questionId;
        assert p in e.questions;
      }
    }
  }

  /** Every created option belongs to one of the created questions. */
  lemma {:induction false} BuildOptionsOwned(examId: Id, inputs: seq<QuestionInput>, n: nat, first: Id, now: Time)
    requires n <= |inputs|
    ensures var b := Build(examId, inputs, n, first, now);
      forall o :: o in b.options ==> exists q :: q in b.questions && q.id == o.questionId
    decreases n
  {
    if n > 0 {
      BuildOptionsOwned(examId, inputs, n - 1, first, now);
      ExtendOptionsOwned(Build(examId, inputs, n - 1, first, now), examId, inputs[n - 1], now);
    }
  }

  // ----- The invariant -----

  /** Ids are distinct, from `first` up to the next fresh id. */
  predicate FreshKeys<T>(s: seq<T>, key: T -> Id, first: Id, next: Id) {
    && PrimaryKey(s, key, next)
    && forall i :: 0 <= i < |s| ==> first <= key(s[i])
  }

  /** Rows with keys in `[next, next')` appended to rows with keys in `[first, next)` keep distinct keys in `[first, next')`. */
  lemma FreshKeysAppend<T>(s: seq<T>, t: seq<T>, key: T -> Id, first: Id, next: Id, next': Id)
    requires FreshKeys(s, key, first, next) && FreshKeys(t, key, next, next')
    requires first <= next <= next'
    ensures FreshKeys(s + t, key, first, next')
  {
    PrimaryKeyAppend(s, t, key, next, next');
    var u := s + t;
    forall i | 0 <= i < |u| ensures first <= key(u[i]) {
      if i < |s| {
        assert u[i] == s[i];
      } else {
        assert u[i] == t[i - |s|];
      }
    }
  }

  /** The rows of one question have fresh keys. */
  lemma ExtendKeys(b: Built, examId: Id, input: QuestionInput, now: Time, first: Id)
    requires FreshKeys(b.questions, QuestionKey, first, b.next) && FreshKeys(b.options, OptionKey, first, b.next)
    requires first <= b.next
    ensures var e := Extend(b, examId, input, now);
      FreshKeys(e.questions, QuestionKey, first, e.next) && FreshKeys(e.options, OptionKey, first, e.next)
  {
    var e := Extend(b, examId, input, now);
    var rows := OptionRows(b.next, input.options, b.next + 1, now);
    assert FreshKeys([QuestionRow(examId, input, b.next, now)], QuestionKey, b.next, e.next);
    assert FreshKeys(rows, OptionKey, b.next, e.next);
    FreshKeysAppend(b.questions, [QuestionRow(examId, input, b.next, now)], QuestionKey, first, b.next, e.next);
    FreshKeysAppend(b.options, rows, OptionKey, first, b.next, e.next);
  }

  /** The created rows have distinct ids, from `first` up to the next fresh id. */
  lemma {:induction false} BuildKeys(examId: Id, inputs: seq<QuestionInput>, n: nat, first: Id, now: Time)
    requires n <= |inputs|
    ensures var b := Build(examId, inputs, n, first, now);
      FreshKeys(b.questions, QuestionKey, first, b.next) && FreshKeys(b.options, OptionKey, first, b.next)
    decreases n
  {
    if n > 0 {
      BuildKeys(examId, inputs, n - 1, first, now);
      ExtendKeys(Build(examId, inputs, n - 1, first, now), examId, inputs[n - 1], now, first);
    }
  }

  /** Appending the rows created for the first `n` questions of a request to valid tables keeps them valid. */
  lemma BuildKeepsValid(t: Snapshot, first: Id, examId: Id, inputs: seq<QuestionInput>, n: nat, now: Time)
    requires n <= |inputs|
    requires ValidTables(t, first)
    ensures var b := Build(examId, inputs, n, first, now);
      ValidTables(t.(questions := t.questions + b.questions, options := t.options + b.options), b.next)
  {
    var b := Build(examId, inputs, n, first, now);
    BuildKeys(examId, inputs, n, first, now);
    ValidTablesGrow(t, first, b.next);
    PrimaryKeyAppend(t.questions, b.questions, QuestionKey, first, b.next);
    PrimaryKeyAppend(t.options, b.options, OptionKey, first, b.next);
  }
}
