/**
 * The detail views' grouping of options under their questions: a `Map` keyed
 * by question id is seeded with every question (an empty option list each),
 * then every fetched option is pushed onto the list of its question, if that
 * question is in the map. The map's values, in insertion order, are the result.
 */
module Grouping {
  import opened Schema
  import opened Tables

  /** A question together with the views of its options (`{ ...question, options }`). */
  datatype Group<V> = Group(question: Question, options: seq<V>)

  /** `{ ...exam, questions }` */
  datatype ExamView<V> = ExamView(exam: Exam, questions: seq<Group<V>>)

  /** The condition `o => o.questionId === questionId`. */
  function OptionOf(questionId: Id): QuestionOption -> bool {
    (o: QuestionOption) => o.questionId == questionId
  }

  /** The views of `options` under question `q`, in order. */
  function Views<V>(q: Question, options: seq<QuestionOption>, view: (Question, QuestionOption) -> V): (r: seq<V>)
    ensures |r| == |options|
    ensures forall k :: 0 <= k < |options| ==> r[k] == view(q, options[k])
  {
    seq(|options|, k requires 0 <= k < |options| => view(q, options[k]))
  }

  /** What the grouping yields: every question, in order, with the views of its own options in fetched order. */
  function Grouped<V>(questions: seq<Question>, options: seq<QuestionOption>, view: (Question, QuestionOption) -> V): (r: seq<Group<V>>)
    ensures |r| == |questions|
    ensures forall i :: 0 <= i < |questions| ==>
      r[i] == Group(questions[i], Views(questions[i], Filter(options, OptionOf(questions[i].id)), view))
  {
    seq(|questions|, i requires 0 <= i < |questions| =>
      Group(questions[i], Views(questions[i], Filter(options, OptionOf(questions[i].id)), view)))
  }

  predicate DistinctIds(questions: seq<Question>) {
    forall i, j :: 0 <= i < j < |questions| ==> questions[i].id != questions[j].id
  }

  lemma ViewsSnoc<V>(q: Question, options: seq<QuestionOption>, o: QuestionOption, view: (Question, QuestionOption) -> V)
    ensures Views(q, options + [o], view) == Views(q, options, view) + [view(q, o)]
  {
    assert forall k :: 0 <= k < |options| ==> (options + [o])[k] == options[k];
  }

  /** The map after the first `j` options have been pushed. */
  ghost predicate Filled<V>(questionMap: map<Id, Group<V>>, questions: seq<Question>, options: seq<QuestionOption>,
                      view: (Question, QuestionOption) -> V)
  {
    && (forall id :: id in questionMap <==> exists k :: 0 <= k < |questions| && questions[k].id == id)
    && (forall k :: 0 <= k < |questions| ==>
          questionMap[questions[k].id] == Group(questions[k], Views(questions[k], Filter(options, OptionOf(questions[k].id)), view)))
  }

  /** One more fetched option joins the list of its own question only. */
  lemma FilterSnocAll(questions: seq<Question>, options: seq<QuestionOption>, o: QuestionOption)
    ensures forall k :: 0 <= k < |questions| ==>
      Filter(options + [o], OptionOf(questions[k].id))
        == Filter(options, OptionOf(questions[k].id)) + if o.questionId == questions[k].id then [o] else []
  {
    forall k | 0 <= k < |questions|
      ensures Filter(options + [o], OptionOf(questions[k].id))
           == Filter(options, OptionOf(questions[k].id)) + if o.questionId == questions[k].id then [o] else []
    {
      FilterSnoc(options, o, OptionOf(questions[k].id));
    }
  }

  /** Pushing an option of a question in the map onto that question's list. */
  lemma PushOptionHit<V>(questionMap: map<Id, Group<V>>, questions: seq<Question>, options: seq<QuestionOption>,
                         o: QuestionOption, view: (Question, QuestionOption) -> V)
    requires DistinctIds(questions)
    requires Filled(questionMap, questions, options, view)
    requires o.questionId in questionMap
    ensures var g := questionMap[o.questionId];
      Filled(questionMap[o.questionId := g.(options := g.options + [view(g.question, o)])], questions, options + [o], view)
  {
    FilterSnocAll(questions, options, o);
    var g := questionMap[o.questionId];
    var m := questionMap[o.questionId := g.(options := g.options + [view(g.question, o)])];
    forall k | 0 <= k < |questions|
      ensures m[questions[k].id] == Group(questions[k], Views(questions[k], Filter(options + [o], OptionOf(questions[k].id)), view))
    {
      if questions[k].id == o.questionId {
        ViewsSnoc(questions[k], Filter(options, OptionOf(questions[k].id)), o, view);
      }
    }
  }

  /** An option of no question in the map is dropped. */
  lemma PushOptionMiss<V>(questionMap: map<Id, Group<V>>, questions: seq<Question>, options: seq<QuestionOption>,
                          o: QuestionOption, view: (Question, QuestionOption) -> V)
    requires Filled(questionMap, questions, options, view)
    requires o.questionId !in questionMap
    ensures Filled(questionMap, questions, options + [o], view)
  {
    FilterSnocAll(questions, options, o);
    forall k | 0 <= k < |questions|
      ensures Filter(options + [o], OptionOf(questions[k].id)) == Filter(options, OptionOf(questions[k].id))
    {
      assert questions[k].id in questionMap;
    }
  }

  /** The first `forEach`: every question enters the map with an empty option list. */
  method SeedGroups<V>(questions: seq<Question>, view: (Question, QuestionOption) -> V)
    returns (questionMap: map<Id, Group<V>>)
    requires DistinctIds(questions)
    ensures Filled(questionMap, questions, [], view)
  {
    questionMap := map[];
    for i := 0 to |questions|
      invariant forall id :: id in questionMap <==> exists k :: 0 <= k < i && questions[k].id == id
      invariant forall k :: 0 <= k < i ==> questionMap[questions[k].id] == Group(questions[k], [])
    {
      questionMap := questionMap[questions[i].id := Group(questions[i], [])];
    }
    forall k | 0 <= k < |questions|
      ensures Views(questions[k], Filter([], OptionOf(questions[k].id)), view) == []
    {
      assert Filter([], OptionOf(questions[k].id)) == [];
    }
  }

  /**
   * The two `forEach` loops over a `Map`. Question ids are distinct (they are
   * primary keys), so every question keeps its own entry and the map's values
   * come out in question order.
   */
  method GroupOptions<V>(questions: seq<Question>, options: seq<QuestionOption>, view: (Question, QuestionOption) -> V)
    returns (groups: seq<Group<V>>)
    requires DistinctIds(questions)
    ensures groups == Grouped(questions, options, view)
  {
    var questionMap: map<Id, Group<V>> := SeedGroups(questions, view);
    assert options[..0] == [];
    for j := 0 to |options|
      invariant Filled(questionMap, questions, options[..j], view)
    {
      var option := options[j];
      assert options[..j + 1] == options[..j] + [option];
      if option.questionId in questionMap {
        PushOptionHit(questionMap, questions, options[..j], option, view);
        var question := questionMap[option.questionId];
        questionMap := questionMap[option.questionId := question.(options := question.options + [view(question.question, option)])];
      } else {
        PushOptionMiss(questionMap, questions, options[..j], option, view);
      }
    }
    assert options[..|options|] == options;
    groups := seq(|questions|, i requires 0 <= i < |questions| => questionMap[questions[i].id]);
  }

  /**
   * Grouping the options fetched by `question_id in (ids of the questions)`
   * gives every question exactly its own options from the whole table, in
   * table order.
   */
  lemma GroupedOverFetched<V>(questions: seq<Question>, questionIds: seq<Id>, options: seq<QuestionOption>,
                              view: (Question, QuestionOption) -> V)
    requires forall i :: 0 <= i < |questions| ==> questions[i].id in questionIds
    ensures Grouped(questions, Filter(options, (o: QuestionOption) => o.questionId in questionIds), view)
         == Grouped(questions, options, view)
  {
    forall i | 0 <= i < |questions|
      ensures Filter(Filter(options, (o: QuestionOption) => o.questionId in questionIds), OptionOf(questions[i].id))
           == Filter(options, OptionOf(questions[i].id))
    {
      FilterFilter(options, (o: QuestionOption) => o.questionId in questionIds, OptionOf(questions[i].id));
    }
  }
}
