/**
 * The per-topic view of src/App.tsx: the selected topic's questions
 * annotated with identifier and completion flag and reordered so that open
 * questions come first (`sortedQuestions`), and the topic's statistics
 * (`topicStats`). The selection is an explicit `Option<Topic>` input.
 */
module TopicView {
  import opened Types
  import opened QuestionId
  import opened Progress

  /** One displayed question: its text, position in the topic, identifier and flag. */
  datatype AnnotatedQuestion = AnnotatedQuestion(question: string, index: nat, id: string, completed: bool)

  /** True when `e` is the annotation of question `e.index` of `topic` under `p`. */
  predicate Describes(category: string, topic: Topic, p: QuestionProgress, e: AnnotatedQuestion)
  {
    && e.index < |topic.questions|
    && e.question == topic.questions[e.index]
    && e.id == CreateQuestionId(category, topic.title, e.index)
    && e.completed == IsCompleted(p, e.id)
  }

  /** The annotation step: question k becomes its annotation, in topic order. */
  function Annotate(category: string, topic: Topic, p: QuestionProgress): (r: seq<AnnotatedQuestion>)
    ensures |r| == |topic.questions|
    ensures forall k :: 0 <= k < |r| ==> r[k].index == k && Describes(category, topic, p, r[k])
  {
    seq(|topic.questions|, k requires 0 <= k < |topic.questions| =>
      var id := CreateQuestionId(category, topic.title, k);
      AnnotatedQuestion(topic.questions[k], k, id, IsCompleted(p, id)))
  }

  /**
   * The sort comparator: by completion (open first), then by original index.
   * A negative result places `a` before `b`.
   */
  function Compare(a: AnnotatedQuestion, b: AnnotatedQuestion): (c: int)
    ensures c < 0 <==> (!a.completed && b.completed) || (a.completed == b.completed && a.index < b.index)
    ensures c == 0 <==> a.completed == b.completed && a.index == b.index
  {
    if a.completed == b.completed then a.index - b.index
    else if a.completed then 1 else -1
  }

  /** `s` is in strictly increasing comparator order. */
  predicate SortedByComparator(s: seq<AnnotatedQuestion>)
  {
    forall i, j :: 0 <= i < j < |s| ==> Compare(s[i], s[j]) < 0
  }

  predicate IndicesIncreasing(s: seq<AnnotatedQuestion>)
  {
    forall i, j :: 0 <= i < j < |s| ==> s[i].index < s[j].index
  }

  /** The entries of `s` whose completion flag is `done`, in their original order. */
  function WithStatus(s: seq<AnnotatedQuestion>, done: bool): (r: seq<AnnotatedQuestion>)
    ensures |r| <= |s|
    ensures forall e :: e in r ==> e in s && e.completed == done
    ensures forall e :: e in s && e.completed == done ==> e in r
  {
    if |s| == 0 then []
    else if s[0].completed == done then [s[0]] + WithStatus(s[1..], done)
    else WithStatus(s[1..], done)
  }

  /**
   * The stable partition: open entries, then completed ones, each in
   * original order. It rearranges its input without losing or adding entries.
   */
  function StablePartition(s: seq<AnnotatedQuestion>): (r: seq<AnnotatedQuestion>)
    ensures |r| == |s|
    ensures forall e :: e in r <==> e in s
  {
    WithStatusSplitsMultiset(s);
    var r := WithStatus(s, false) + WithStatus(s, true);
    assert |r| == |multiset(r)| == |multiset(s)| == |s|;
    assert forall e :: e in r <==> e in multiset(s);
    r
  }

  /** The comparator orders annotations strictly: irreflexive, asymmetric and transitive. */
  lemma CompareIsStrictOrder(a: AnnotatedQuestion, b: AnnotatedQuestion, c: AnnotatedQuestion)
    ensures !(Compare(a, a) < 0)
    ensures Compare(a, b) < 0 ==> Compare(b, a) > 0
    ensures a.index != b.index ==> (Compare(a, b) < 0 <==> Compare(b, a) > 0)
    ensures Compare(a, b) < 0 && Compare(b, c) < 0 ==> Compare(a, c) < 0
  {
  }

  lemma {:induction false} WithStatusKeepsOrder(s: seq<AnnotatedQuestion>, done: bool)
    requires IndicesIncreasing(s)
    ensures IndicesIncreasing(WithStatus(s, done))
  {
    if |s| > 0 {
      TailIndicesIncreasing(s);
      WithStatusKeepsOrder(s[1..], done);
      if s[0].completed == done {
        HeadBelowRest(s, done);
        ConsIndicesIncreasing(s[0], WithStatus(s[1..], done));
      }
    }
  }

  lemma TailIndicesIncreasing(s: seq<AnnotatedQuestion>)
    requires IndicesIncreasing(s) && |s| > 0
    ensures IndicesIncreasing(s[1..])
  {
    var tail := s[1..];
    forall i, j | 0 <= i < j < |tail| ensures tail[i].index < tail[j].index {
      assert tail[i] == s[i + 1] && tail[j] == s[j + 1];
    }
  }

  lemma HeadBelowRest(s: seq<AnnotatedQuestion>, done: bool)
    requires IndicesIncreasing(s) && |s| > 0
    ensures forall e :: e in WithStatus(s[1..], done) ==> s[0].index < e.index
  {
    forall e | e in WithStatus(s[1..], done) ensures s[0].index < e.index {
      var j :| 0 <= j < |s[1..]| && s[1..][j] == e;
      assert s[j + 1] == e;
    }
  }

  lemma ConsIndicesIncreasing(x: AnnotatedQuestion, rest: seq<AnnotatedQuestion>)
    requires IndicesIncreasing(rest)
    requires forall e :: e in rest ==> x.index < e.index
    ensures IndicesIncreasing([x] + rest)
  {
    var r := [x] + rest;
    forall i, j | 0 <= i < j < |r| ensures r[i].index < r[j].index {
      assert r[j] == rest[j - 1] && rest[j - 1] in rest;
      if i > 0 {
        assert r[i] == rest[i - 1];
      }
    }
  }

  lemma {:induction false} WithStatusSplitsMultiset(s: seq<AnnotatedQuestion>)
    ensures multiset(WithStatus(s, false)) + multiset(WithStatus(s, true)) == multiset(s)
  {
    if |s| > 0 {
      WithStatusSplitsMultiset(s[1..]);
      assert s == [s[0]] + s[1..];
    }
  }

  /** The stable partition of an index-ordered list is sorted by the comparator. */
  lemma PartitionSorted(s: seq<AnnotatedQuestion>)
    requires IndicesIncreasing(s)
    ensures SortedByComparator(StablePartition(s))
  {
    var open, done := WithStatus(s, false), WithStatus(s, true);
    WithStatusKeepsOrder(s, false);
    WithStatusKeepsOrder(s, true);
    var r := open + done;
    forall i, j | 0 <= i < j < |r| ensures Compare(r[i], r[j]) < 0 {
      if j < |open| {
        assert r[i] == open[i] && r[j] == open[j];
      } else if |open| <= i {
        assert r[i] == done[i - |open|] && r[j] == done[j - |open|];
      } else {
        assert r[i] == open[i] && r[j] == done[j - |open|];
        assert open[i] in open && done[j - |open|] in done;
      }
    }
  }

  /** The stable partition is a permutation of its input. */
  lemma PartitionPermutes(s: seq<AnnotatedQuestion>)
    ensures multiset(StablePartition(s)) == multiset(s)
  {
    WithStatusSplitsMultiset(s);
  }

  /**
   * The comparator is a strict order on annotations with distinct indices,
   * so two sorted permutations of the same entries are equal: any correct
   * sort with this comparator returns the stable partition.
   */
  lemma {:induction false} SortedPermutationUnique(a: seq<AnnotatedQuestion>, b: seq<AnnotatedQuestion>)
    requires SortedByComparator(a) && SortedByComparator(b)
    requires multiset(a) == multiset(b)
    ensures a == b
    decreases |a|
  {
    assert |b| == |multiset(b)| == |multiset(a)| == |a|;
    if |a| > 0 {
      SortedHeadsAgree(a, b);
      TailsArePermutations(a, b);
      SortedTail(a);
      SortedTail(b);
      SortedPermutationUnique(a[1..], b[1..]);
      assert a == [a[0]] + a[1..] && b == [b[0]] + b[1..];
    }
  }

  lemma SortedTail(a: seq<AnnotatedQuestion>)
    requires SortedByComparator(a) && |a| > 0
    ensures SortedByComparator(a[1..])
  {
    forall i, j | 0 <= i < j < |a| - 1 ensures Compare(a[1..][i], a[1..][j]) < 0 {
      assert a[1..][i] == a[i + 1] && a[1..][j] == a[j + 1];
    }
  }

  lemma TailsArePermutations(a: seq<AnnotatedQuestion>, b: seq<AnnotatedQuestion>)
    requires multiset(a) == multiset(b) && |a| > 0 && |b| > 0 && a[0] == b[0]
    ensures multiset(a[1..]) == multiset(b[1..])
  {
    assert a == [a[0]] + a[1..] && b == [b[0]] + b[1..];
    assert multiset(a) == multiset{a[0]} + multiset(a[1..]);
    assert multiset(b) == multiset{b[0]} + multiset(b[1..]);
    assert multiset(a[1..]) == multiset(a) - multiset{a[0]};
    assert multiset(b[1..]) == multiset(b) - multiset{b[0]};
  }

  /** Two non-empty sorted permutations of the same entries start with the same entry. */
  lemma SortedHeadsAgree(a: seq<AnnotatedQuestion>, b: seq<AnnotatedQuestion>)
    requires SortedByComparator(a) && SortedByComparator(b)
    requires multiset(a) == multiset(b) && |a| == |b| > 0
    ensures a[0] == b[0]
  {
    assert a[0] in multiset(b);
    var j :| 0 <= j < |b| && b[j] == a[0];
    assert b[0] in multiset(a);
    var k :| 0 <= k < |a| && a[k] == b[0];
    // If b[0] preceded a[0] in b, a[0] could not precede (or equal) b[0] in a.
    assert j > 0 ==> Compare(b[0], a[0]) < 0;
    assert k > 0 ==> Compare(a[0], b[0]) < 0;
  }

  /**
   * sortedQuestions: nothing when no topic is selected; otherwise the
   * annotated questions in comparator order.
   */
  function SortedQuestions(category: string, selected: Option<Topic>, p: QuestionProgress): (r: seq<AnnotatedQuestion>)
    ensures selected.None? ==> r == []
    ensures selected.Some? ==>
      && multiset(r) == multiset(Annotate(category, selected.value, p))
      && SortedByComparator(r)
    ensures selected.Some? ==> forall e :: e in r ==> Describes(category, selected.value, p, e)
  {
    match selected
    case None => []
    case Some(topic) =>
      var annotated := Annotate(category, topic, p);
      PartitionSorted(annotated);
      PartitionPermutes(annotated);
      StablePartition(annotated)
  }

  /** Any permutation of the annotated questions that the comparator accepts as sorted is the view. */
  lemma SortedQuestionsIsTheSort(category: string, topic: Topic, p: QuestionProgress, s: seq<AnnotatedQuestion>)
    requires multiset(s) == multiset(Annotate(category, topic, p))
    requires SortedByComparator(s)
    ensures s == SortedQuestions(category, Some(topic), p)
  {
    SortedPermutationUnique(s, SortedQuestions(category, Some(topic), p));
  }

  /** The original indices of the entries of `s`, in order. */
  function Indices(s: seq<AnnotatedQuestion>): (r: seq<nat>)
    ensures |r| == |s| && forall i :: 0 <= i < |s| ==> r[i] == s[i].index
  {
    if |s| == 0 then [] else [s[0].index] + Indices(s[1..])
  }

  /** Every question of the topic appears exactly once in the view. */
  lemma SortedQuestionsCoversEachIndexOnce(category: string, topic: Topic, p: QuestionProgress)
    ensures |SortedQuestions(category, Some(topic), p)| == |topic.questions|
    ensures forall k :: 0 <= k < |topic.questions| ==> k in Indices(SortedQuestions(category, Some(topic), p))
    ensures forall i, j :: 0 <= i < j < |SortedQuestions(category, Some(topic), p)| ==>
      SortedQuestions(category, Some(topic), p)[i].index != SortedQuestions(category, Some(topic), p)[j].index
  {
    var r := SortedQuestions(category, Some(topic), p);
    var annotated := Annotate(category, topic, p);
    assert |r| == |multiset(r)| == |multiset(annotated)| == |annotated|;
    forall k | 0 <= k < |topic.questions|
      ensures k in Indices(r)
    {
      assert annotated[k] in multiset(r);
      var j :| 0 <= j < |r| && r[j] == annotated[k];
      assert Indices(r)[j] == k;
    }
    forall i, j | 0 <= i < j < |r| ensures r[i].index != r[j].index {
      assert Compare(r[i], r[j]) < 0;
      assert r[i] in r && r[j] in r;
    }
  }

  /** Open entries come first, and within each group original order is kept. */
  lemma SortedQuestionsGrouping(category: string, topic: Topic, p: QuestionProgress)
    ensures forall i, j :: 0 <= i < j < |SortedQuestions(category, Some(topic), p)| ==>
      var r := SortedQuestions(category, Some(topic), p);
      (r[i].completed ==> r[j].completed) && (r[i].completed == r[j].completed ==> r[i].index < r[j].index)
  {
  }

  /**
   * The worked example, for any category, title and question texts: with
   * only the second of three questions completed, the view is [Q0, Q2, Q1].
   */
  lemma {:induction false} SortExample(category: string, title: string, q0: string, q1: string, q2: string)
    ensures
      var topic := Topic(title, "", [q0, q1, q2], 3);
      var p := Toggle(map[], CreateQuestionId(category, title, 1));
      Indices(SortedQuestions(category, Some(topic), p)) == [0, 2, 1]
  {
    var topic := Topic(title, "", [q0, q1, q2], 3);
    var p := Toggle(map[], CreateQuestionId(category, title, 1));
    var s := Annotate(category, topic, p);
    ExampleAnnotation(category, topic, p);
    PartitionOfOpenDoneOpen(s);
    assert SortedQuestions(category, Some(topic), p) == StablePartition(s);
  }

  /** With only question 1 toggled from empty, only question 1 reads as completed. */
  lemma ExampleAnnotation(category: string, topic: Topic, p: QuestionProgress)
    requires |topic.questions| == 3 && p == Toggle(map[], CreateQuestionId(category, topic.title, 1))
    ensures
      var s := Annotate(category, topic, p);
      && !s[0].completed && s[1].completed && !s[2].completed
      && s[0].index == 0 && s[1].index == 1 && s[2].index == 2
  {
    var id0 := CreateQuestionId(category, topic.title, 0);
    var id1 := CreateQuestionId(category, topic.title, 1);
    var id2 := CreateQuestionId(category, topic.title, 2);
    assert id0 != id1 by {
      if id0 == id1 {
        IdInjectiveInIndex(category, topic.title, 0, 1);
      }
    }
    assert id2 != id1 by {
      if id2 == id1 {
        IdInjectiveInIndex(category, topic.title, 2, 1);
      }
    }
  }

  lemma PartitionOfOpenDoneOpen(s: seq<AnnotatedQuestion>)
    requires |s| == 3 && !s[0].completed && s[1].completed && !s[2].completed
    ensures StablePartition(s) == [s[0], s[2], s[1]]
    ensures Indices(StablePartition(s)) == [s[0].index, s[2].index, s[1].index]
  {
    assert s[1..][1..] == [s[2]];
    assert s[1..][1..][1..] == [];
    assert WithStatus(s[1..][1..], true) == [];
    assert WithStatus(s, false) == [s[0], s[2]];
    assert WithStatus(s, true) == [s[1]];
    var r := [s[0], s[2], s[1]];
    assert r[1..][1..][1..] == [];
  }

  /** The worked scenario: one of two questions of "Closures" toggled gives 1 completed, 1 remaining, 50%. */
  lemma {:induction false} TwoQuestionScenario()
    ensures
      var topic := Topic("Closures", "", ["Q1 text\nbody1", "Q2 text\nbody2"], 2);
      var p := Toggle(map[], CreateQuestionId("JavaScript", "Closures", 0));
      TopicStats("JavaScript", Some(topic), p) == Stats(1, 1, 50)
  {
    var topic := Topic("Closures", "", ["Q1 text\nbody1", "Q2 text\nbody2"], 2);
    var id0 := CreateQuestionId("JavaScript", "Closures", 0);
    var id1 := CreateQuestionId("JavaScript", "Closures", 1);
    var p := Toggle(map[], id0);
    assert id0 != id1 by {
      if id0 == id1 {
        IdInjectiveInIndex("JavaScript", "Closures", 0, 1);
      }
    }
    var ids := TopicQuestionIds("JavaScript", topic);
    assert ids == [id0, id1];
    assert ids[..1] == [id0];
    assert ids[..1][..0] == [];
    assert CompletedIds(p, ids) == [id0];
  }

  /** The identifiers of a topic's questions, index by index. */
  function TopicQuestionIds(category: string, topic: Topic): (ids: seq<string>)
    ensures |ids| == |topic.questions|
    ensures forall k :: 0 <= k < |ids| ==> ids[k] == CreateQuestionId(category, topic.title, k)
    ensures forall i, j :: 0 <= i < j < |ids| ==> ids[i] != ids[j]
  {
    var ids := seq(|topic.questions|, k requires 0 <= k < |topic.questions| => CreateQuestionId(category, topic.title, k));
    forall i, j | 0 <= i < j < |ids| ensures ids[i] != ids[j] {
      if ids[i] == ids[j] {
        IdInjectiveInIndex(category, topic.title, i, j);
      }
    }
    ids
  }

  /** The indices of a topic whose question reads as completed. */
  ghost function CompletedIndices(category: string, topic: Topic, p: QuestionProgress): set<nat>
  {
    set k: nat | k < |topic.questions| && IsCompleted(p, CreateQuestionId(category, topic.title, k))
  }

  /**
   * topicStats: all zero when no topic is selected; otherwise the count of
   * completed questions of the topic against its declared total.
   */
  function TopicStats(category: string, selected: Option<Topic>, p: QuestionProgress): (s: Stats)
    ensures selected.None? ==> s == Stats(0, 0, 0)
    ensures selected.Some? ==>
      && s.completed == |CompletedIndices(category, selected.value, p)| <= |selected.value.questions|
      && s.completed + s.remaining == selected.value.totalQuestions
      && s.percentage == Percentage(s.completed, selected.value.totalQuestions)
    ensures selected.Some? && ConsistentTopic(selected.value) ==> s.remaining >= 0 && 0 <= s.percentage <= 100
  {
    match selected
    case None => Stats(0, 0, 0)
    case Some(topic) =>
      var ids := TopicQuestionIds(category, topic);
      assert CompletedPositions(p, ids) == CompletedIndices(category, topic, p);
      GetStats(p, topic.totalQuestions, ids)
  }

  /** The topic's completed count equals the number of completed entries in its view. */
  lemma {:induction false} TopicStatsAgreesWithView(category: string, topic: Topic, p: QuestionProgress)
    ensures TopicStats(category, Some(topic), p).completed
         == |WithStatus(SortedQuestions(category, Some(topic), p), true)|
  {
    var annotated := Annotate(category, topic, p);
    var ids := TopicQuestionIds(category, topic);
    AnnotatedIdsCount(annotated, ids, p);
    CompletedCountIsPositions(p, ids);
    assert WithStatus(StablePartition(annotated), true) == WithStatus(annotated, true) by {
      WithStatusOfPartition(annotated);
    }
  }

  lemma {:induction false} AnnotatedIdsCount(s: seq<AnnotatedQuestion>, ids: seq<string>, p: QuestionProgress)
    requires |s| == |ids|
    requires forall k :: 0 <= k < |s| ==> s[k].id == ids[k] && s[k].completed == IsCompleted(p, ids[k])
    ensures |WithStatus(s, true)| == |CompletedIds(p, ids)|
  {
    if |s| > 0 {
      AnnotatedIdsCount(s[1..], ids[1..], p);
      CompletedIdsAppend(p, [ids[0]], ids[1..]);
      assert ids == [ids[0]] + ids[1..];
      assert [ids[0]][..0] == [];
    }
  }

  lemma {:induction false} WithStatusOfPartition(s: seq<AnnotatedQuestion>)
    ensures WithStatus(StablePartition(s), true) == WithStatus(s, true)
  {
    WithStatusAppend(WithStatus(s, false), WithStatus(s, true), true);
    WithStatusNone(WithStatus(s, false));
    WithStatusIdempotent(WithStatus(s, true));
  }

  lemma {:induction false} WithStatusAppend(a: seq<AnnotatedQuestion>, b: seq<AnnotatedQuestion>, done: bool)
    ensures WithStatus(a + b, done) == WithStatus(a, done) + WithStatus(b, done)
  {
    if |a| > 0 {
      assert (a + b)[0] == a[0];
      assert (a + b)[1..] == a[1..] + b;
      WithStatusAppend(a[1..], b, done);
      var rest := WithStatus(a[1..], done);
      if a[0].completed == done {
        assert WithStatus(a + b, done) == [a[0]] + (rest + WithStatus(b, done));
        assert [a[0]] + (rest + WithStatus(b, done)) == ([a[0]] + rest) + WithStatus(b, done);
      } else {
        assert WithStatus(a + b, done) == rest + WithStatus(b, done);
      }
    } else {
      assert a + b == b;
    }
  }

  lemma {:induction false} WithStatusNone(s: seq<AnnotatedQuestion>)
    requires forall e :: e in s ==> !e.completed
    ensures WithStatus(s, true) == []
  {
    if |s| > 0 {
      assert s[0] in s;
      WithStatusNone(s[1..]);
    }
  }

  lemma {:induction false} WithStatusIdempotent(s: seq<AnnotatedQuestion>)
    requires forall e :: e in s ==> e.completed
    ensures WithStatus(s, true) == s
  {
    if |s| > 0 {
      assert s[0] in s;
      WithStatusIdempotent(s[1..]);
      assert s == [s[0]] + s[1..];
    }
  }
}
