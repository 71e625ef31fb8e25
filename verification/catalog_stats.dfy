/**
 * The whole-catalog statistics of src/App.tsx (`totalStats`): one walk over
 * every category entry and topic that sums the declared totals and collects
 * one identifier per question, followed by the same getStats as per topic.
 */
module CatalogStats {
  import opened Types
  import opened QuestionId
  import opened Progress
  import opened TopicView

  /** The identifiers of every question of `topics` in category `name`, topic by topic. */
  function CategoryIds(name: string, topics: seq<Topic>): (ids: seq<string>)
    ensures |ids| == TopicsQuestionCount(topics)
  {
    if |topics| == 0 then [] else TopicQuestionIds(name, topics[0]) + CategoryIds(name, topics[1..])
  }

  /** The identifier list the walk builds, in entry order: one identifier per question text. */
  function AllQuestionIds(data: CategoryData): (ids: seq<string>)
    ensures |ids| == QuestionCount(data)
  {
    if |data| == 0 then [] else CategoryIds(data[0].name, data[0].topics) + AllQuestionIds(data[1..])
  }

  /**
   * The sum of the declared totals of `topics`; when every declared total
   * matches its list, the number of question texts.
   */
  function TopicsTotal(topics: seq<Topic>): (total: int)
    ensures (forall t :: 0 <= t < |topics| ==> ConsistentTopic(topics[t])) ==> total == TopicsQuestionCount(topics)
  {
    if |topics| == 0 then 0
    else
      assert forall t :: 0 <= t < |topics[1..]| ==> topics[1..][t] == topics[t + 1];
      topics[0].totalQuestions + TopicsTotal(topics[1..])
  }

  /**
   * The running count the walk builds: the declared totals of every topic.
   * In a consistent catalog it is the number of question texts.
   */
  function TotalCount(data: CategoryData): (total: int)
    ensures ConsistentCatalog(data) ==> total == QuestionCount(data)
  {
    if |data| == 0 then 0
    else
      assert ConsistentCatalog(data) ==> ConsistentCatalog(data[1..]) by {
        if ConsistentCatalog(data) {
          ConsistentTail(data);
        }
      }
      TopicsTotal(data[0].topics) + TotalCount(data[1..])
  }

  lemma ConsistentTail(data: CategoryData)
    requires ConsistentCatalog(data) && |data| > 0
    ensures ConsistentCatalog(data[1..])
  {
    forall c, t | 0 <= c < |data[1..]| && 0 <= t < |data[1..][c].topics|
      ensures ConsistentTopic(data[1..][c].topics[t])
    {
      assert data[1..][c] == data[c + 1];
    }
  }

  /** The number of question texts of `topics`. */
  function TopicsQuestionCount(topics: seq<Topic>): nat
  {
    if |topics| == 0 then 0 else |topics[0].questions| + TopicsQuestionCount(topics[1..])
  }

  /** The number of question texts in the whole catalog. */
  function QuestionCount(data: CategoryData): nat
  {
    if |data| == 0 then 0 else TopicsQuestionCount(data[0].topics) + QuestionCount(data[1..])
  }

  /** `id` names question k of topic t of category c, for some valid c, t and k. */
  ghost predicate NamesAQuestion(data: CategoryData, id: string)
  {
    exists c, t, k :: 0 <= c < |data| && 0 <= t < |data[c].topics| && 0 <= k < |data[c].topics[t].questions|
      && id == CreateQuestionId(data[c].name, data[c].topics[t].title, k)
  }

  ghost predicate NamesAQuestionOf(name: string, topics: seq<Topic>, id: string)
  {
    exists t, k :: 0 <= t < |topics| && 0 <= k < |topics[t].questions|
      && id == CreateQuestionId(name, topics[t].title, k)
  }

  lemma {:induction false} CategoryIdsShape(name: string, topics: seq<Topic>)
    ensures |CategoryIds(name, topics)| == TopicsQuestionCount(topics)
    ensures forall id :: id in CategoryIds(name, topics) <==> NamesAQuestionOf(name, topics, id)
  {
    if |topics| > 0 {
      var head := TopicQuestionIds(name, topics[0]);
      var rest := topics[1..];
      CategoryIdsShape(name, rest);
      forall id ensures id in CategoryIds(name, topics) <==> NamesAQuestionOf(name, topics, id) {
        if id in head {
          var k :| 0 <= k < |head| && head[k] == id;
          assert id == CreateQuestionId(name, topics[0].title, k);
        } else if NamesAQuestionOf(name, rest, id) {
          var t, k :| 0 <= t < |rest| && 0 <= k < |rest[t].questions| && id == CreateQuestionId(name, rest[t].title, k);
          assert rest[t] == topics[t + 1];
        }
        if NamesAQuestionOf(name, topics, id) {
          var t, k :| 0 <= t < |topics| && 0 <= k < |topics[t].questions| && id == CreateQuestionId(name, topics[t].title, k);
          if t == 0 {
            assert head[k] == id;
          } else {
            assert topics[t] == rest[t - 1];
            assert NamesAQuestionOf(name, rest, id);
          }
        }
      }
    }
  }

  /**
   * The walk yields one identifier per question text, and an identifier is
   * in the list exactly when it names some question of the catalog.
   */
  lemma {:induction false} AllQuestionIdsShape(data: CategoryData)
    ensures |AllQuestionIds(data)| == QuestionCount(data)
    ensures forall id :: id in AllQuestionIds(data) <==> NamesAQuestion(data, id)
  {
    if |data| > 0 {
      var head := CategoryIds(data[0].name, data[0].topics);
      var rest := data[1..];
      CategoryIdsShape(data[0].name, data[0].topics);
      AllQuestionIdsShape(rest);
      forall id ensures id in AllQuestionIds(data) <==> NamesAQuestion(data, id) {
        if id in head {
          var t, k :| 0 <= t < |data[0].topics| && 0 <= k < |data[0].topics[t].questions|
            && id == CreateQuestionId(data[0].name, data[0].topics[t].title, k);
          assert NamesAQuestion(data, id);
        } else if NamesAQuestion(rest, id) {
          var c, t, k :| 0 <= c < |rest| && 0 <= t < |rest[c].topics| && 0 <= k < |rest[c].topics[t].questions|
            && id == CreateQuestionId(rest[c].name, rest[c].topics[t].title, k);
          assert rest[c] == data[c + 1];
          assert NamesAQuestion(data, id);
        }
        if NamesAQuestion(data, id) {
          var c, t, k :| 0 <= c < |data| && 0 <= t < |data[c].topics| && 0 <= k < |data[c].topics[t].questions|
            && id == CreateQuestionId(data[c].name, data[c].topics[t].title, k);
          if c == 0 {
            assert NamesAQuestionOf(data[0].name, data[0].topics, id);
          } else {
            assert data[c] == rest[c - 1];
            assert NamesAQuestion(rest, id);
          }
        }
      }
    }
  }

  /**
   * totalStats: completed questions over the whole catalog against the sum
   * of the declared totals.
   */
  function TotalStats(data: CategoryData, p: QuestionProgress): (s: Stats)
    ensures s.completed + s.remaining == TotalCount(data)
    ensures s.completed == |CompletedPositions(p, AllQuestionIds(data))| <= QuestionCount(data)
    ensures s.percentage == Percentage(s.completed, TotalCount(data))
    ensures ConsistentCatalog(data) ==> s.remaining >= 0 && 0 <= s.percentage <= 100
  {
    GetStats(p, TotalCount(data), AllQuestionIds(data))
  }

  /** The sum of the per-topic completed counts of `topics`. */
  function TopicsCompleted(name: string, topics: seq<Topic>, p: QuestionProgress): nat
  {
    if |topics| == 0 then 0
    else TopicStats(name, Some(topics[0]), p).completed + TopicsCompleted(name, topics[1..], p)
  }

  /** The sum of the per-topic completed counts of the whole catalog. */
  function CatalogCompleted(data: CategoryData, p: QuestionProgress): nat
  {
    if |data| == 0 then 0 else TopicsCompleted(data[0].name, data[0].topics, p) + CatalogCompleted(data[1..], p)
  }

  lemma {:induction false} CategoryCompletedAdds(name: string, topics: seq<Topic>, p: QuestionProgress)
    ensures |CompletedIds(p, CategoryIds(name, topics))| == TopicsCompleted(name, topics, p)
  {
    if |topics| > 0 {
      var head := TopicQuestionIds(name, topics[0]);
      CategoryCompletedAdds(name, topics[1..], p);
      CompletedIdsAppend(p, head, CategoryIds(name, topics[1..]));
      CompletedCountIsPositions(p, head);
    }
  }

  /** The overall completed count is the sum of the completed counts of every topic. */
  lemma {:induction false} TotalCompletedIsSumOfTopics(data: CategoryData, p: QuestionProgress)
    ensures TotalStats(data, p).completed == CatalogCompleted(data, p)
  {
    TotalCompletedAdds(data, p);
    CompletedCountIsPositions(p, AllQuestionIds(data));
  }

  lemma {:induction false} TotalCompletedAdds(data: CategoryData, p: QuestionProgress)
    ensures |CompletedIds(p, AllQuestionIds(data))| == CatalogCompleted(data, p)
  {
    if |data| > 0 {
      TotalCompletedAdds(data[1..], p);
      CategoryCompletedAdds(data[0].name, data[0].topics, p);
      CompletedIdsAppend(p, CategoryIds(data[0].name, data[0].topics), AllQuestionIds(data[1..]));
    }
  }
}
