/**
 * The shapes of the study-aid catalog and of the persisted progress record
 * (src/types/index.ts), plus the Option type used for absent values.
 */
module Types {

  /** An optional value: a missing storage entry, no selected topic, a missing field. */
  datatype Option<+T> = None | Some(value: T)

  /**
   * One topic of a category: a title, an introductory blurb, the ordered
   * question texts and the declared question count. The declared count is
   * data from the catalog document and is not checked against the list.
   */
  datatype Topic = Topic(title: string, intro: string, questions: seq<string>, totalQuestions: int)

  /**
   * One entry of the catalog object: a category name and its ordered topics.
   * The catalog is iterated in entry order, so it is modelled as a sequence
   * of entries rather than as an unordered map.
   */
  datatype CategoryEntry = CategoryEntry(name: string, topics: seq<Topic>)

  type CategoryData = seq<CategoryEntry>

  /** Completion flags keyed by question identifier. */
  type QuestionProgress = map<string, bool>

  /**
   * The persisted progress document `{ questions: {...} }`. A document that
   * parsed but carries no (or a falsy) `questions` field has `questions == None`.
   */
  datatype StoredProgress = StoredProgress(questions: Option<QuestionProgress>)

  /** True when a topic's declared count agrees with its question list. */
  predicate ConsistentTopic(t: Topic)
  {
    t.totalQuestions == |t.questions|
  }

  /** True when every topic of every category is consistent. */
  predicate ConsistentCatalog(data: CategoryData)
  {
    forall c, t :: 0 <= c < |data| && 0 <= t < |data[c].topics| ==> ConsistentTopic(data[c].topics[t])
  }
}
