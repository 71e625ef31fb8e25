# Study-aid progress tracking, modelled in Dafny

The application is a single-page catalog of interview questions, grouped by
category and topic. It records which questions the user has marked completed
and shows completed / remaining / percentage counts for one topic and for the
whole catalog. This project models the decision logic behind that screen:

- `Types` (`types.dfy`) holds the catalog shapes. A `Topic` has a title, an intro, its questions and a declared
  `totalQuestions`. `CategoryData` is an ordered sequence of category entries, in the order the
  catalog object is iterated. `QuestionProgress` is a `map<string, bool>`. `StoredProgress` is the
  persisted `{ questions }` document.
- `QuestionId` (`question_id.dfy`) is `createQuestionId`: the category, the separator `__`, the
  title, `__` again, and the decimal index. It includes the decimal rendering of the index and
  its inverse.
- `Progress` (`progress.dfy`) is the progress store:
  - start-up loading from what storage returned, with an empty-map fallback;
  - `toggleQuestion` and `isCompleted`;
  - `getStats` with its rounded percentage.
- `TopicView` (`topic_view.dfy`) has the per-topic pipeline:
  - `sortedQuestions`: annotate every question with its identifier and flag, then put open
    questions first, each group in original order;
  - `topicStats`.
- `CatalogStats` (`catalog_stats.dfy`) is `totalStats`: one walk over every topic that collects
  the identifiers and sums the declared totals.
- `Theme` (`theme.dfy`) is the light/dark preference: validating the saved value, with `dark`
  as the default, and `toggleTheme`.

React state, memoisation and browser storage are replaced by explicit values.
The progress map, the selected topic (`Option<Topic>`) and the saved storage
entries are parameters of pure functions.

The sort is modelled as a stable partition: open entries, then completed ones,
each group in index order. `TopicView.SortedPermutationUnique` shows that the
comparator of the source is a strict order on the annotated questions. So every
permutation sorted by it is this partition, whatever algorithm
`Array.prototype.sort` uses.

## Model

| member | source | states |
|---|---|---|
| QuestionId.Decimal | src/App.tsx:28 | the interpolated index is a non-empty string of decimal digits, with a leading `0` only for zero |
| QuestionId.ParseDecimalOfDecimal | src/App.tsx:28 | reading the rendered index back as a number gives the index: the rendering loses nothing |
| QuestionId.DecimalInjective | src/App.tsx:28 | distinct indices render as distinct digit strings |
| QuestionId.CreateQuestionId | src/App.tsx:27-29 | an identifier is longer than its category and title plus two separators, and ends in a digit |
| QuestionId.IdInjectiveInIndex | src/App.tsx:27-29 | within one category and topic, equal identifiers imply equal indices |
| QuestionId.IdInjective | src/App.tsx:27-29 | when category names contain no underscore, an identifier determines its category, topic title and index |
| QuestionId.IdCollisionWhenSeparatorInName | src/App.tsx:28 | without that condition two different (category, title) pairs can produce the same identifier |
| Progress.Load | src/hooks/useProgress.ts:7-19 | the initial map is the saved `questions` field; a missing entry, a parse failure or a missing `questions` field gives the empty map |
| Progress.Save | src/hooks/useProgress.ts:21-23 | the document written after a change loads back as the map it was written from |
| Progress.LoadAfterSave | src/hooks/useProgress.ts:7-23 | the document written after each change loads back as the same map |
| Progress.IsCompleted | src/hooks/useProgress.ts:32-34 | a question reads as completed exactly when its identifier is present and mapped to true; an absent identifier reads false |
| Progress.Toggle | src/hooks/useProgress.ts:25-30 | after a toggle the toggled question reads as the negation of before (absent becomes true), the key set gains that identifier, and every other entry is unchanged |
| Progress.ToggleTwice | src/hooks/useProgress.ts:25-34 | two toggles of one identifier restore every read value; the map is restored only if the key was present, otherwise it gains the key with `false` |
| Progress.ToggleAllParity | src/hooks/useProgress.ts:25-34 | after any sequence of toggles a question reads as flipped exactly when it was toggled an odd number of times |
| Progress.CompletedIds | src/hooks/useProgress.ts:37 | the filtered list is no longer than the input, and holds exactly the input identifiers that read as completed |
| Progress.CompletedCountIsPositions | src/hooks/useProgress.ts:37 | the completed count is the number of list positions whose identifier reads true, so a duplicate counts once per occurrence |
| Progress.CompletedIdsAppend | src/hooks/useProgress.ts:37 | filtering a concatenation concatenates the filtered parts |
| Progress.ToggleShiftsCount | src/hooks/useProgress.ts:25-37 | toggling one identifier lowers (if it was completed) or raises (if it was not) the completed count by its number of occurrences in the list |
| Progress.Percentage | src/hooks/useProgress.ts:39 | zero when the total is not positive; otherwise the integer nearest to 100·completed/total, halves rounded up; between 0 and 100 when completed ≤ total |
| Progress.GetStats | src/hooks/useProgress.ts:36-42 | completed is the number of completed positions (at most the list length), completed + remaining is the given total, and the percentage is the rounded ratio of completed to the given total, 0 for a non-positive total |
| TopicView.Annotate | src/App.tsx:36-41 | the annotated list has one entry per question; entry k carries index k, question k, its identifier and that identifier's flag |
| TopicView.Compare | src/App.tsx:43-49 | the comparator places `a` before `b` exactly when `a` is open and `b` completed, or both share a status and `a` has the smaller index; it returns 0 only for equal status and index |
| TopicView.CompareIsStrictOrder | src/App.tsx:43-49 | "placed before" is irreflexive, asymmetric and transitive, and for distinct indices the comparator's sign flips when its arguments are swapped |
| TopicView.WithStatus | src/App.tsx:43-49 | the group of one completion status holds exactly the entries of that status, drawn from the input |
| TopicView.WithStatusKeepsOrder | src/App.tsx:44-45 | selecting one status group keeps the entries in increasing index order |
| TopicView.StablePartition | src/App.tsx:43-49 | open entries then completed entries: as long as the input, with exactly the input's entries |
| TopicView.PartitionSorted | src/App.tsx:43-49 | open entries followed by completed entries is strictly ordered by the source's comparator |
| TopicView.PartitionPermutes | src/App.tsx:43-49 | the partition is a permutation of the annotated list |
| TopicView.SortedPermutationUnique | src/App.tsx:43-49 | two permutations of the same entries that are both strictly ordered by the comparator are equal |
| TopicView.SortedQuestions | src/App.tsx:31-50 | empty when no topic is selected; otherwise a permutation of the annotated questions, sorted by the comparator, whose every entry describes its own question |
| TopicView.SortedQuestionsIsTheSort | src/App.tsx:36-49 | every comparator-sorted permutation of the annotated questions equals the view |
| TopicView.SortedQuestionsCoversEachIndexOnce | src/App.tsx:36-49 | the view has one entry per question, every index of the topic appears, and no index appears twice |
| TopicView.SortedQuestionsGrouping | src/App.tsx:43-49 | in the view no completed entry precedes an open one, and entries of equal status are in increasing index order |
| TopicView.SortExample | src/App.tsx:31-49 | for a three-question topic with only question 1 toggled, the view lists indices `[0, 2, 1]` |
| TopicView.TopicQuestionIds | src/App.tsx:57-59 | one identifier per question index, pairwise distinct |
| TopicView.TopicStats | src/App.tsx:52-62 | all zero without a selected topic; otherwise completed counts the completed indices of the topic (at most its question count), completed + remaining is the declared total, the percentage is the rounded ratio of completed to the declared total, and when the declared total matches the list the remainder is non-negative and the percentage is within 0..100 |
| TopicView.TwoQuestionScenario | src/App.tsx:52-62 | in category `JavaScript`, topic `Closures` with two questions and a declared total of 2, toggling question 0 gives 1 completed, 1 remaining, 50% |
| TopicView.TopicStatsAgreesWithView | src/App.tsx:31-62 | the topic's completed count equals the number of completed entries in its sorted view |
| CatalogStats.CategoryIds | src/App.tsx:69-74 | one category contributes one identifier per question text of its topics |
| CatalogStats.AllQuestionIds | src/App.tsx:65-75 | the walk collects one identifier per question text of the catalog |
| CatalogStats.CategoryIdsShape | src/App.tsx:69-74 | one category contributes one identifier per question, and exactly the identifiers of its topics' questions |
| CatalogStats.AllQuestionIdsShape | src/App.tsx:64-75 | the walk collects one identifier per question text of the catalog; an identifier is collected exactly when it names some question of some topic of some category |
| CatalogStats.TopicsTotal | src/App.tsx:69-70 | the summed declared totals of a category's topics equal its number of question texts when every topic's total matches its list |
| CatalogStats.TotalCount | src/App.tsx:66-75 | the running total of declared counts equals the number of question texts when every topic's total matches its list |
| CatalogStats.TotalStats | src/App.tsx:64-78 | completed + remaining is the sum of declared totals, completed counts the completed positions of the full list, the percentage is the rounded ratio of completed to that sum, and for a consistent catalog the remainder is non-negative and the percentage is within 0..100 |
| CatalogStats.TotalCompletedIsSumOfTopics | src/App.tsx:52-78 | the overall completed count is the sum of the per-topic completed counts |
| Theme.Name | src/hooks/useTheme.ts:17-19 | the stored text of a mode is `light` or `dark`, and it reads back as that mode |
| Theme.InitialTheme | src/hooks/useTheme.ts:8-15 | a saved `dark` or `light` is adopted; any other or missing value gives `dark` |
| Theme.ToggleTheme | src/hooks/useTheme.ts:21-23 | a toggle always changes the mode |
| Theme.ToggleThemeTwice | src/hooks/useTheme.ts:21-23 | two toggles give back the original mode |
| Theme.InitialThemeAfterSave | src/hooks/useTheme.ts:8-19 | the stored name of a mode reads back as that mode on the next start-up |
| Theme.ThemeAfterParity | src/hooks/useTheme.ts:5-23 | after n toggles from start-up the mode is the initial one exactly when n is even |

## Left out

- Rendering (src/App.tsx:80-375) is left out: menus, drawers, panels, statistics widgets, styling and the `indexOf`-based menu keys. The per-category label sum at src/App.tsx:83 is the same computation as `CatalogStats.TopicsTotal`, but it only feeds a label.
- React plumbing is left out: `useState`, `useEffect` and `useMemo`. State is passed explicitly, and memoisation does not change any value.
- Browser storage and JSON are abstracted. The progress entry is a `Progress.Saved` value: missing or empty, corrupt, or a parsed document. The theme entry is an `Option<string>`. Writes are modelled only as the document they produce (`Progress.Save`, `Theme.Name`).
- Progress.Load: a parsed document whose `questions` field is truthy but is not an object (a number, a string) would be returned as-is by the source. The model treats a parsed `questions` as either a map or absent.
- Progress.IsCompleted: the source reads a plain JavaScript object, so a key such as `constructor` would find an inherited member. The model is a map. Identifiers built by `createQuestionId` always end in a digit (`QuestionId.CreateQuestionId`), so they never name such a member.
- Progress.Percentage: `Math.round((completed / total) * 100)` is floating-point arithmetic. It is modelled as exact rational round-half-up, `(200·completed + total) / (2·total)` for a positive total. Rounding error at a .5 boundary is not modelled.
- Progress.GetStats: `totalQuestions` is a JavaScript number. It is modelled as an unbounded integer, so fractional or NaN totals are not modelled.
- QuestionId.IdInjective: uniqueness across categories is proved only for category names without underscores. For other names the separator is ambiguous, as `QuestionId.IdCollisionWhenSeparatorInName` shows. The source does not guard against this.
- The speech hook (src/hooks/useSpeech.ts) is left out. It wraps the Web Speech API, and its markdown cleaning relies on JavaScript regular-expression semantics.
- The code playground (src/components/CodePlayground.tsx) is left out. It is a wrapper around an embedded editor widget.
- Search text, filter modes, next/previous navigation and random selection are left out. They do not appear in the code.
