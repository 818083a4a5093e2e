# Simplepedia section index, in Dafny

Simplepedia is a single-page React application that shows a small collection
of encyclopedia articles grouped into alphabetical sections. This project
models its one piece of real logic:

- **Grouping.** `populateArticleMap` (src/App.js) turns a flat list of
  articles into a JavaScript `Map`. Each key is a section label: the
  upper-cased first character of a title. Each value is the array of
  articles with that label.
- **The index bar.** `IndexBar` (src/components/IndexBar.js) lists the
  labels in sorted order. When a section is chosen, it lists that section's
  articles sorted by title.
- **Selection.** Clicking a section label, or a title, updates the index
  bar's `section` state and the application's `currentArticle` state.

The model is functional. Each JavaScript object becomes an immutable
datatype, and each handler becomes a pure function that returns the next
state and the callbacks it fires.

| file | module | models |
|---|---|---|
| wrappers.dfy | `Wrappers` | `Option` (a value that may be `null`/`undefined`), `Result` (a call that may throw) |
| ordering.dfy | `Ordering` | total (pre)orders, sortedness, no-repeats, and the default string order of `Array.prototype.sort` |
| sorting.dfy | `Sorting` | `Array.prototype.sort` as a pure, stable insertion sort |
| articles.dfy | `Articles` | the `Article` record and section labels |
| article_map.dfy | `ArticleMap` | `populateArticleMap` and the properties of the collection it builds |
| index_bar.dfy | `IndexBar` | the section list, the title list, the in-place bucket sort, and the `setSection` / title-click handlers |
| app.dfy | `App` | `currentArticle`, the `select` callback, and the whole page as a click-driven state machine |

How the JavaScript is represented:

- **The `Map`.** A `Collection` holds a `map<Label, seq<Article>>` plus a
  `seq<Label>` of keys in creation order. A `Map` iterates its keys in
  insertion order. The comment at src/App.js:37-39 describes that order,
  and `collection.keys()` exposes it, so the model keeps it.
- **`toUpperCase`.** It becomes a parameter `upper: char -> Label`. A
  `Label` is a non-empty string, because upper-casing one character never
  gives the empty string. So `if (section)` is true exactly when a section
  has been chosen.
- **`localeCompare`.** It becomes a parameter
  `titleLe: (string, string) -> bool`, meaning `a.localeCompare(b) <= 0`.
  Lemmas that need it to be consistent require `TotalPreorder(titleLe)`.
- **`Array.from(collection.keys()).sort()`.** It uses the default
  comparison: lexicographic order by character, with a prefix sorting
  first. That is `Ordering.StrLe`, which is proved to be a total order.
- **An empty title.** `article.title[0]` is then `undefined`, and
  `.toUpperCase()` throws. `PopulateArticleMap` returns
  `Failure(EmptyTitle(i))`, where `i` is the first such article.

Two behaviours of the code that the model keeps as written:

- **Title list for a section that is not a key.** `collection.get(section)`
  is then `undefined`, and calling `sort` on it throws. `TitleList`
  therefore requires the section to be a key. The state-machine invariant
  `App.Inv` shows that a chosen section always is one, so the throwing case
  never arises.
- **Bucket order after display.** `IndexTitles` sorts the bucket array in
  place, inside the collection. `IndexBar.SortBucket` models that mutation,
  and its contract shows that it changes only the order within that one
  bucket. `SortBucketOnlyReorders` shows that the collection stays well
  formed, and `RenderAfterSortBucket` that nothing displayed changes.

## Model

| member | source | states |
|---|---|---|
| ArticleMap.PopulateArticleMap | src/App.js:9-22 | fails exactly when some title is empty, reporting the first empty title (with every earlier title non-empty); on success the result is the section index of the input (`IsIndexOf`) |
| ArticleMap.AddArticle | src/App.js:14-18 | pushing onto an existing bucket or creating a new key with a one-article bucket keeps the collection well formed: keys distinct, key order lists exactly the mapped labels, no bucket empty |
| ArticleMap.Group | src/App.js:12-19 | the collection built by the loop is well formed; in particular every bucket is non-empty, because a key is only created together with its first article |
| ArticleMap.GroupIsIndex | src/App.js:12-18 | the built collection is the section index: label set = the input's labels, each bucket = exactly the articles with that label in input order, keys in first-occurrence order |
| ArticleMap.GroupKeySet | src/App.js:10-21 | a label is a key exactly when some input article has that label |
| ArticleMap.GroupBuckets | src/App.js:14-18 | each bucket is exactly the subsequence of the input with that label, so `push` keeps input order |
| ArticleMap.GroupKeyOrder | src/App.js:14-18 | keys appear in the order in which their labels first occur in the input, which is the `Map` iteration order the comment at lines 37-39 describes |
| ArticleMap.ArticleInOwnSection | src/App.js:12-18 | every input article is in the bucket keyed by its own label and in no other bucket |
| ArticleMap.GroupFlatten | src/App.js:12-19 | the buckets concatenated in key order are a permutation of the input: nothing lost, nothing duplicated |
| ArticleMap.GroupSize | src/App.js:12-19 | the bucket lengths sum to the number of input articles |
| ArticleMap.GroupPermutation | src/App.js:9-22 | grouping a reordering of the same articles gives the same key set and, per key, the same multiset of articles |
| ArticleMap.EmptyInputEmptyIndex | src/App.js:10-21 | the index of an empty article list has no keys and no buckets |
| ArticleMap.KeyCount | src/App.js:14-18 | a well-formed collection has exactly one key per bucket |
| ArticleMap.LabelledMember | src/App.js:13-17 | an article is in the bucket for a label iff it is an input article carrying that label |
| ArticleMap.LabelledCount | src/App.js:13-17 | a bucket holds every copy of an article with its label and none of any other |
| Ordering.StrLeIsTotalOrder | src/components/IndexBar.js:99 | the default string order of `sort()` is reflexive, transitive, total and antisymmetric |
| IndexBar.LabelOrder | src/components/IndexBar.js:99 | the same order, restricted to labels, is a total order |
| Sorting.InsertionSort | src/components/IndexBar.js:52 | the sort returns the same elements, each as often, and no more |
| Sorting.SortIsSorted | src/components/IndexBar.js:52 | under a total preorder the sorted sequence is ascending and a permutation of the input |
| Sorting.SortStable | src/components/IndexBar.js:52 | elements that compare equal keep their input order |
| Sorting.SortOfSorted | src/components/IndexBar.js:52 | sorting an already sorted sequence returns it unchanged |
| Sorting.SortIdempotent | src/components/IndexBar.js:52 | sorting the sorted output again returns it unchanged |
| Sorting.SortStrictlyAscending | src/components/IndexBar.js:99 | a repeat-free sequence sorted by a total order is strictly ascending and repeat-free |
| Sorting.DistinctPermutation | src/components/IndexBar.js:99 | a permutation of a repeat-free sequence is repeat-free |
| IndexBar.Sections | src/components/IndexBar.js:99 | the section list has one entry per key, with the same multiset of labels; `SectionsSpec` adds that it is strictly ascending |
| IndexBar.SectionsSpec | src/components/IndexBar.js:99 | the section list contains each key exactly once, nothing else, and is strictly ascending |
| IndexBar.ByTitlePreorder | src/components/IndexBar.js:52 | comparing articles by title is a total preorder when the title collation is |
| IndexBar.TitleList | src/components/IndexBar.js:51-52 | the listed titles are the chosen bucket's articles, each as often as in the bucket; `TitleListSpec` adds the title order |
| IndexBar.TitleListSpec | src/components/IndexBar.js:52-64 | the title list has one entry per article of the chosen bucket (same multiset) and is ascending by title |
| IndexBar.TitleListStable | src/components/IndexBar.js:52 | articles whose titles collate equally appear in their bucket order |
| IndexBar.SortBucket | src/components/IndexBar.js:52 | sorting a bucket in place keeps the keys and their order, leaves every other bucket as it was, and keeps that bucket's multiset |
| IndexBar.SortBucketOnlyReorders | src/components/IndexBar.js:52 | the in-place sort of a bucket keeps the collection well formed (distinct keys, key order matching the map, no empty bucket); `SortBucket` states what else it keeps |
| IndexBar.RenderAfterSortBucket | src/components/IndexBar.js:52 | after a bucket was sorted in place, every section's title list is unchanged |
| IndexBar.SetSection | src/components/IndexBar.js:100-105 | after a section click that section is current; `select()` with no article fires exactly once if the state changed, and nothing fires otherwise |
| IndexBar.Render | src/components/IndexBar.js:88-94 | the placeholder shows exactly when no section is chosen; otherwise the pane lists exactly the chosen section's title list |
| IndexBar.ChooseTitle | src/components/IndexBar.js:56-59 | clicking a listed title fires `select` with an article, and that article belongs to the chosen section |
| IndexBar.InitialBarShowsPlaceholder | src/components/IndexBar.js:77-94 | the initial state has no section and renders only the placeholder |
| App.Deliver | src/App.js:59 | `select` replaces `currentArticle` by its argument, whatever was current before, and `select()` clears it; `DeliverAll` states the effect of a handler's callbacks |
| App.DeliverAll | src/App.js:59 | after a handler's callbacks, `currentArticle` is the last callback's argument, or unchanged if none fired |
| App.View | src/App.js:54-63 | the page lists the sorted sections and shows `currentArticle` as the article; the article view is present iff `currentArticle` is defined; the title list is present iff a section is chosen, and the title pane is `Render`'s, so it lists exactly the chosen section's `TitleList` |
| App.Step | src/App.js:57-61 | every enabled click keeps the page invariant: the chosen section is a key, and a current article belongs to the chosen section |
| App.InitialScreen | src/App.js:45-47 | at start-up the invariant holds, no section is chosen, only the placeholder shows, and no article is current |
| App.ClickNewSection | src/components/IndexBar.js:100-104 | clicking a section other than the current one makes it current and clears the current article |
| App.ClickSameSection | src/components/IndexBar.js:101 | clicking the current section leaves the whole page state unchanged |
| App.ClickTitleSelects | src/components/IndexBar.js:56-59 | clicking the i-th listed title makes exactly that article current and keeps the section |

## Left out

- React rendering, JSX markup, styling, `key` props and PropTypes. They are presentation only. The model keeps what is displayed (`Screen`, `TitlePane`) and drops how it is drawn.
- src/components/Article.js. It is a display component, and its `new Date(edited).toLocaleString()` depends on locale and time zone. `edited` is kept as an uninterpreted string.
- The editor, and the "New Article" / "Edit Article" buttons that src/App.test.js expects. The Editor component's source is not part of this model, and the App.js modelled here has no such buttons or create/update operations.
- Loading `seed.json`. The article list is a parameter.
- Unicode upper-casing and locale-aware collation. They are the parameters `upper` and `titleLe`.
- Articles.LabelOf: takes the first character of the title, while `article.title[0]` in JavaScript is the first UTF-16 code unit. The two differ only for titles that start outside the Basic Multilingual Plane: JavaScript would key those by a lone surrogate, which a Dafny string cannot hold.
- Ordering.StrLe: compares Dafny characters (Unicode scalar values), while JavaScript compares UTF-16 code units. The two orders differ only for characters outside the Basic Multilingual Plane.
- IndexBar.TitleListSpec: requires `TotalPreorder(titleLe)`, that is, a consistent `localeCompare`. With an inconsistent comparator, the result of JavaScript's `sort` is implementation-defined.
- IndexBar.TitleListStable: shows that the model's sort is stable. It does not prove that this is the only sorted, stable permutation, which is what any conforming engine's `sort` returns.
- App.Step: does not pass the in-place sorted collection from one render to the next. `RenderAfterSortBucket` shows that this changes nothing that is displayed. After a section has been displayed, its bucket is in title order, not input order. So `GroupBuckets` describes the collection as built, before any section is shown.
- A concrete check against the five-article fixture of IndexBar.test.js. Unfolding the grouping over concrete data is too costly for the verifier. The general lemmas above cover the same behaviour.
