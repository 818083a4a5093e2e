/** The index bar: the sorted list of section labels, the sorted list of
    titles of the chosen section, and the section-selection state that
    decides which of the two title panes is shown. */
module IndexBar {
  import opened Wrappers
  import opened Ordering
  import opened Sorting
  import opened Articles
  import opened ArticleMap

  // ---------------------------------------------------------------------
  // The section list

  /** `Array.from(collection.keys()).sort()`: the keys in the default string
      order. */
  function Sections(c: Collection): (r: seq<Label>)
    ensures |r| == |c.keys|
    ensures multiset(r) == multiset(c.keys)
  {
    InsertionSort(c.keys, LabelLe)
  }

  /** The default string order, on labels. */
  predicate LabelLe(a: Label, b: Label) {
    StrLe(a, b)
  }

  /** Labels are strings, so the default string order orders them totally. */
  lemma LabelOrder()
    ensures TotalOrder(LabelLe)
  {
    forall a: Label ensures LabelLe(a, a) {
      StrLeReflexive(a);
    }
    forall a: Label, b: Label, d: Label | LabelLe(a, b) && LabelLe(b, d) ensures LabelLe(a, d) {
      StrLeTransitive(a, b, d);
    }
    forall a: Label, b: Label ensures LabelLe(a, b) || LabelLe(b, a) {
      StrLeTotal(a, b);
    }
    forall a: Label, b: Label | LabelLe(a, b) && LabelLe(b, a) ensures a == b {
      StrLeAntisymmetric(a, b);
    }
  }

  /** The section list shows every label of the collection exactly once, in
      strictly ascending order. */
  lemma SectionsSpec(c: Collection)
    requires Valid(c)
    ensures |Sections(c)| == |c.buckets|
    ensures forall k :: k in Sections(c) <==> k in c.buckets
    ensures Distinct(Sections(c))
    ensures forall i, j | 0 <= i < j < |Sections(c)| :: StrLt(Sections(c)[i], Sections(c)[j])
  {
    LabelOrder();
    SortStrictlyAscending(c.keys, LabelLe);
    KeyCount(c);
    forall k ensures k in Sections(c) <==> k in c.buckets {
      assert k in Sections(c) <==> k in multiset(Sections(c));
      assert k in c.keys <==> k in multiset(c.keys);
    }
  }

  // ---------------------------------------------------------------------
  // The title list

  /** `a1.title.localeCompare(a2.title) <= 0`, for a given collation. */
  function ByTitle(titleLe: (string, string) -> bool): (Article, Article) -> bool {
    (a1: Article, a2: Article) => titleLe(a1.title, a2.title)
  }

  lemma ByTitlePreorder(titleLe: (string, string) -> bool)
    requires TotalPreorder(titleLe)
    ensures TotalPreorder(ByTitle(titleLe))
  {
    var le := ByTitle(titleLe);
    forall x, y, z | le(x, y) && le(y, z) ensures le(x, z) {
      assert titleLe(x.title, y.title) && titleLe(y.title, z.title);
    }
    forall x, y ensures le(x, y) || le(y, x) {
      assert titleLe(x.title, y.title) || titleLe(y.title, x.title);
    }
    forall x ensures le(x, x) {
      assert titleLe(x.title, x.title);
    }
  }

  /** What `IndexTitles` lists for a section: its bucket sorted by title.
      The section must be a key: `collection.get` of any other label is
      `undefined`, and sorting it throws. */
  function TitleList(c: Collection, section: Label, titleLe: (string, string) -> bool): (r: seq<Article>)
    requires section in c.buckets
    ensures |r| == |c.buckets[section]|
    ensures multiset(r) == multiset(c.buckets[section])
  {
    InsertionSort(c.buckets[section], ByTitle(titleLe))
  }

  /** The title list shows the articles of the section, each as often as it
      is in the bucket, in ascending title order. */
  lemma TitleListSpec(c: Collection, section: Label, titleLe: (string, string) -> bool)
    requires TotalPreorder(titleLe)
    requires section in c.buckets
    ensures |TitleList(c, section, titleLe)| == |c.buckets[section]|
    ensures multiset(TitleList(c, section, titleLe)) == multiset(c.buckets[section])
    ensures forall i, j | 0 <= i < j < |TitleList(c, section, titleLe)| ::
      titleLe(TitleList(c, section, titleLe)[i].title, TitleList(c, section, titleLe)[j].title)
  {
    ByTitlePreorder(titleLe);
    SortIsSorted(c.buckets[section], ByTitle(titleLe));
    var r := TitleList(c, section, titleLe);
    forall i, j | 0 <= i < j < |r| ensures titleLe(r[i].title, r[j].title) {
      assert ByTitle(titleLe)(r[i], r[j]);
    }
  }

  /** Articles whose titles collate equally keep their order in the bucket. */
  lemma TitleListStable(c: Collection, section: Label, titleLe: (string, string) -> bool, p: Article)
    requires TotalPreorder(titleLe)
    requires section in c.buckets
    ensures Ties(TitleList(c, section, titleLe), ByTitle(titleLe), p) == Ties(c.buckets[section], ByTitle(titleLe), p)
  {
    ByTitlePreorder(titleLe);
    SortStable(c.buckets[section], ByTitle(titleLe), p);
  }

  /** `articles.sort(...)` sorts the bucket in place, inside the collection. */
  function SortBucket(c: Collection, section: Label, titleLe: (string, string) -> bool): (r: Collection)
    requires section in c.buckets
    ensures r.keys == c.keys && r.buckets.Keys == c.buckets.Keys
    ensures forall k | k in c.buckets && k != section :: r.buckets[k] == c.buckets[k]
    ensures multiset(r.buckets[section]) == multiset(c.buckets[section])
  {
    Collection(c.keys, c.buckets[section := TitleList(c, section, titleLe)])
  }

  /** Sorting a bucket in place keeps the collection well formed: the
      bucket's multiset is kept, so it stays non-empty. */
  lemma SortBucketOnlyReorders(c: Collection, section: Label, titleLe: (string, string) -> bool)
    requires Valid(c)
    requires section in c.buckets
    ensures Valid(SortBucket(c, section, titleLe))
  {
  }

  /** Rendering a section again after its bucket was sorted in place shows
      the same list: the title list is unaffected by the mutation. */
  lemma RenderAfterSortBucket(c: Collection, section: Label, other: Label, titleLe: (string, string) -> bool)
    requires TotalPreorder(titleLe)
    requires section in c.buckets && other in c.buckets
    ensures other in SortBucket(c, section, titleLe).buckets
    ensures TitleList(SortBucket(c, section, titleLe), other, titleLe) == TitleList(c, other, titleLe)
  {
    if other == section {
      ByTitlePreorder(titleLe);
      SortIdempotent(c.buckets[section], ByTitle(titleLe));
    }
  }

  // ---------------------------------------------------------------------
  // Section selection

  /** The component state: the chosen section, `null` at first. */
  datatype BarState = BarState(section: Option<Label>)

  const InitialBar := BarState(None)

  /** One call of the `select` callback: `select()` or `select(article)`. */
  datatype Callback = Select(article: Option<Article>)

  datatype Reaction = Reaction(state: BarState, fired: seq<Callback>)

  /** The `setSection` handler: a different section becomes the current one
      and deselects any article; the current section again does nothing. */
  function SetSection(st: BarState, newSection: Label): (r: Reaction)
    ensures r.state.section == Some(newSection)
    ensures r.state != st <==> |r.fired| > 0
    ensures |r.fired| <= 1
    ensures forall i | 0 <= i < |r.fired| :: r.fired[i] == Select(None)
  {
    if st.section != Some(newSection) then
      Reaction(BarState(Some(newSection)), [Select(None)])
    else
      Reaction(st, [])
  }

  /** The title pane below the section list. */
  datatype TitlePane = Placeholder | Titles(items: seq<Article>)

  /** A state the component can be rendered in: the chosen section, if
      any, is a key of the collection. */
  predicate BarValid(c: Collection, st: BarState) {
    st.section.Some? ==> st.section.value in c.buckets
  }

  /** `if (section)` chooses between the title list and the placeholder. */
  function Render(c: Collection, st: BarState, titleLe: (string, string) -> bool): (r: TitlePane)
    requires BarValid(c, st)
    ensures r.Placeholder? <==> st.section.None?
    ensures r.Titles? ==> st.section.Some? && r.items == TitleList(c, st.section.value, titleLe)
  {
    match st.section
    case None => Placeholder
    case Some(s) => Titles(TitleList(c, s, titleLe))
  }

  /** The click handler of the `index`-th listed title: it passes that very
      article record to `select`. The record is an article of the chosen
      section. */
  function ChooseTitle(c: Collection, st: BarState, titleLe: (string, string) -> bool, index: nat): (r: Callback)
    requires BarValid(c, st) && st.section.Some?
    requires index < |TitleList(c, st.section.value, titleLe)|
    ensures r.article.Some?
    ensures r.article.value in c.buckets[st.section.value]
  {
    var items := TitleList(c, st.section.value, titleLe);
    assert items[index] in multiset(items);
    Select(Some(items[index]))
  }

  /** Before any click, no section is chosen and only the placeholder shows. */
  lemma InitialBarShowsPlaceholder(c: Collection, titleLe: (string, string) -> bool)
    ensures BarValid(c, InitialBar)
    ensures Render(c, InitialBar, titleLe) == Placeholder
  {
  }
}
