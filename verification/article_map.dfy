/** The section index built by `populateArticleMap`: a JavaScript `Map` from
    section label to the array of articles in that section. A `Map` iterates
    its keys in creation order, so the model keeps that order next to the
    label-to-bucket mapping. */
module ArticleMap {
  import opened Wrappers
  import opened Ordering
  import opened Articles

  datatype Collection = Collection(keys: seq<Label>, buckets: map<Label, seq<Article>>)

  /** The shape every collection built from articles has: each key created
      once, the key order lists exactly the mapped labels, and no bucket is
      empty. */
  predicate Valid(c: Collection) {
    && Distinct(c.keys)
    && (forall i | 0 <= i < |c.keys| :: c.keys[i] in c.buckets)
    && (forall k | k in c.buckets :: k in c.keys)
    && (forall k | k in c.buckets :: |c.buckets[k]| > 0)
  }

  const EmptyCollection := Collection([], map[])

  /** One step of the grouping loop: push onto the existing bucket, or create
      the bucket (and its key) with this article as its only element. */
  function AddArticle(c: Collection, section: Label, a: Article): (r: Collection)
    requires Valid(c)
    ensures Valid(r)
  {
    if section in c.buckets then
      Collection(c.keys, c.buckets[section := c.buckets[section] + [a]])
    else
      Collection(c.keys + [section], c.buckets[section := [a]])
  }

  /** The collection `populateArticleMap` returns when no title is empty. */
  function Group(upper: char -> Label, articles: seq<Article>): (r: Collection)
    requires AllTitled(articles)
    ensures Valid(r)
  {
    if |articles| == 0 then EmptyCollection
    else
      var front := articles[..|articles| - 1];
      var a := articles[|articles| - 1];
      AddArticle(Group(upper, front), LabelOf(upper, a), a)
  }

  // ---------------------------------------------------------------------
  // Reference definitions the grouping is checked against

  /** The labels of the articles, in input order. */
  function Labels(upper: char -> Label, articles: seq<Article>): (r: seq<Label>)
    requires AllTitled(articles)
    ensures |r| == |articles|
    ensures forall i | 0 <= i < |articles| :: r[i] == LabelOf(upper, articles[i])
  {
    if |articles| == 0 then []
    else Labels(upper, articles[..|articles| - 1]) + [LabelOf(upper, articles[|articles| - 1])]
  }

  /** The articles whose label is `section`, in input order. */
  function Labelled(upper: char -> Label, articles: seq<Article>, section: Label): (r: seq<Article>)
    requires AllTitled(articles)
  {
    if |articles| == 0 then []
    else
      var a := articles[|articles| - 1];
      Labelled(upper, articles[..|articles| - 1], section) + (if LabelOf(upper, a) == section then [a] else [])
  }

  /** Position of the first occurrence of `x` in `s`, or `|s|` if none. */
  function FirstIndex<T(==)>(s: seq<T>, x: T): (r: nat)
    ensures r <= |s|
    ensures r < |s| <==> x in s
    ensures r < |s| ==> s[r] == x
    ensures forall k | 0 <= k < r :: s[k] != x
  {
    if |s| == 0 then 0
    else if s[0] == x then 0
    else 1 + FirstIndex(s[1..], x)
  }

  /** The buckets concatenated in key order. */
  function Flatten(keys: seq<Label>, buckets: map<Label, seq<Article>>): seq<Article> {
    if |keys| == 0 then []
    else
      var k := keys[|keys| - 1];
      Flatten(keys[..|keys| - 1], buckets) + (if k in buckets then buckets[k] else [])
  }

  /** The sum of the bucket lengths, over the keys. */
  function SumSizes(keys: seq<Label>, buckets: map<Label, seq<Article>>): nat {
    if |keys| == 0 then 0
    else
      var k := keys[|keys| - 1];
      SumSizes(keys[..|keys| - 1], buckets) + (if k in buckets then |buckets[k]| else 0)
  }

  /** `c` is the section index of `articles`: its labels are exactly the
      articles' labels, each bucket holds exactly the articles with that label
      in input order, and the keys were created in order of first occurrence. */
  ghost predicate IsIndexOf(upper: char -> Label, articles: seq<Article>, c: Collection)
    requires AllTitled(articles)
  {
    var labels := Labels(upper, articles);
    && Valid(c)
    && (forall k :: k in c.buckets <==> k in labels)
    && (forall k | k in c.buckets :: c.buckets[k] == Labelled(upper, articles, k))
    && (forall i, j | 0 <= i < j < |c.keys| :: FirstIndex(labels, c.keys[i]) < FirstIndex(labels, c.keys[j]))
  }

  // ---------------------------------------------------------------------
  // populateArticleMap, with the failure of `title[0].toUpperCase()`

  /** `article.title[0]` is `undefined` for an empty title, so the call to
      `toUpperCase` throws at the first such article. */
  datatype BuildError = EmptyTitle(index: nat)

  method PopulateArticleMap(upper: char -> Label, articles: seq<Article>)
    returns (r: Result<Collection, BuildError>)
    ensures r.Failure? <==> !AllTitled(articles)
    ensures r.Failure? ==>
      && r.error.index < |articles|
      && |articles[r.error.index].title| == 0
      && AllTitled(articles[..r.error.index])
    ensures r.Success? ==> AllTitled(articles) && IsIndexOf(upper, articles, r.value)
  {
    var c := EmptyCollection;
    var i := 0;
    while i < |articles|
      invariant 0 <= i <= |articles|
      invariant AllTitled(articles[..i]) && c == Group(upper, articles[..i])
    {
      if |articles[i].title| == 0 {
        return Failure(EmptyTitle(i));
      }
      GroupStep(upper, articles, i);
      c := AddArticle(c, LabelOf(upper, articles[i]), articles[i]);
      i := i + 1;
    }
    assert articles[..i] == articles;
    GroupIsIndex(upper, articles);
    return Success(c);
  }

  // ---------------------------------------------------------------------
  // Properties of the grouping

  /** Grouping one more article is one more step of the loop. */
  lemma GroupStep(upper: char -> Label, articles: seq<Article>, i: nat)
    requires i < |articles|
    requires forall j | 0 <= j <= i :: |articles[j].title| > 0
    ensures AllTitled(articles[..i]) && AllTitled(articles[..i + 1])
    ensures Group(upper, articles[..i + 1])
         == AddArticle(Group(upper, articles[..i]), LabelOf(upper, articles[i]), articles[i])
  {
    assert articles[..i + 1][..i] == articles[..i];
  }

  lemma {:induction false} FirstIndexAppend<T>(s: seq<T>, y: T, x: T)
    requires x in s
    ensures FirstIndex(s + [y], x) == FirstIndex(s, x)
    decreases |s|
  {
    if s[0] != x {
      assert (s + [y])[1..] == s[1..] + [y];
      FirstIndexAppend(s[1..], y, x);
    }
  }

  /** The labels in the collection are exactly the labels of the articles. */
  lemma {:induction false} GroupKeySet(upper: char -> Label, articles: seq<Article>)
    requires AllTitled(articles)
    ensures forall k :: k in Group(upper, articles).buckets <==> k in Labels(upper, articles)
    decreases |articles|
  {
    if |articles| > 0 {
      var front := articles[..|articles| - 1];
      GroupKeySet(upper, front);
      assert Labels(upper, articles) == Labels(upper, front) + [LabelOf(upper, articles[|articles| - 1])];
    }
  }

  /** Each bucket holds exactly the articles with its label, in input order. */
  lemma {:induction false} GroupBuckets(upper: char -> Label, articles: seq<Article>)
    requires AllTitled(articles)
    ensures forall k | k in Group(upper, articles).buckets ::
      Group(upper, articles).buckets[k] == Labelled(upper, articles, k)
    decreases |articles|
  {
    if |articles| > 0 {
      var front := articles[..|articles| - 1];
      GroupBuckets(upper, front);
      GroupKeySet(upper, front);
      var c0 := Group(upper, front);
      var c := Group(upper, articles);
      forall k | k in c.buckets ensures c.buckets[k] == Labelled(upper, articles, k) {
        if k !in c0.buckets {
          assert Labels(upper, front) == Labels(upper, articles)[..|front|];
          assert Labelled(upper, front, k) == [] by {
            LabelledEmpty(upper, front, k);
          }
        }
      }
    }
  }

  /** No article is labelled with a label none of the articles has. */
  lemma {:induction false} LabelledEmpty(upper: char -> Label, articles: seq<Article>, section: Label)
    requires AllTitled(articles)
    requires section !in Labels(upper, articles)
    ensures Labelled(upper, articles, section) == []
    decreases |articles|
  {
    if |articles| > 0 {
      var front := articles[..|articles| - 1];
      assert Labels(upper, articles) == Labels(upper, front) + [LabelOf(upper, articles[|articles| - 1])];
      LabelledEmpty(upper, front, section);
    }
  }

  /** The key order is the order of first occurrence of each label. */
  lemma {:induction false} GroupKeyOrder(upper: char -> Label, articles: seq<Article>)
    requires AllTitled(articles)
    ensures forall i, j | 0 <= i < j < |Group(upper, articles).keys| ::
      FirstIndex(Labels(upper, articles), Group(upper, articles).keys[i])
        < FirstIndex(Labels(upper, articles), Group(upper, articles).keys[j])
    decreases |articles|
  {
    if |articles| > 0 {
      var front := articles[..|articles| - 1];
      var section := LabelOf(upper, articles[|articles| - 1]);
      GroupKeyOrder(upper, front);
      GroupKeySet(upper, front);
      var c0 := Group(upper, front);
      var c := Group(upper, articles);
      var labels0 := Labels(upper, front);
      var labels := Labels(upper, articles);
      assert labels == labels0 + [section];
      forall k | k in c0.keys ensures FirstIndex(labels, k) == FirstIndex(labels0, k) {
        FirstIndexAppend(labels0, section, k);
      }
      if section !in c0.buckets {
        assert c.keys == c0.keys + [section];
        assert FirstIndex(labels, section) == |labels0|;
      }
    }
  }

  /** The collection built from the articles is their section index. */
  lemma GroupIsIndex(upper: char -> Label, articles: seq<Article>)
    requires AllTitled(articles)
    ensures IsIndexOf(upper, articles, Group(upper, articles))
  {
    GroupKeySet(upper, articles);
    GroupBuckets(upper, articles);
    GroupKeyOrder(upper, articles);
  }

  /** An article is in a bucket exactly when it is one of the articles and
      carries that bucket's label. */
  lemma {:induction false} LabelledMember(upper: char -> Label, articles: seq<Article>, section: Label, x: Article)
    requires AllTitled(articles)
    ensures x in Labelled(upper, articles, section) <==>
      x in articles && |x.title| > 0 && LabelOf(upper, x) == section
    decreases |articles|
  {
    if |articles| > 0 {
      var front := articles[..|articles| - 1];
      LabelledMember(upper, front, section, x);
      assert articles == front + [articles[|articles| - 1]];
    }
  }

  /** Every article lands in the bucket of its own label and in no other. */
  lemma ArticleInOwnSection(upper: char -> Label, articles: seq<Article>, x: Article)
    requires AllTitled(articles)
    requires x in articles
    ensures |x.title| > 0
    ensures LabelOf(upper, x) in Group(upper, articles).buckets
    ensures x in Group(upper, articles).buckets[LabelOf(upper, x)]
    ensures forall k | k in Group(upper, articles).buckets && k != LabelOf(upper, x) ::
      x !in Group(upper, articles).buckets[k]
  {
    var i :| 0 <= i < |articles| && articles[i] == x;
    GroupIsIndex(upper, articles);
    assert Labels(upper, articles)[i] == LabelOf(upper, x);
    LabelledMember(upper, articles, LabelOf(upper, x), x);
    forall k | k in Group(upper, articles).buckets && k != LabelOf(upper, x)
      ensures x !in Group(upper, articles).buckets[k]
    {
      LabelledMember(upper, articles, k, x);
    }
  }

  /** Grouping nothing gives the empty collection. */
  lemma EmptyInputEmptyIndex(upper: char -> Label, c: Collection)
    requires IsIndexOf(upper, [], c)
    ensures c.keys == [] && c.buckets == map[]
  {
    assert Labels(upper, []) == [];
    assert c.buckets.Keys == {};
    KeyCount(c);
  }

  /** A valid collection has exactly one key per bucket. */
  lemma KeyCount(c: Collection)
    requires Valid(c)
    ensures |c.keys| == |c.buckets|
  {
    assert (set i | 0 <= i < |c.keys| :: c.keys[i]) == c.buckets.Keys;
    DistinctCard(c.keys);
  }

  lemma {:induction false} FlattenFrame(keys: seq<Label>, b1: map<Label, seq<Article>>, b2: map<Label, seq<Article>>)
    requires forall i | 0 <= i < |keys| :: (keys[i] in b1 <==> keys[i] in b2)
    requires forall i | 0 <= i < |keys| && keys[i] in b1 :: b1[keys[i]] == b2[keys[i]]
    ensures Flatten(keys, b1) == Flatten(keys, b2)
    decreases |keys|
  {
    if |keys| > 0 {
      FlattenFrame(keys[..|keys| - 1], b1, b2);
    }
  }

  lemma {:induction false} FlattenPush(keys: seq<Label>, b: map<Label, seq<Article>>, section: Label, a: Article)
    requires Distinct(keys)
    requires section in keys && section in b
    ensures multiset(Flatten(keys, b[section := b[section] + [a]]))
         == multiset(Flatten(keys, b)) + multiset{a}
    decreases |keys|
  {
    var b' := b[section := b[section] + [a]];
    var front := keys[..|keys| - 1];
    var k := keys[|keys| - 1];
    assert Distinct(front);
    if k == section {
      assert section !in front;
      FlattenFrame(front, b, b');
    } else {
      assert section in front;
      FlattenPush(front, b, section, a);
    }
  }

  lemma {:induction false} FlattenSize(keys: seq<Label>, b: map<Label, seq<Article>>)
    ensures |Flatten(keys, b)| == SumSizes(keys, b)
    decreases |keys|
  {
    if |keys| > 0 {
      FlattenSize(keys[..|keys| - 1], b);
    }
  }

  /** Adding an article adds it, once, to the concatenated buckets. */
  lemma FlattenAdd(c: Collection, section: Label, a: Article)
    requires Valid(c)
    ensures multiset(Flatten(AddArticle(c, section, a).keys, AddArticle(c, section, a).buckets))
         == multiset(Flatten(c.keys, c.buckets)) + multiset{a}
  {
    if section in c.buckets {
      FlattenPush(c.keys, c.buckets, section, a);
    } else {
      var b := c.buckets[section := [a]];
      assert (c.keys + [section])[..|c.keys|] == c.keys;
      FlattenFrame(c.keys, c.buckets, b);
    }
  }

  /** Concatenating the buckets gives back the input, up to order: nothing is
      lost and nothing duplicated. */
  lemma {:induction false} GroupFlatten(upper: char -> Label, articles: seq<Article>)
    requires AllTitled(articles)
    ensures multiset(Flatten(Group(upper, articles).keys, Group(upper, articles).buckets)) == multiset(articles)
    decreases |articles|
  {
    if |articles| > 0 {
      var front := articles[..|articles| - 1];
      var a := articles[|articles| - 1];
      assert multiset(articles) == multiset(front) + multiset{a} by {
        assert articles == front + [a];
      }
      GroupFlatten(upper, front);
      FlattenAdd(Group(upper, front), LabelOf(upper, a), a);
    }
  }

  /** The bucket lengths add up to the number of articles. */
  lemma GroupSize(upper: char -> Label, articles: seq<Article>)
    requires AllTitled(articles)
    ensures SumSizes(Group(upper, articles).keys, Group(upper, articles).buckets) == |articles|
  {
    var c := Group(upper, articles);
    GroupFlatten(upper, articles);
    FlattenSize(c.keys, c.buckets);
    assert |multiset(Flatten(c.keys, c.buckets))| == |multiset(articles)|;
  }

  /** How many copies of an article a bucket holds: all of them when the
      label matches, none otherwise. */
  lemma {:induction false} LabelledCount(upper: char -> Label, articles: seq<Article>, section: Label, x: Article)
    requires AllTitled(articles)
    ensures multiset(Labelled(upper, articles, section))[x]
         == if |x.title| > 0 && LabelOf(upper, x) == section then multiset(articles)[x] else 0
    decreases |articles|
  {
    if |articles| > 0 {
      var front := articles[..|articles| - 1];
      var a := articles[|articles| - 1];
      LabelledCount(upper, front, section, x);
      assert articles == front + [a];
      assert multiset(articles)[x] == multiset(front)[x] + multiset{a}[x];
    }
  }

  /** A label occurs among the articles exactly when some article carries it. */
  lemma LabelsLabelled(upper: char -> Label, articles: seq<Article>, section: Label)
    requires AllTitled(articles)
    ensures section in Labels(upper, articles) <==> |Labelled(upper, articles, section)| > 0
  {
    if section in Labels(upper, articles) {
      var i :| 0 <= i < |articles| && Labels(upper, articles)[i] == section;
      LabelledMember(upper, articles, section, articles[i]);
    } else {
      LabelledEmpty(upper, articles, section);
    }
  }

  lemma LabelledPermutation(upper: char -> Label, xs: seq<Article>, ys: seq<Article>, section: Label)
    requires AllTitled(xs) && AllTitled(ys)
    requires multiset(xs) == multiset(ys)
    ensures multiset(Labelled(upper, xs, section)) == multiset(Labelled(upper, ys, section))
  {
    forall x ensures multiset(Labelled(upper, xs, section))[x] == multiset(Labelled(upper, ys, section))[x] {
      LabelledCount(upper, xs, section, x);
      LabelledCount(upper, ys, section, x);
    }
  }

  /** Grouping a reordering of the same articles gives the same labels and,
      per label, the same articles. */
  lemma GroupPermutation(upper: char -> Label, xs: seq<Article>, ys: seq<Article>)
    requires AllTitled(xs) && AllTitled(ys)
    requires multiset(xs) == multiset(ys)
    ensures Group(upper, xs).buckets.Keys == Group(upper, ys).buckets.Keys
    ensures forall k | k in Group(upper, xs).buckets ::
      multiset(Group(upper, xs).buckets[k]) == multiset(Group(upper, ys).buckets[k])
  {
    var cx := Group(upper, xs);
    var cy := Group(upper, ys);
    GroupKeySet(upper, xs);
    GroupKeySet(upper, ys);
    forall k ensures k in cx.buckets <==> k in cy.buckets {
      LabelledPermutation(upper, xs, ys, k);
      LabelsLabelled(upper, xs, k);
      LabelsLabelled(upper, ys, k);
      assert |Labelled(upper, xs, k)| == |multiset(Labelled(upper, xs, k))|;
      assert |Labelled(upper, ys, k)| == |multiset(Labelled(upper, ys, k))|;
    }
    GroupBuckets(upper, xs);
    GroupBuckets(upper, ys);
    forall k | k in cx.buckets ensures multiset(cx.buckets[k]) == multiset(cy.buckets[k]) {
      LabelledPermutation(upper, xs, ys, k);
    }
  }
}
