/** Article records and their section labels. */
module Articles {

  /** One encyclopedia entry. `edited` is the ISO-8601 timestamp string as
      stored; nothing in the index interprets it. */
  datatype Article = Article(title: string, extract: string, edited: string)

  /** A section label: the upper-cased first character of a title.
      Upper-casing one character never yields the empty string. */
  type Label = s: string | |s| > 0 witness "A"

  /** The label of a titled article under the given upper-casing of its
      first character. */
  function LabelOf(upper: char -> Label, a: Article): Label
    requires |a.title| > 0
  {
    upper(a.title[0])
  }

  /** Every article has a first character to take the label from. */
  predicate AllTitled(articles: seq<Article>) {
    forall i | 0 <= i < |articles| :: |articles[i].title| > 0
  }
}
