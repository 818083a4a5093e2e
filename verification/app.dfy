/** The application shell: the `currentArticle` state, the `select` callback
    that sets it, and the whole page as a state machine driven by clicks on
    section labels and titles. */
module App {
  import opened Wrappers
  import opened Articles
  import opened ArticleMap
  import opened IndexBar

  /** `this.state` of the application component. */
  datatype AppState = AppState(currentArticle: Option<Article>)

  const InitialApp := AppState(None)

  /** `select` as passed to the index bar: `setState({ currentArticle: article })`,
      where `select()` leaves the article undefined. */
  function Deliver(app: AppState, cb: Callback): (r: AppState)
    ensures r.currentArticle == cb.article
  {
    AppState(cb.article)
  }

  /** The callbacks of one handler, delivered in order. */
  function DeliverAll(app: AppState, cbs: seq<Callback>): (r: AppState)
    ensures |cbs| == 0 ==> r == app
    ensures |cbs| > 0 ==> r.currentArticle == cbs[|cbs| - 1].article
  {
    if |cbs| == 0 then app
    else Deliver(DeliverAll(app, cbs[..|cbs| - 1]), cbs[|cbs| - 1])
  }

  /** The whole page state: the index bar's and the application's. */
  datatype Ui = Ui(bar: BarState, app: AppState)

  const InitialUi := Ui(InitialBar, InitialApp)

  /** What the page shows. */
  datatype Screen = Screen(sections: seq<Label>, titles: TitlePane, article: Option<Article>)

  /** The page for a state: the section list, the title pane and, only
      when an article is current, the article view. */
  function View(c: Collection, ui: Ui, titleLe: (string, string) -> bool): (r: Screen)
    requires BarValid(c, ui.bar)
    ensures r.article.Some? <==> ui.app.currentArticle.Some?
    ensures r.titles.Titles? <==> ui.bar.section.Some?
    ensures r.sections == Sections(c) && r.article == ui.app.currentArticle
    ensures r.titles == Render(c, ui.bar, titleLe)
  {
    Screen(Sections(c), Render(c, ui.bar, titleLe), ui.app.currentArticle)
  }

  /** A click: on a listed section label, or on the `index`-th listed title. */
  datatype Event = ClickSection(section: Label) | ClickTitle(index: nat)

  /** Only what is on screen can be clicked. */
  predicate Enabled(c: Collection, ui: Ui, titleLe: (string, string) -> bool, e: Event)
    requires BarValid(c, ui.bar)
  {
    match e
    case ClickSection(s) => s in Sections(c)
    case ClickTitle(i) => ui.bar.section.Some? && i < |TitleList(c, ui.bar.section.value, titleLe)|
  }

  /** The states the page can be in: the chosen section is a key, and a
      current article, if any, belongs to the chosen section. */
  predicate Inv(c: Collection, ui: Ui) {
    && BarValid(c, ui.bar)
    && (ui.app.currentArticle.Some? ==>
          ui.bar.section.Some? && ui.app.currentArticle.value in c.buckets[ui.bar.section.value])
  }

  function Step(c: Collection, ui: Ui, titleLe: (string, string) -> bool, e: Event): (r: Ui)
    requires Valid(c)
    requires Inv(c, ui) && Enabled(c, ui, titleLe, e)
    ensures Inv(c, r)
  {
    match e
    case ClickSection(s) =>
      SectionsSpec(c);
      var reaction := SetSection(ui.bar, s);
      Ui(reaction.state, DeliverAll(ui.app, reaction.fired))
    case ClickTitle(i) =>
      Ui(ui.bar, Deliver(ui.app, ChooseTitle(c, ui.bar, titleLe, i)))
  }

  /** At start-up no section is chosen, no title list is shown and no
      article is current. */
  lemma InitialScreen(c: Collection, titleLe: (string, string) -> bool)
    requires Valid(c)
    ensures Inv(c, InitialUi)
    ensures View(c, InitialUi, titleLe) == Screen(Sections(c), Placeholder, None)
  {
  }

  /** Choosing a different section makes it current and clears the article. */
  lemma ClickNewSection(c: Collection, ui: Ui, titleLe: (string, string) -> bool, s: Label)
    requires Valid(c)
    requires Inv(c, ui) && s in c.buckets
    requires ui.bar.section != Some(s)
    ensures Enabled(c, ui, titleLe, ClickSection(s))
    ensures Step(c, ui, titleLe, ClickSection(s)) == Ui(BarState(Some(s)), AppState(None))
  {
    SectionsSpec(c);
  }

  /** Choosing the section already chosen changes nothing. */
  lemma ClickSameSection(c: Collection, ui: Ui, titleLe: (string, string) -> bool, s: Label)
    requires Valid(c)
    requires Inv(c, ui)
    requires ui.bar.section == Some(s)
    ensures Enabled(c, ui, titleLe, ClickSection(s))
    ensures Step(c, ui, titleLe, ClickSection(s)) == ui
  {
    SectionsSpec(c);
  }

  /** Choosing a listed title makes exactly that article current and keeps
      the section. */
  lemma ClickTitleSelects(c: Collection, ui: Ui, titleLe: (string, string) -> bool, i: nat)
    requires Valid(c)
    requires Inv(c, ui) && ui.bar.section.Some?
    requires i < |TitleList(c, ui.bar.section.value, titleLe)|
    ensures Enabled(c, ui, titleLe, ClickTitle(i))
    ensures Step(c, ui, titleLe, ClickTitle(i)).bar == ui.bar
    ensures Step(c, ui, titleLe, ClickTitle(i)).app.currentArticle
         == Some(TitleList(c, ui.bar.section.value, titleLe)[i])
  {
  }
}
