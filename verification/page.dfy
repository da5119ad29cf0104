/** The page as a whole: the state every handler reads and writes, the
    events that drive it, and the fact that the behaviours never touch
    each other's state. */
module PageModel {
  import ThemeCycler
  import MenuToggle
  import ScrollSpy
  import Speech

  /** Everything the script's handlers read or write. */
  datatype Page = Page(
    theme: ThemeCycler.ThemeState,
    menu: MenuToggle.Menu,
    links: seq<ScrollSpy.NavLink>,  // the `.nav-list li a` anchors, in document order
    highlighted: set<nat>,          // the section titles with `highlight-active`
    speech: seq<Speech.Utterance>)  // the speech engine's pending utterances

  /** One callback the browser runs. */
  datatype Event =
    | HamburgerClick
    | NavLinkClick
    | ThemeToggleClick
    | SectionsObserved(sections: seq<ScrollSpy.SectionEntry>)
    | TitlesObserved(titles: seq<ScrollSpy.TitleEntry>)
    | TextClick(text: string)

  /** The `DOMContentLoaded` handler's immediate effect: the load-time
      theme check. Everything else it does is registering listeners. */
  function Load(dom: Page): (p: Page)
    ensures p.theme.index < |ThemeCycler.Themes|
    ensures ThemeCycler.SavedTheme(dom.theme.storage).Some? ==>
      && ThemeCycler.Themes[p.theme.index] == ThemeCycler.SavedTheme(dom.theme.storage).value
      && ThemeCycler.Consistent(p.theme)
      && p.theme.storage == dom.theme.storage
      && p.theme.body - ThemeCycler.ModeClasses == dom.theme.body - ThemeCycler.ModeClasses
    ensures p.theme.toggle.Some? <==> dom.theme.toggle.Some?
    ensures ThemeCycler.SavedTheme(dom.theme.storage).None? ==> p == dom.(theme := dom.theme.(index := 0))
    ensures p.menu == dom.menu && p.links == dom.links
    ensures p.highlighted == dom.highlighted && p.speech == dom.speech
  {
    dom.(theme := ThemeCycler.Load(dom.theme))
  }

  /** One callback, which changes only the state of its own behaviour. */
  function Step(p: Page, e: Event): (r: Page)
    ensures !e.ThemeToggleClick? ==> r.theme == p.theme
    ensures !(e.HamburgerClick? || e.NavLinkClick?) ==> r.menu == p.menu
    ensures !e.SectionsObserved? ==> r.links == p.links
    ensures !e.TitlesObserved? ==> r.highlighted == p.highlighted
    ensures !e.TextClick? ==> r.speech == p.speech
  {
    match e
    case HamburgerClick => p.(menu := MenuToggle.Step(p.menu, MenuToggle.HamburgerClick))
    case NavLinkClick => p.(menu := MenuToggle.Step(p.menu, MenuToggle.LinkClick))
    case ThemeToggleClick => p.(theme := ThemeCycler.Click(p.theme))
    case SectionsObserved(entries) => p.(links := ScrollSpy.NavBatch(p.links, entries))
    case TitlesObserved(entries) => p.(highlighted := ScrollSpy.TitleBatch(p.highlighted, entries))
    case TextClick(text) => p.(speech := Speech.ClickText(p.speech, text))
  }

  /** The page after a sequence of callbacks, in order. */
  function Run(p: Page, events: seq<Event>): Page
    decreases |events|
  {
    if events == [] then p else Run(Step(p, events[0]), events[1..])
  }

  /** The number of clicks on the theme toggle. */
  function ThemeClicks(events: seq<Event>): nat
    decreases |events|
  {
    if events == [] then 0
    else (if events[0].ThemeToggleClick? then 1 else 0) + ThemeClicks(events[1..])
  }

  /** The clicks the menu sees, in order. */
  function MenuEvents(events: seq<Event>): seq<MenuToggle.MenuEvent>
    decreases |events|
  {
    if events == [] then []
    else
      var head := match events[0]
        case HamburgerClick => [MenuToggle.HamburgerClick]
        case NavLinkClick => [MenuToggle.LinkClick]
        case _ => [];
      head + MenuEvents(events[1..])
  }

  /** All section entries the nav observer receives, in order. */
  function SectionEntries(events: seq<Event>): seq<ScrollSpy.SectionEntry>
    decreases |events|
  {
    if events == [] then []
    else (if events[0].SectionsObserved? then events[0].sections else []) + SectionEntries(events[1..])
  }

  /** All title entries the title observer receives, in order. */
  function TitleEntries(events: seq<Event>): seq<ScrollSpy.TitleEntry>
    decreases |events|
  {
    if events == [] then []
    else (if events[0].TitlesObserved? then events[0].titles else []) + TitleEntries(events[1..])
  }

  /** The texts of all clicks on text elements, in order. */
  function ClickedTexts(events: seq<Event>): seq<string>
    decreases |events|
  {
    if events == [] then []
    else (if events[0].TextClick? then [events[0].text] else []) + ClickedTexts(events[1..])
  }

  /** The menu's clicks, folded in two pieces, are folded whole. */
  lemma {:induction false} MenuRunAppend(m: MenuToggle.Menu, a: seq<MenuToggle.MenuEvent>, b: seq<MenuToggle.MenuEvent>)
    ensures MenuToggle.Run(m, a + b) == MenuToggle.Run(MenuToggle.Run(m, a), b)
    decreases |a|
  {
    if a != [] {
      assert (a + b)[1..] == a[1..] + b;
      MenuRunAppend(MenuToggle.Step(m, a[0]), a[1..], b);
    } else {
      assert a + b == b;
    }
  }

  /** The theme state after the callbacks, as the theme switcher alone
      would see them: each toggle click is a `Click`, and nothing else
      reaches it. */
  function ThemeRun(t: ThemeCycler.ThemeState, events: seq<Event>): ThemeCycler.ThemeState
    decreases |events|
  {
    if events == [] then t
    else ThemeRun(if events[0].ThemeToggleClick? then ThemeCycler.Click(t) else t, events[1..])
  }

  /** The page's theme follows the theme switcher's own fold. */
  lemma {:induction false} RunThemeRun(p: Page, events: seq<Event>)
    ensures Run(p, events).theme == ThemeRun(p.theme, events)
    decreases |events|
  {
    if events != [] {
      RunThemeRun(Step(p, events[0]), events[1..]);
    }
  }

  /** The theme switcher's fold is a number of clicks. */
  lemma {:induction false} ThemeRunClicks(t: ThemeCycler.ThemeState, events: seq<Event>)
    ensures ThemeRun(t, events) == ThemeCycler.Clicks(t, ThemeClicks(events))
    decreases |events|
  {
    if events != [] {
      var t' := if events[0].ThemeToggleClick? then ThemeCycler.Click(t) else t;
      ThemeRunClicks(t', events[1..]);
    }
  }

  /** The theme sees only the toggle clicks. */
  lemma RunTheme(p: Page, events: seq<Event>)
    ensures Run(p, events).theme == ThemeCycler.Clicks(p.theme, ThemeClicks(events))
  {
    RunThemeRun(p, events);
    ThemeRunClicks(p.theme, events);
  }

  /** The menu sees only the hamburger and nav-link clicks. */
  lemma {:induction false} RunMenu(p: Page, events: seq<Event>)
    ensures Run(p, events).menu == MenuToggle.Run(p.menu, MenuEvents(events))
    decreases |events|
  {
    if events != [] {
      var e := events[0];
      var rest := events[1..];
      RunMenu(Step(p, e), rest);
      match e {
        case HamburgerClick =>
          MenuRunAppend(p.menu, [MenuToggle.HamburgerClick], MenuEvents(rest));
          assert MenuToggle.Run(p.menu, [MenuToggle.HamburgerClick]) == Step(p, e).menu;
        case NavLinkClick =>
          MenuRunAppend(p.menu, [MenuToggle.LinkClick], MenuEvents(rest));
          assert MenuToggle.Run(p.menu, [MenuToggle.LinkClick]) == Step(p, e).menu;
        case _ =>
          assert MenuEvents(events) == [] + MenuEvents(rest) == MenuEvents(rest);
      }
    }
  }

  /** The nav links see only the section entries, in order. */
  lemma {:induction false} RunLinks(p: Page, events: seq<Event>)
    ensures Run(p, events).links == ScrollSpy.NavBatch(p.links, SectionEntries(events))
    decreases |events|
  {
    if events != [] {
      var e := events[0];
      var rest := events[1..];
      RunLinks(Step(p, e), rest);
      if e.SectionsObserved? {
        ScrollSpy.NavBatchAppend(p.links, e.sections, SectionEntries(rest));
      } else {
        assert SectionEntries(events) == [] + SectionEntries(rest) == SectionEntries(rest);
      }
    }
  }

  /** The title highlights see only the title entries, in order. */
  lemma {:induction false} RunTitles(p: Page, events: seq<Event>)
    ensures Run(p, events).highlighted == ScrollSpy.TitleBatch(p.highlighted, TitleEntries(events))
    decreases |events|
  {
    if events != [] {
      var e := events[0];
      var rest := events[1..];
      RunTitles(Step(p, e), rest);
      if e.TitlesObserved? {
        ScrollSpy.TitleBatchAppend(p.highlighted, e.titles, TitleEntries(rest));
      } else {
        assert TitleEntries(events) == [] + TitleEntries(rest) == TitleEntries(rest);
      }
    }
  }

  /** The speech engine sees only the clicks on text elements, in order. */
  lemma {:induction false} RunSpeech(p: Page, events: seq<Event>)
    ensures Run(p, events).speech == Speech.ClickTexts(p.speech, ClickedTexts(events))
    decreases |events|
  {
    if events != [] {
      var e := events[0];
      var rest := events[1..];
      RunSpeech(Step(p, e), rest);
      if e.TextClick? {
        Speech.ClickTextsAppend(p.speech, [e.text], ClickedTexts(rest));
        assert Speech.ClickTexts(p.speech, [e.text]) == Step(p, e).speech;
      } else {
        assert ClickedTexts(events) == [] + ClickedTexts(rest) == ClickedTexts(rest);
      }
    }
  }

  /** The behaviours are independent: running the page is running each
      behaviour on just the events addressed to it. */
  lemma RunDecomposes(p: Page, events: seq<Event>)
    ensures Run(p, events).theme == ThemeCycler.Clicks(p.theme, ThemeClicks(events))
    ensures Run(p, events).menu == MenuToggle.Run(p.menu, MenuEvents(events))
    ensures Run(p, events).links == ScrollSpy.NavBatch(p.links, SectionEntries(events))
    ensures Run(p, events).highlighted == ScrollSpy.TitleBatch(p.highlighted, TitleEntries(events))
    ensures Run(p, events).speech == Speech.ClickTexts(p.speech, ClickedTexts(events))
  {
    RunTheme(p, events);
    RunMenu(p, events);
    RunLinks(p, events);
    RunTitles(p, events);
    RunSpeech(p, events);
  }

  /** The page-wide invariant: the theme index stays within `themes`, the
      body has at most one of the mode classes, the hamburger and the nav
      list agree, at most one utterance is pending, and the nav links keep
      their targets. */
  ghost predicate Invariant(p: Page, hrefs: seq<ScrollSpy.NavLink>) {
    && p.theme.index < |ThemeCycler.Themes|
    && |p.theme.body * ThemeCycler.ModeClasses| <= 1
    && MenuToggle.Synced(p.menu)
    && |p.speech| <= 1
    && ScrollSpy.SameHrefs(hrefs, p.links)
  }

  /** Every sequence of callbacks keeps the invariant. */
  lemma RunKeepsInvariant(p: Page, events: seq<Event>)
    requires Invariant(p, p.links)
    ensures Invariant(Run(p, events), p.links)
  {
    var r := Run(p, events);
    RunDecomposes(p, events);
    ThemeCycler.ClicksKeepIndexInRange(p.theme, ThemeClicks(events));
    ThemeCycler.ClicksKeepModesExclusive(p.theme, ThemeClicks(events));
    MenuToggle.RunKeepsSynced(p.menu, MenuEvents(events));
    Speech.AtMostOnePending(p.speech, ClickedTexts(events));
    ScrollSpy.NavBatchMarksLastSection(p.links, SectionEntries(events));
  }

  /** After a page load that found a recognised stored theme, the stored
      name, the body class and the glyph follow the theme index through
      any sequence of callbacks. */
  lemma LoadedThemeStaysConsistent(dom: Page, events: seq<Event>)
    requires ThemeCycler.SavedTheme(dom.theme.storage).Some?
    ensures ThemeCycler.Consistent(Run(Load(dom), events).theme)
  {
    RunDecomposes(Load(dom), events);
    ThemeCycler.ClicksKeepConsistent(Load(dom).theme, ThemeClicks(events));
  }
}
