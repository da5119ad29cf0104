/** The single-button theme switcher: a three-state cycle over the themes
    `dark`, `light` and `rgb`, mirrored on the page as a body class, a glyph
    on the toggle button and one entry of local storage. */
module ThemeCycler {
  import opened Options

  datatype Theme = Dark | Light | Rgb

  /** The `themes` array, in cycling order. */
  const Themes: seq<Theme> := [Dark, Light, Rgb]

  /** The local-storage key the chosen theme is kept under. */
  const StorageKey: string := "theme"

  /** The body classes `applyTheme` clears before applying a theme. */
  const ModeClasses: set<string> := {"light-mode", "rgb-mode"}

  /** The theme's name, as stored and as used to build its body class. */
  function Name(t: Theme): string {
    match t
    case Dark => "dark"
    case Light => "light"
    case Rgb => "rgb"
  }

  /** The `icons` table: the glyph the toggle button shows for each theme. */
  function Icon(t: Theme): string {
    match t
    case Dark => "\U{1F319}"
    case Light => "\U{2600}\U{FE0F}"
    case Rgb => "\U{1F308}"
  }

  /** The body class a theme adds, `theme + '-mode'`. */
  function ModeClass(t: Theme): (c: string)
    ensures c == Name(t) + "-mode"
  {
    match t
    case Dark => "dark-mode"
    case Light => "light-mode"
    case Rgb => "rgb-mode"
  }

  /** The mode classes the body should carry while `t` is the theme: none
      for the default dark theme, otherwise that theme's own class. */
  function ExpectedModes(t: Theme): (r: set<string>)
    ensures r <= ModeClasses && |r| <= 1
  {
    if t == Dark then {} else {ModeClass(t)}
  }

  /** The theme that follows `t` in the cycle, stated without indices. */
  function Successor(t: Theme): Theme {
    match t
    case Dark => Light
    case Light => Rgb
    case Rgb => Dark
  }

  /** `themes.indexOf(t)`: the first (and only) position of `t`. */
  function IndexOf(t: Theme): (i: nat)
    ensures i < |Themes| && Themes[i] == t
    ensures forall j :: 0 <= j < |Themes| && Themes[j] == t ==> j == i
  {
    match t
    case Dark => 0
    case Light => 1
    case Rgb => 2
  }

  /** The recognised theme whose name is `s`, if any
      (`themes.includes(s)` together with the element it finds). */
  function ParseTheme(s: string): (r: Option<Theme>)
    ensures forall t :: r == Some(t) <==> Name(t) == s
  {
    if s == "dark" then Some(Dark)
    else if s == "light" then Some(Light)
    else if s == "rgb" then Some(Rgb)
    else None
  }

  /** The theme the stored value names, when there is a stored value and it
      passes the load-time check `savedTheme && themes.includes(savedTheme)`. */
  function SavedTheme(storage: map<string, string>): (r: Option<Theme>)
    ensures r.Some? <==> StorageKey in storage && exists t :: Name(t) == storage[StorageKey]
    ensures r.Some? ==> Name(r.value) == storage[StorageKey]
  {
    if StorageKey in storage && storage[StorageKey] != "" then
      var parsed := ParseTheme(storage[StorageKey]);
      assert parsed.Some? ==> Name(parsed.value) == storage[StorageKey];
      parsed
    else
      assert forall t :: Name(t) != "";
      None
  }

  /** The part of the page the theme switcher reads and writes. */
  datatype ThemeState = ThemeState(
    index: nat,                    // currentThemeIndex
    body: set<string>,             // the classes of document.body
    storage: map<string, string>,  // localStorage
    toggle: Option<string>)        // text of #theme-toggle; None when the page has no such button

  /** Everything on the page agrees with the theme at `index`: the stored
      name, the body's mode classes and the toggle's glyph. */
  ghost predicate Consistent(s: ThemeState) {
    && s.index < |Themes|
    && StorageKey in s.storage
    && s.storage[StorageKey] == Name(Themes[s.index])
    && s.body * ModeClasses == ExpectedModes(Themes[s.index])
    && (s.toggle.Some? ==> s.toggle.value == Icon(Themes[s.index]))
  }

  /** The body classes after `applyTheme(t)`'s two class-list calls: the
      mode classes removed, then `t`'s own class added unless `t` is dark. */
  function SwapModes(body: set<string>, t: Theme): (r: set<string>)
    ensures r * ModeClasses == ExpectedModes(t)
    ensures r - ModeClasses == body - ModeClasses
  {
    var cleared := body - ModeClasses;
    assert ExpectedModes(t) <= ModeClasses;
    assert cleared * ModeClasses == {};
    if t != Dark then cleared + {ModeClass(t)} else cleared
  }

  /** `applyTheme(t)`: swap the body's mode class, show the theme's glyph on
      the toggle when there is one, and persist the theme's name. */
  function ApplyTheme(s: ThemeState, t: Theme): (r: ThemeState)
    ensures r.index == s.index
    // the mode classes are mutually exclusive, and match the theme
    ensures r.body * ModeClasses == ExpectedModes(t)
    ensures t != Dark ==> ModeClass(t) in r.body
    ensures |r.body * ModeClasses| <= 1
    // no other body class changes
    ensures r.body - ModeClasses == s.body - ModeClasses
    // the name is stored under the theme key; every other entry is kept
    ensures r.storage.Keys == s.storage.Keys + {StorageKey}
    ensures r.storage[StorageKey] == Name(t)
    ensures forall k :: k in s.storage && k != StorageKey ==> r.storage[k] == s.storage[k]
    // the toggle shows the theme's glyph, if the toggle exists
    ensures r.toggle.Some? <==> s.toggle.Some?
    ensures r.toggle.Some? ==> r.toggle.value == Icon(t)
  {
    var toggle := if s.toggle.Some? then Some(Icon(t)) else None;
    ThemeState(s.index, SwapModes(s.body, t), s.storage[StorageKey := Name(t)], toggle)
  }

  /** The initial check at load time: `currentThemeIndex` starts at 0, and a
      recognised stored theme moves it to that theme and applies it. */
  function Load(dom: ThemeState): (r: ThemeState)
    ensures r.index < |Themes|
    ensures SavedTheme(dom.storage).Some? ==>
      && Themes[r.index] == SavedTheme(dom.storage).value
      && Consistent(r)
      && r.storage == dom.storage
      && r.body - ModeClasses == dom.body - ModeClasses
    ensures r.toggle.Some? <==> dom.toggle.Some?
    ensures SavedTheme(dom.storage).None? ==> r == dom.(index := 0)
  {
    var start := dom.(index := 0);
    match SavedTheme(dom.storage)
    case Some(t) => ApplyTheme(start.(index := IndexOf(t)), t)
    case None => start
  }

  /** A click on the toggle button: advance the index modulo the number of
      themes and apply the theme found there. Without a toggle button the
      listener is never registered, so nothing happens. */
  function Click(s: ThemeState): (r: ThemeState)
    ensures s.toggle.None? ==> r == s
    ensures s.toggle.Some? ==> r.index < |Themes|
    ensures s.toggle.Some? && s.index < |Themes| ==>
      Themes[r.index] == Successor(Themes[s.index])
    ensures s.toggle.Some? ==> Consistent(r)
    ensures s.toggle.Some? ==> |r.body * ModeClasses| <= 1
    ensures s.toggle.Some? ==> r.body - ModeClasses == s.body - ModeClasses
    ensures s.toggle.Some? ==> r.storage.Keys == s.storage.Keys + {StorageKey}
    ensures s.toggle.Some? ==> forall k :: k in s.storage && k != StorageKey ==> r.storage[k] == s.storage[k]
    ensures r.toggle.Some? <==> s.toggle.Some?
  {
    if s.toggle.None? then s
    else
      var i := (s.index + 1) % |Themes|;
      assert s.index < |Themes| ==> i == if s.index == 2 then 0 else s.index + 1;
      var r := ApplyTheme(s.(index := i), Themes[i]);
      assert Consistent(r);
      r
  }

  /** `n` consecutive clicks on the toggle. */
  function Clicks(s: ThemeState, n: nat): ThemeState
    decreases n
  {
    if n == 0 then s else Clicks(Click(s), n - 1)
  }

  /** Whatever the starting index, every click leaves it within `themes`,
      and so does any number of clicks. */
  lemma {:induction false} ClicksKeepIndexInRange(s: ThemeState, n: nat)
    requires s.index < |Themes|
    ensures Clicks(s, n).index < |Themes|
    decreases n
  {
    if n > 0 {
      ClicksKeepIndexInRange(Click(s), n - 1);
    }
  }

  /** Theme clicks never leave two mode classes on the body. */
  lemma {:induction false} ClicksKeepModesExclusive(s: ThemeState, n: nat)
    requires |s.body * ModeClasses| <= 1
    ensures |Clicks(s, n).body * ModeClasses| <= 1
    decreases n
  {
    if n > 0 {
      ClicksKeepModesExclusive(Click(s), n - 1);
    }
  }

  /** Once the page agrees with its theme it keeps agreeing, whatever
      happens next. */
  lemma {:induction false} ClicksKeepConsistent(s: ThemeState, n: nat)
    requires Consistent(s)
    ensures Consistent(Clicks(s, n))
    decreases n
  {
    if n > 0 {
      ClicksKeepConsistent(Click(s), n - 1);
    }
  }

  /** The theme `n` places after `t` around the cycle. */
  function Advance(t: Theme, n: nat): Theme
    decreases n
  {
    if n == 0 then t else Advance(Successor(t), n - 1)
  }

  /** `n` clicks advance the theme by `n` places around the cycle. */
  lemma {:induction false} ClicksAdvanceTheme(s: ThemeState, n: nat)
    requires s.index < |Themes| && s.toggle.Some?
    ensures Clicks(s, n).index < |Themes|
    ensures Themes[Clicks(s, n).index] == Advance(Themes[s.index], n)
    decreases n
  {
    if n > 0 {
      var c := Click(s);
      assert c.index < |Themes| && c.toggle.Some?;
      assert Themes[c.index] == Successor(Themes[s.index]);
      ClicksAdvanceTheme(c, n - 1);
      assert Clicks(s, n) == Clicks(c, n - 1);
    }
  }

  /** Going three places around the cycle, from any theme, and then `n`
      more is the same as going `n` places. */
  lemma {:induction false} AdvanceThreeIsIdentity(t: Theme, n: nat)
    ensures Advance(t, n + 3) == Advance(t, n)
    decreases n
  {
    if n > 0 {
      AdvanceThreeIsIdentity(Successor(t), n - 1);
    } else {
      assert Advance(t, 3) == Successor(Successor(Successor(t)));
    }
  }

  /** Two bodies that agree on the mode classes and on every other class
      are the same body. */
  lemma SameBody(a: set<string>, b: set<string>)
    requires a * ModeClasses == b * ModeClasses
    requires a - ModeClasses == b - ModeClasses
    ensures a == b
  {
    assert a == (a * ModeClasses) + (a - ModeClasses);
    assert b == (b * ModeClasses) + (b - ModeClasses);
  }

  /** Three clicks from a page that agrees with its theme give back exactly
      the same page: index, body classes, storage and glyph. */
  lemma ThreeClicksRestore(s: ThemeState)
    requires Consistent(s)
    ensures Click(Click(Click(s))) == s
  {
    if s.toggle.Some? {
      var s1 := Click(s);
      var s2 := Click(s1);
      var r := Click(s2);
      var t := Themes[s.index];
      assert Themes[r.index] == Successor(Successor(Successor(t))) == t;
      assert r.index == s.index by {
        assert IndexOf(t) == s.index;
        assert IndexOf(t) == r.index;
      }
      SameBody(r.body, s.body);
      assert r.storage.Keys == s.storage.Keys;
      assert r.storage == s.storage;
    }
  }

  /** The stored theme round-trips: after `applyTheme(t)`, the load-time
      check reads `t` back. */
  lemma StoredThemeRoundTrip(s: ThemeState, t: Theme)
    ensures SavedTheme(ApplyTheme(s, t).storage) == Some(t)
  {
  }

  /** Reloading a page whose theme has been applied restores the same
      theme, with nothing further to change. */
  lemma ReloadRestoresTheme(s: ThemeState)
    requires Consistent(s)
    ensures Load(s) == s
  {
  }
}
