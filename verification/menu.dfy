/** The mobile navigation menu: the `active` class on the hamburger button
    and on the nav list, flipped together by the hamburger and cleared by
    any nav link. */
module MenuToggle {

  /** Whether the hamburger and the nav list carry the `active` class. */
  datatype Menu = Menu(hamburger: bool, navList: bool)

  datatype MenuEvent = HamburgerClick | LinkClick

  /** The menu is open, with both elements agreeing on it. */
  predicate Open(m: Menu) {
    m.hamburger && m.navList
  }

  /** Both elements carry the class, or neither does. */
  predicate Synced(m: Menu) {
    m.hamburger == m.navList
  }

  /** `classList.toggle('active')` on both elements. */
  function ToggleBoth(m: Menu): Menu {
    Menu(!m.hamburger, !m.navList)
  }

  /** `classList.remove('active')` on both elements. */
  function CloseBoth(m: Menu): Menu {
    Menu(false, false)
  }

  /** One click, on the hamburger or on a nav link. */
  function Step(m: Menu, e: MenuEvent): (r: Menu)
    ensures e == LinkClick ==> !r.hamburger && !r.navList
    ensures e == HamburgerClick ==> (r.hamburger != m.hamburger && r.navList != m.navList)
    ensures Synced(m) ==> Synced(r)
  {
    match e
    case HamburgerClick => ToggleBoth(m)
    case LinkClick => CloseBoth(m)
  }

  /** The menu after a sequence of clicks, in order. */
  function Run(m: Menu, events: seq<MenuEvent>): Menu
    decreases |events|
  {
    if events == [] then m else Run(Step(m, events[0]), events[1..])
  }

  /** The number of hamburger clicks after the last nav-link click (after
      the start when there is none). */
  function TogglesSinceClose(events: seq<MenuEvent>): nat
    decreases |events|
  {
    if events == [] then 0
    else if events[|events| - 1] == LinkClick then 0
    else 1 + TogglesSinceClose(events[..|events| - 1])
  }

  /** Running the clicks one more step is one more `Step`. */
  lemma {:induction false} RunSnoc(m: Menu, events: seq<MenuEvent>, e: MenuEvent)
    ensures Run(m, events + [e]) == Step(Run(m, events), e)
    decreases |events|
  {
    if events != [] {
      assert (events + [e])[1..] == events[1..] + [e];
      RunSnoc(Step(m, events[0]), events[1..], e);
    }
  }

  /** If the two flags start equal they stay equal under any clicks. */
  lemma {:induction false} RunKeepsSynced(m: Menu, events: seq<MenuEvent>)
    requires Synced(m)
    ensures Synced(Run(m, events))
    decreases |events|
  {
    if events != [] {
      RunKeepsSynced(Step(m, events[0]), events[1..]);
    }
  }

  /** Whether each element is active is decided by the parity of the
      hamburger clicks since the last nav-link click: after a nav-link
      click both are off, and each hamburger click flips each of them. */
  lemma {:induction false} RunParity(m: Menu, events: seq<MenuEvent>)
    ensures LinkClick in events ==>
      && Run(m, events).hamburger == (TogglesSinceClose(events) % 2 == 1)
      && Run(m, events).navList == (TogglesSinceClose(events) % 2 == 1)
    ensures LinkClick !in events ==>
      && Run(m, events).hamburger == (m.hamburger != (TogglesSinceClose(events) % 2 == 1))
      && Run(m, events).navList == (m.navList != (TogglesSinceClose(events) % 2 == 1))
    decreases |events|
  {
    if events != [] {
      var init := events[..|events| - 1];
      var e := events[|events| - 1];
      assert events == init + [e];
      RunSnoc(m, init, e);
      RunParity(m, init);
      assert LinkClick in events <==> LinkClick in init || e == LinkClick;
    }
  }

  /** After any clicks that end with a nav-link click, the menu is closed. */
  lemma LinkClickCloses(m: Menu, events: seq<MenuEvent>)
    ensures !Open(Run(m, events + [LinkClick]))
    ensures Synced(Run(m, events + [LinkClick]))
  {
    RunSnoc(m, events, LinkClick);
  }

  /** Two hamburger clicks in a row leave the menu as it was. */
  lemma DoubleToggleRestores(m: Menu)
    ensures Run(m, [HamburgerClick, HamburgerClick]) == m
  {
  }
}
