/** The page's navigation bar: the mobile menu toggle (the `active` class on
    the hamburger button and on the navigation menu) and the navbar style
    chosen from the vertical scroll offset. */
module Navigation {

  /** Whether the hamburger button and the navigation menu carry `active`. */
  datatype MenuState = MenuState(hamburgerActive: bool, navMenuActive: bool)

  /** The two events the menu reacts to. */
  datatype MenuEvent = HamburgerClick | NavLinkClick

  /** One event: a hamburger click toggles both marks, a click on any
      navigation link removes both. */
  function Step(s: MenuState, e: MenuEvent): (r: MenuState)
    ensures e == HamburgerClick ==>
      r.hamburgerActive != s.hamburgerActive && r.navMenuActive != s.navMenuActive
    ensures e == NavLinkClick ==> !r.hamburgerActive && !r.navMenuActive
  {
    match e
    case HamburgerClick => MenuState(!s.hamburgerActive, !s.navMenuActive)
    case NavLinkClick => MenuState(false, false)
  }

  /** The state after a sequence of events, in order. */
  function Run(s: MenuState, events: seq<MenuEvent>): (r: MenuState)
    ensures events == [] ==> r == s
    ensures events != [] && events[|events| - 1] == NavLinkClick ==>
      !r.hamburgerActive && !r.navMenuActive
    decreases |events|
  {
    if events == [] then s else Run(Step(s, events[0]), events[1..])
  }

  /** The button and the menu show the same state. */
  predicate InSync(s: MenuState)
  {
    s.hamburgerActive == s.navMenuActive
  }

  /** Every event keeps the button and the menu in step. */
  lemma StepKeepsSync(s: MenuState, e: MenuEvent)
    requires InSync(s)
    ensures InSync(Step(s, e))
  {
  }

  /** Any sequence of events keeps the button and the menu in step. */
  lemma {:induction false} RunKeepsSync(s: MenuState, events: seq<MenuEvent>)
    requires InSync(s)
    ensures InSync(Run(s, events))
    decreases |events|
  {
    if events != [] {
      StepKeepsSync(s, events[0]);
      RunKeepsSync(Step(s, events[0]), events[1..]);
    }
  }

  /** Toggling twice restores the state. */
  lemma DoubleToggle(s: MenuState)
    ensures Run(s, [HamburgerClick, HamburgerClick]) == s
  {
  }

  /** Number of hamburger clicks after the last navigation-link click (after
      the start, when there is none). */
  function ClicksSinceClose(events: seq<MenuEvent>): nat
  {
    if events == [] then 0
    else if events[0] == NavLinkClick || NavLinkClick in events[1..] then ClicksSinceClose(events[1..])
    else 1 + ClicksSinceClose(events[1..])
  }

  /** The button is active after a run iff it was flipped an odd number of
      times since it was last closed (or since the start, if never closed). */
  lemma {:induction false} RunActiveParity(s: MenuState, events: seq<MenuEvent>)
    ensures Run(s, events).hamburgerActive ==
      if NavLinkClick in events then ClicksSinceClose(events) % 2 == 1
      else s.hamburgerActive != (ClicksSinceClose(events) % 2 == 1)
    decreases |events|
  {
    if events != [] {
      var rest := events[1..];
      assert events == [events[0]] + rest;
      RunActiveParity(Step(s, events[0]), rest);
    }
  }

  /** The mobile menu's two `active` marks, changed in place by the click
      handlers. */
  class MobileMenu {
    var hamburgerActive: bool
    var navMenuActive: bool

    function State(): MenuState
      reads this
    {
      MenuState(hamburgerActive, navMenuActive)
    }

    constructor (hamburgerActive: bool, navMenuActive: bool)
      ensures State() == MenuState(hamburgerActive, navMenuActive)
    {
      this.hamburgerActive := hamburgerActive;
      this.navMenuActive := navMenuActive;
    }

    /** The hamburger button's click handler. */
    method ClickHamburger()
      modifies this
      ensures State() == Step(old(State()), HamburgerClick)
      ensures old(InSync(State())) ==> InSync(State())
    {
      hamburgerActive := !hamburgerActive;
      navMenuActive := !navMenuActive;
    }

    /** The click handler of every navigation link. */
    method ClickNavLink()
      modifies this
      ensures State() == Step(old(State()), NavLinkClick)
      ensures !hamburgerActive && !navMenuActive
    {
      hamburgerActive := false;
      navMenuActive := false;
    }
  }

  const TopBackground: string := "rgba(255, 255, 255, 0.95)"
  const ScrolledBackground: string := "rgba(255, 255, 255, 0.98)"
  const TopBoxShadow: string := "none"
  const ScrolledBoxShadow: string := "0 2px 20px rgba(0, 0, 0, 0.1)"

  /** The two looks of the navbar. */
  datatype NavbarLook = Top | Scrolled
  {
    /** The inline `background` the look sets. */
    function Background(): (r: string)
      ensures r == ScrolledBackground <==> this == Scrolled
      ensures r == TopBackground <==> this == Top
    {
      match this
      case Top => TopBackground
      case Scrolled => ScrolledBackground
    }

    /** The inline `boxShadow` the look sets. */
    function BoxShadow(): (r: string)
      ensures r == ScrolledBoxShadow <==> this == Scrolled
      ensures r == TopBoxShadow <==> this == Top
    {
      match this
      case Top => TopBoxShadow
      case Scrolled => ScrolledBoxShadow
    }
  }

  /** Scroll offset (pixels) past which the navbar takes its scrolled look. */
  const ScrollThreshold: int := 50

  /** The look the scroll handler gives the navbar at vertical offset `scrollY`. */
  function NavbarLookFor(scrollY: int): (r: NavbarLook)
    ensures r == Scrolled <==> scrollY > ScrollThreshold
    ensures r == Top <==> scrollY <= ScrollThreshold
  {
    if scrollY > ScrollThreshold then Scrolled else Top
  }

  /** Scrolling further down never brings the top look back. */
  lemma NavbarMonotone(y1: int, y2: int)
    requires y1 <= y2
    ensures NavbarLookFor(y1) == Scrolled ==> NavbarLookFor(y2) == Scrolled
    ensures NavbarLookFor(y2) == Top ==> NavbarLookFor(y1) == Top
  {
  }
}
