/**
 The navigation bar's state: the mobile menu (`toggleMenu` and the close-on-link
 handler in `initNavbar`), the "scrolled" style, and the section highlighting
 of `initActiveNavLinks`.
 */
module Navigation {

  /** Scroll offset, in pixels, past which the bar takes its "scrolled" style. */
  const ScrolledThreshold: int := 50
  /** How far above a section's top its highlighting starts, in pixels. */
  const SectionLead: int := 150

  /** A `section[id]` element: its id, `offsetTop` and `offsetHeight`. */
  datatype Section = Section(id: string, top: int, height: int)

  /** The scroll offset lies in the section's band, `[top - 150, top - 150 + height)`. */
  predicate InView(scrollY: int, s: Section) {
    s.top - SectionLead <= scrollY < s.top - SectionLead + s.height
  }

  /** `k` is the last section, in document order, whose band holds `scrollY`. */
  ghost predicate LastInView(scrollY: int, sections: seq<Section>, k: int) {
    && 0 <= k < |sections|
    && InView(scrollY, sections[k])
    && forall j | k < j < |sections| :: !InView(scrollY, sections[j])
  }

  /**
   The id of the section to highlight: the last one in document order whose
   band holds `scrollY`, or `""` when there is none.
   */
  function ActiveSection(scrollY: int, sections: seq<Section>): (current: string)
    ensures (forall i | 0 <= i < |sections| :: !InView(scrollY, sections[i])) ==> current == ""
    ensures (exists i | 0 <= i < |sections| :: InView(scrollY, sections[i])) ==>
      exists k :: LastInView(scrollY, sections, k) && current == sections[k].id
  {
    if |sections| == 0 then ""
    else
      var last := |sections| - 1;
      if InView(scrollY, sections[last]) then
        assert LastInView(scrollY, sections, last);
        sections[last].id
      else
        var prefix := sections[..last];
        var current := ActiveSection(scrollY, prefix);
        assert forall i | 0 <= i < last :: sections[i] == prefix[i];
        assert (exists i | 0 <= i < |sections| :: InView(scrollY, sections[i])) ==>
          exists k :: LastInView(scrollY, sections, k) && current == sections[k].id by {
          if exists i | 0 <= i < |sections| :: InView(scrollY, sections[i]) {
            var i :| 0 <= i < |sections| && InView(scrollY, sections[i]);
            assert i < last;
            assert InView(scrollY, prefix[i]);
            var k :| LastInView(scrollY, prefix, k) && current == prefix[k].id;
            assert LastInView(scrollY, sections, k);
          }
        }
        current
  }

  /**
   The scroll handler's loop as written: every section in view overwrites
   `current`, so the last one wins.
   */
  method ScanActiveSection(scrollY: int, sections: seq<Section>) returns (current: string)
    ensures current == ActiveSection(scrollY, sections)
    ensures (forall i | 0 <= i < |sections| :: !InView(scrollY, sections[i])) ==> current == ""
  {
    current := "";
    var i := 0;
    while i < |sections|
      invariant 0 <= i <= |sections|
      invariant current == ActiveSection(scrollY, sections[..i])
    {
      if InView(scrollY, sections[i]) {
        current := sections[i].id;
      }
      assert sections[..i + 1][..i] == sections[..i];
      i := i + 1;
    }
    assert sections[..i] == sections;
  }

  /** Which nav links carry the `active` class: those whose href is `"#" + current`. */
  function ActiveLinks(hrefs: seq<string>, current: string): (active: seq<bool>)
    ensures |active| == |hrefs|
    ensures forall i | 0 <= i < |hrefs| :: active[i] <==> hrefs[i] == "#" + current
  {
    seq(|hrefs|, i requires 0 <= i < |hrefs| => hrefs[i] == "#" + current)
  }

  /** With distinct hrefs, at most one link is highlighted at a time. */
  lemma AtMostOneActiveLink(hrefs: seq<string>, current: string, i: int, j: int)
    requires forall a, b | 0 <= a < b < |hrefs| :: hrefs[a] != hrefs[b]
    requires 0 <= i < |hrefs| && 0 <= j < |hrefs|
    requires ActiveLinks(hrefs, current)[i] && ActiveLinks(hrefs, current)[j]
    ensures i == j
  {
  }

  /**
   When no section is in view the handler compares against `"#"`: only a link
   whose href is exactly `"#"` is highlighted.
   */
  lemma NoSectionInView(scrollY: int, sections: seq<Section>, hrefs: seq<string>)
    requires forall i | 0 <= i < |sections| :: !InView(scrollY, sections[i])
    ensures forall i | 0 <= i < |hrefs| ::
      ActiveLinks(hrefs, ActiveSection(scrollY, sections))[i] <==> hrefs[i] == "#"
  {
    assert ActiveSection(scrollY, sections) == "";
    assert "#" + "" == "#";
  }

  /**
   The mobile menu's classes: the button's `active`, the link panel's `open`,
   the overlay's `visible`, and whether the body's scrolling is locked.
   */
  datatype Menu = Menu(buttonActive: bool, panelOpen: bool, overlayVisible: bool, scrollLocked: bool)

  /** The menu as the page starts: everything off. */
  const MenuClosed: Menu := Menu(false, false, false, false)

  /** All four effects agree: the menu is wholly open or wholly closed. */
  predicate Synced(m: Menu) {
    m.buttonActive == m.panelOpen == m.overlayVisible == m.scrollLocked
  }

  /**
   `toggleMenu`: flips the three classes, then locks scrolling exactly when the
   panel has just opened.
   */
  function ToggleMenu(m: Menu): (r: Menu)
    ensures r.buttonActive != m.buttonActive
    ensures r.panelOpen != m.panelOpen
    ensures r.overlayVisible != m.overlayVisible
    ensures r.scrollLocked <==> r.panelOpen
    ensures Synced(m) ==> Synced(r)
  {
    Menu(!m.buttonActive, !m.panelOpen, !m.overlayVisible, !m.panelOpen)
  }

  /** Toggling twice restores a synced menu. */
  lemma ToggleTwice(m: Menu)
    requires Synced(m)
    ensures ToggleMenu(ToggleMenu(m)) == m
  {
  }

  /** A click on a nav link: closes the panel when it is open. */
  function LinkClicked(m: Menu): (r: Menu)
    ensures !r.panelOpen
    ensures Synced(m) ==> r == MenuClosed
    ensures !m.panelOpen ==> r == m
  {
    if m.panelOpen then ToggleMenu(m) else m
  }

  /** The navbar's `scrolled` style for a scroll offset. */
  function IsScrolled(scrollY: int): (r: bool)
    ensures r <==> scrollY > 50
  {
    scrollY > ScrolledThreshold
  }

  /** The whole navigation state: the menu, the bar's style and the highlighted section. */
  datatype NavState = NavState(menu: Menu, scrolled: bool, current: string)

  /**
   The state before any event, assuming the markup starts with the menu closed
   and no "scrolled" style. `current` is the script's initial `''`; the link
   classes are first written on the first scroll event.
   */
  const InitialNav: NavState := NavState(MenuClosed, false, "")

  /**
   The events the navigation handlers react to. A scroll event carries the
   sections' geometry as the handler reads it at that moment, in document order.
   */
  datatype NavEvent =
    | MenuButtonClick
    | OverlayClick
    | NavLinkClick
    | ScrollTo(scrollY: int, sections: seq<Section>)

  /** One handler run. */
  function Step(st: NavState, ev: NavEvent): (r: NavState)
    ensures Synced(st.menu) ==> Synced(r.menu)
    ensures ev.ScrollTo? ==> r.menu == st.menu
    ensures ev.ScrollTo? ==> (r.scrolled <==> ev.scrollY > 50)
    ensures ev.ScrollTo? ==> r.current == ActiveSection(ev.scrollY, ev.sections)
    ensures !ev.ScrollTo? ==> r.scrolled == st.scrolled && r.current == st.current
    ensures ev.NavLinkClick? ==> !r.menu.panelOpen
  {
    match ev
    case MenuButtonClick => st.(menu := ToggleMenu(st.menu))
    case OverlayClick => st.(menu := ToggleMenu(st.menu))
    case NavLinkClick => st.(menu := LinkClicked(st.menu))
    case ScrollTo(y, sections) => st.(scrolled := IsScrolled(y), current := ActiveSection(y, sections))
  }

  /** The handlers run over a sequence of events, first to last. */
  function Run(st: NavState, evs: seq<NavEvent>): (r: NavState)
    ensures Synced(st.menu) ==> Synced(r.menu)
    ensures (forall i | 0 <= i < |evs| :: !evs[i].ScrollTo?) ==> r.scrolled == st.scrolled && r.current == st.current
    decreases |evs|
  {
    if |evs| == 0 then st else Run(Step(st, evs[0]), evs[1..])
  }

  /** Whatever the visitor does, the menu's four effects never drift apart. */
  lemma {:induction false} RunKeepsMenuSynced(st: NavState, evs: seq<NavEvent>)
    requires Synced(st.menu)
    ensures Synced(Run(st, evs).menu)
    decreases |evs|
  {
    if |evs| > 0 {
      RunKeepsMenuSynced(Step(st, evs[0]), evs[1..]);
    }
  }

  /** The page's menu is synced in every reachable state. */
  lemma ReachableMenuSynced(evs: seq<NavEvent>)
    ensures Synced(Run(InitialNav, evs).menu)
  {
    RunKeepsMenuSynced(InitialNav, evs);
  }
}
