/** The navigation controller (`initNavigation`): the `active` classes of the
    hamburger button and of the nav menu, and the navbar background on scroll. */
module Navigation {

  /** Whether `.hamburger` and `.nav-menu` carry the class `active`. */
  datatype MenuFlags = MenuFlags(hamburgerActive: bool, navMenuActive: bool)

  const MenuClosed := MenuFlags(false, false)

  /** A click on the hamburger toggles `active` on both elements. */
  function ToggleMenu(f: MenuFlags): (r: MenuFlags)
    ensures r.hamburgerActive != f.hamburgerActive && r.navMenuActive != f.navMenuActive
    ensures InSync(r) <==> InSync(f)
  {
    MenuFlags(!f.hamburgerActive, !f.navMenuActive)
  }

  /** A click on a nav link removes `active` from both elements. */
  function CloseMenu(f: MenuFlags): (r: MenuFlags)
    ensures !r.hamburgerActive && !r.navMenuActive && InSync(r)
  {
    MenuClosed
  }

  /** Both elements agree: the menu is shown exactly when the button shows "open". */
  predicate InSync(f: MenuFlags) {
    f.hamburgerActive == f.navMenuActive
  }

  /** Two hamburger clicks restore the flags; one click changes both. */
  lemma ToggleTwiceRestores(f: MenuFlags)
    ensures ToggleMenu(ToggleMenu(f)) == f
    ensures ToggleMenu(f).hamburgerActive != f.hamburgerActive
    ensures ToggleMenu(f).navMenuActive != f.navMenuActive
  {
  }

  /** A nav-link click closes the menu, and a second one changes nothing. */
  lemma CloseIdempotent(f: MenuFlags)
    ensures CloseMenu(f) == MenuClosed
    ensures CloseMenu(CloseMenu(f)) == CloseMenu(f)
  {
  }

  /** Both handlers keep the two flags in agreement. */
  lemma HandlersKeepInSync(f: MenuFlags)
    requires InSync(f)
    ensures InSync(ToggleMenu(f)) && InSync(CloseMenu(f))
  {
  }

  const TopBackground := "rgba(255, 255, 255, 0.95)"
  const ScrolledBackground := "rgba(255, 255, 255, 0.98)"

  /** The navbar's inline background after a scroll event at vertical offset
      `scrollY`: the more opaque colour strictly beyond 100 pixels. */
  function NavbarBackground(scrollY: real): (css: string)
    ensures css == ScrolledBackground || css == TopBackground
  {
    if scrollY > 100.0 then ScrolledBackground else TopBackground
  }

  /** The threshold, both ways: the opaque background is chosen exactly when the
      offset exceeds 100, so it depends on the current offset alone. */
  lemma NavbarThreshold(scrollY: real)
    ensures NavbarBackground(scrollY) == ScrolledBackground <==> scrollY > 100.0
    ensures NavbarBackground(scrollY) == TopBackground <==> scrollY <= 100.0
  {
    assert ScrolledBackground != TopBackground by {
      assert ScrolledBackground[23] != TopBackground[23];
    }
  }

  /** Scrolling further down never brings back the translucent background. */
  lemma NavbarMonotone(y1: real, y2: real)
    requires y1 <= y2 && NavbarBackground(y1) == ScrolledBackground
    ensures NavbarBackground(y2) == ScrolledBackground
  {
    NavbarThreshold(y1);
  }
}
