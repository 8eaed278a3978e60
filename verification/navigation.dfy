/**
 * Navigation (js/main.js:65-114, 178-183, 220-226): the navbar's `scrolled`
 * state, the mobile menu and its scroll lock, the Escape key, clicks outside
 * the menu, and in-page anchor clicks.
 */
module Navigation {
  import opened Wrappers
  import opened PageState

  /** Scroll offset the navbar must strictly exceed to count as scrolled. */
  const ScrollThreshold: int := 50

  /** `handleNavScroll`: `scrolled` is set exactly past the threshold; 50 itself is not scrolled. */
  function HandleNavScroll(p: Page, scrollY: int): (r: Page)
    ensures r.scrolled <==> scrollY > ScrollThreshold
    ensures r == p.(scrolled := r.scrolled)
  {
    p.(scrolled := scrollY > ScrollThreshold)
  }

  /** `toggleMobileNav`: flips both `active` classes; the body is locked exactly when the menu is open. */
  function ToggleMobileNav(p: Page): (r: Page)
    ensures r.toggleActive == !p.toggleActive && r.menuActive == !p.menuActive
    ensures r.overflowHidden <==> r.menuActive
    ensures r == p.(toggleActive := r.toggleActive, menuActive := r.menuActive, overflowHidden := r.overflowHidden)
  {
    var menu := !p.menuActive;
    p.(toggleActive := !p.toggleActive, menuActive := menu, overflowHidden := menu)
  }

  /** `closeMobileNav`: both classes removed and the scroll lock cleared, whatever the prior state. */
  function CloseMobileNav(p: Page): (r: Page)
    ensures !r.toggleActive && !r.menuActive && !r.overflowHidden
    ensures MenuSynced(r)
    ensures r == p.(toggleActive := r.toggleActive, menuActive := r.menuActive, overflowHidden := r.overflowHidden)
  {
    p.(toggleActive := false, menuActive := false, overflowHidden := false)
  }

  /** `handleKeyboard`: Escape closes the menu when the menu panel is active; nothing else reacts. */
  function HandleKeyboard(p: Page, key: string): (r: Page)
    ensures key != "Escape" || !p.menuActive ==> r == p
    ensures key == "Escape" && p.menuActive ==> !r.toggleActive && !r.menuActive && !r.overflowHidden
    ensures r == p.(toggleActive := r.toggleActive, menuActive := r.menuActive, overflowHidden := r.overflowHidden)
  {
    if key == "Escape" && p.menuActive then CloseMobileNav(p) else p
  }

  /**
   * The document-level click listener: a click whose target lies in neither the
   * menu panel nor the toggle closes an open menu. `inMenu` and `inToggle` are
   * the results of the two `contains` tests.
   */
  function OutsideClick(p: Page, inMenu: bool, inToggle: bool): (r: Page)
    ensures !p.menuActive || inMenu || inToggle ==> r == p
    ensures p.menuActive && !inMenu && !inToggle ==> !r.toggleActive && !r.menuActive && !r.overflowHidden
    ensures r == p.(toggleActive := r.toggleActive, menuActive := r.menuActive, overflowHidden := r.overflowHidden)
  {
    if p.menuActive && !inMenu && !inToggle then CloseMobileNav(p) else p
  }

  /**
   * What a link click did: the new page, whether default navigation was
   * cancelled, and the `top` passed to `scrollTo` (before the browser clamps it
   * to the scrollable range).
   */
  datatype ClickOutcome = ClickOutcome(page: Page, defaultPrevented: bool, scrollTop: Option<int>)

  predicate StartsWithHash(href: string) {
    |href| > 0 && href[0] == '#'
  }

  /**
   * `document.getElementById`: `elements` maps element ids to their `offsetTop`.
   * The empty id never names an element.
   */
  function ElementTop(elements: map<string, int>, id: string): Option<int> {
    if id != "" && id in elements then Some(elements[id]) else None
  }

  /**
   * `handleNavClick`. Only a `#` href is intercepted (default navigation is
   * cancelled even when the target is missing). An existing target closes the
   * menu and scrolls to its offset minus the navbar height; a missing target
   * changes nothing.
   */
  function HandleNavClick(p: Page, href: string, elements: map<string, int>, navHeight: int): (r: ClickOutcome)
    ensures r.defaultPrevented <==> StartsWithHash(href)
    ensures !StartsWithHash(href) ==> r.page == p && r.scrollTop == None
    ensures StartsWithHash(href) && ElementTop(elements, href[1..]).Some? ==>
              r.page == CloseMobileNav(p)
              && r.scrollTop == Some(ElementTop(elements, href[1..]).value - navHeight)
    ensures StartsWithHash(href) && ElementTop(elements, href[1..]).None? ==>
              r.page == p && r.scrollTop == None
  {
    if !StartsWithHash(href) then ClickOutcome(p, false, None)
    else
      match ElementTop(elements, href[1..])
      case None => ClickOutcome(p, true, None)
      case Some(top) => ClickOutcome(CloseMobileNav(p), true, Some(top - navHeight))
  }

  /** The scroll handler is idempotent and reads nothing of the page. */
  lemma NavScrollIdempotent(p: Page, q: Page, scrollY: int)
    ensures HandleNavScroll(HandleNavScroll(p, scrollY), scrollY) == HandleNavScroll(p, scrollY)
    ensures HandleNavScroll(p, scrollY).scrolled == HandleNavScroll(q, scrollY).scrolled
  {
  }

  /** Closing twice is closing once. */
  lemma CloseIdempotent(p: Page)
    ensures CloseMobileNav(CloseMobileNav(p)) == CloseMobileNav(p)
  {
  }

  /** Two toggles restore a page whose scroll lock matches its menu panel. */
  lemma ToggleTwiceRestores(p: Page)
    requires p.overflowHidden == p.menuActive
    ensures ToggleMobileNav(ToggleMobileNav(p)) == p
  {
  }

  /** Every navigation handler keeps the two `active` classes and the scroll lock in step. */
  lemma HandlersKeepMenuSynced(p: Page, scrollY: int, key: string, inMenu: bool, inToggle: bool,
                               href: string, elements: map<string, int>, navHeight: int)
    requires MenuSynced(p)
    ensures MenuSynced(HandleNavScroll(p, scrollY))
    ensures MenuSynced(ToggleMobileNav(p))
    ensures MenuSynced(CloseMobileNav(p))
    ensures MenuSynced(HandleKeyboard(p, key))
    ensures MenuSynced(OutsideClick(p, inMenu, inToggle))
    ensures MenuSynced(HandleNavClick(p, href, elements, navHeight).page)
  {
  }

  /**
   * Opening the menu locks scrolling, and each of the three ways of closing it
   * (toggle, Escape, outside click) releases the lock.
   */
  lemma ScrollLockFollowsMenu(p: Page, inMenu: bool, inToggle: bool)
    requires MenuSynced(p) && !p.menuActive
    ensures ToggleMobileNav(p).overflowHidden
    ensures !ToggleMobileNav(ToggleMobileNav(p)).overflowHidden
    ensures !HandleKeyboard(ToggleMobileNav(p), "Escape").overflowHidden
    ensures !inMenu && !inToggle ==> !OutsideClick(ToggleMobileNav(p), inMenu, inToggle).overflowHidden
  {
  }

  /** A `#id` link to an existing element scrolls to the element's offset minus the navbar height. */
  lemma AnchorTarget(p: Page, id: string, elements: map<string, int>, navHeight: int)
    requires id != "" && id in elements
    ensures HandleNavClick(p, "#" + id, elements, navHeight).scrollTop == Some(elements[id] - navHeight)
    ensures !HandleNavClick(p, "#" + id, elements, navHeight).page.menuActive
  {
    assert ("#" + id)[1..] == id;
  }

  /** A `#id` link whose id names no element is cancelled but neither scrolls nor touches the menu. */
  lemma AnchorMissing(p: Page, id: string, elements: map<string, int>, navHeight: int)
    requires id !in elements
    ensures HandleNavClick(p, "#" + id, elements, navHeight) == ClickOutcome(p, true, None)
  {
    assert ("#" + id)[1..] == id;
  }

  /** Worked figures: `#contact` at offset 1000 under an 80-high navbar goes to 920; a low target goes negative. */
  lemma AnchorExamples(p: Page)
    ensures HandleNavClick(p, "#contact", map["contact" := 1000], 80).scrollTop == Some(920)
    ensures HandleNavClick(p, "#top", map["top" := 20], 80).scrollTop == Some(-60)
    ensures HandleNavClick(p, "#missing", map["contact" := 1000], 80) == ClickOutcome(p, true, None)
    ensures HandleNavClick(p, "https://example.com/#contact", map["contact" := 1000], 80) == ClickOutcome(p, false, None)
  {
    AnchorTarget(p, "contact", map["contact" := 1000], 80);
    AnchorTarget(p, "top", map["top" := 20], 80);
    AnchorMissing(p, "missing", map["contact" := 1000], 80);
  }
}
