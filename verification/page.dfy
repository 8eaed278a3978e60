/**
 * The page state that the portfolio script reads and writes, with the DOM
 * replaced by plain values. Every event handler of the script becomes a pure
 * transition on a `Page`.
 */
module PageState {
  import opened Wrappers

  /** A `.nav-link` anchor: its `href` attribute and whether it carries the `active` class. */
  datatype Link = Link(href: string, active: bool)

  datatype Page = Page(
    attr: Option<string>,          // `data-theme` attribute of the root element (None: attribute absent)
    storage: map<string, string>,  // origin-scoped local storage
    systemDark: bool,              // whether `(prefers-color-scheme: dark)` currently matches
    scrolled: bool,                // `scrolled` class on the navbar
    toggleActive: bool,            // `active` class on the mobile-menu toggle button
    menuActive: bool,              // `active` class on the navigation menu panel
    overflowHidden: bool,          // body inline style `overflow` is `hidden` (otherwise empty)
    links: seq<Link>,              // the `.nav-link` elements in document order
    visible: seq<bool>             // `visible` class of each `.fade-in` element, in document order
  )

  /** The mobile menu's three markers agree: both `active` classes and the scroll lock. */
  predicate MenuSynced(p: Page) {
    p.toggleActive == p.menuActive && p.overflowHidden == p.menuActive
  }

  /** Two link lists differ at most in their `active` flags. */
  predicate SameHrefs(a: seq<Link>, b: seq<Link>) {
    |a| == |b| && forall i :: 0 <= i < |a| ==> a[i].href == b[i].href
  }

  /** No fade element that was visible in `before` is hidden in `after`. */
  predicate VisibleGrows(before: seq<bool>, after: seq<bool>) {
    |before| == |after| && forall i :: 0 <= i < |before| && before[i] ==> after[i]
  }
}
