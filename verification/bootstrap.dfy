/**
 * The `init` routine (js/main.js:188-244) as one transition, and properties
 * that tie the handlers of different components together.
 */
module Bootstrap {
  import opened Wrappers
  import opened PageState
  import opened Theme
  import opened Navigation
  import opened ActiveLink

  /**
   * The synchronous part of `init`: apply the theme, then evaluate the navbar
   * scroll state and the active link once for the current scroll position.
   * Listener registration, the observer and the hero timers are asynchronous and
   * are modelled in their own modules.
   */
  function Boot(p: Page, scrollY: int, navHeight: int, sections: seq<Section>): (r: Page)
    ensures Agree(r) && Truthy(SavedTheme(r))
    ensures Truthy(SavedTheme(p)) ==> r.attr == SavedTheme(p)
    ensures !Truthy(SavedTheme(p)) ==> r.attr == Some(SystemTheme(p.systemDark))
    ensures r.scrolled <==> scrollY > ScrollThreshold
    ensures r.links == ActiveLinks(p.links, sections, Probe(scrollY, navHeight))
    ensures r == p.(attr := r.attr, storage := r.storage, scrolled := r.scrolled, links := r.links)
  {
    var themed := InitTheme(p);
    var navbar := HandleNavScroll(themed, scrollY);
    navbar.(links := ActiveLinks(navbar.links, sections, Probe(scrollY, navHeight)))
  }

  /** Once the page has booted, operating-system colour-scheme changes never alter the theme. */
  lemma OsChangeAfterBootIsInert(p: Page, scrollY: int, navHeight: int, sections: seq<Section>, matches: bool)
    ensures var b := Boot(p, scrollY, navHeight, sections);
            OsThemeChange(b, matches) == b.(systemDark := matches)
  {
  }

  /** No two sections' spans overlap. */
  predicate Disjoint(sections: seq<Section>) {
    forall i, j :: 0 <= i < j < |sections| ==>
      sections[i].top + sections[i].height <= sections[j].top
      || sections[j].top + sections[j].height <= sections[i].top
  }

  /**
   * Clicking the `#id` link of a section taller than the look-ahead margin and
   * landing where the click scrolls to makes that link, and only links with
   * the same href, active, provided the sections do not overlap. The target
   * must lie at or below the navbar height, so that the requested offset is
   * not negative and the browser does not clamp it up to 0.
   */
  lemma AnchorClickHighlightsItsLink(p: Page, id: string, elements: map<string, int>,
                                     navHeight: int, sections: seq<Section>, k: nat)
    requires id != "" && id in elements
    requires elements[id] >= navHeight
    requires k < |sections| && sections[k].id == id && sections[k].top == elements[id]
    requires sections[k].height > LookAhead
    requires Disjoint(sections)
    ensures var out := HandleNavClick(p, "#" + id, elements, navHeight);
            out.scrollTop.Some?
            && var links := ActiveLinks(out.page.links, sections, Probe(out.scrollTop.value, navHeight));
               forall i :: 0 <= i < |links| ==> (links[i].active <==> links[i].href == Anchor(id))
  {
    AnchorTarget(p, id, elements, navHeight);
    var out := HandleNavClick(p, "#" + id, elements, navHeight);
    var probe := Probe(out.scrollTop.value, navHeight);
    assert probe == sections[k].top + LookAhead;
    assert Covers(sections[k], probe);
    forall j | k < j < |sections|
      ensures !Covers(sections[j], probe)
    {
    }
    LastCoveringIsUnique(sections, probe);
  }
}
