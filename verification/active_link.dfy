/**
 * Active navigation link highlighting (js/main.js:144-162). Each `section[id]`
 * that contains the probe position re-clears every link and marks the links
 * pointing at it, so the last containing section in document order wins; when
 * none contains the probe, the links are left exactly as they were.
 */
module ActiveLink {
  import opened Wrappers
  import opened PageState

  /** A `section[id]` element: its id, `offsetTop` and `offsetHeight`. */
  datatype Section = Section(id: string, top: int, height: int)

  /** Margin added below the navbar when probing for the current section. */
  const LookAhead: int := 100

  /** The document position that decides the current section. */
  function Probe(scrollY: int, navHeight: int): int {
    scrollY + navHeight + LookAhead
  }

  /** The section's half-open span `[top, top + height)` contains `probe`. */
  predicate Covers(s: Section, probe: int) {
    s.top <= probe < s.top + s.height
  }

  /** The href of a link to the section named `id`. */
  function Anchor(id: string): string {
    "#" + id
  }

  /**
   * The inner `forEach` for one section: every link loses `active` and then
   * regains it exactly when its href is `#id`.
   */
  function Highlight(links: seq<Link>, id: string): (r: seq<Link>)
    ensures SameHrefs(links, r)
    ensures forall i :: 0 <= i < |r| ==> (r[i].active <==> links[i].href == Anchor(id))
  {
    if |links| == 0 then []
    else [Link(links[0].href, links[0].href == Anchor(id))] + Highlight(links[1..], id)
  }

  /** The id of the last section, in document order, whose span contains `probe`. */
  function LastCovering(sections: seq<Section>, probe: int): (r: Option<string>)
    ensures r.None? <==> forall i :: 0 <= i < |sections| ==> !Covers(sections[i], probe)
    ensures r.Some? ==> exists k :: 0 <= k < |sections| && Covers(sections[k], probe)
                                    && sections[k].id == r.value
                                    && forall j :: k < j < |sections| ==> !Covers(sections[j], probe)
  {
    if |sections| == 0 then None
    else
      var last := sections[|sections| - 1];
      if Covers(last, probe) then Some(last.id) else LastCovering(sections[..|sections| - 1], probe)
  }

  /** Reference definition: the links after the scroll handler, stated through the winning section. */
  function ActiveLinks(links: seq<Link>, sections: seq<Section>, probe: int): seq<Link> {
    match LastCovering(sections, probe)
    case None => links
    case Some(id) => Highlight(links, id)
  }

  /** A later highlight overrides an earlier one completely. */
  lemma HighlightOverrides(links: seq<Link>, a: string, b: string)
    ensures Highlight(Highlight(links, a), b) == Highlight(links, b)
  {
  }

  /**
   * `updateActiveNavLink`, written as the source's loop over the sections. The
   * result keeps every href; with no containing section it is the input
   * unchanged; otherwise a link is active exactly when it points at the last
   * containing section.
   */
  method UpdateActiveNavLink(links: seq<Link>, sections: seq<Section>, scrollY: int, navHeight: int)
    returns (r: seq<Link>)
    ensures r == ActiveLinks(links, sections, Probe(scrollY, navHeight))
    ensures SameHrefs(links, r)
    ensures (forall i :: 0 <= i < |sections| ==> !Covers(sections[i], Probe(scrollY, navHeight))) ==> r == links
    ensures forall k :: 0 <= k < |sections| && Covers(sections[k], Probe(scrollY, navHeight))
                        && (forall j :: k < j < |sections| ==> !Covers(sections[j], Probe(scrollY, navHeight))) ==>
              forall i :: 0 <= i < |r| ==> (r[i].active <==> r[i].href == Anchor(sections[k].id))
  {
    var probe := Probe(scrollY, navHeight);
    r := links;
    var n := 0;
    while n < |sections|
      invariant 0 <= n <= |sections|
      invariant r == ActiveLinks(links, sections[..n], probe)
    {
      assert sections[..n + 1][..n] == sections[..n];
      var s := sections[n];
      if probe >= s.top && probe < s.top + s.height {
        var earlier := LastCovering(sections[..n], probe);
        if earlier.Some? {
          HighlightOverrides(links, earlier.value, s.id);
        }
        r := Highlight(r, s.id);
      }
      n := n + 1;
    }
    assert sections[..n] == sections;
    LastCoveringIsUnique(sections, probe);
  }

  /** The winning section is the unique index that contains the probe with nothing containing it later. */
  lemma LastCoveringIsUnique(sections: seq<Section>, probe: int)
    ensures forall k :: 0 <= k < |sections| && Covers(sections[k], probe)
                        && (forall j :: k < j < |sections| ==> !Covers(sections[j], probe)) ==>
              LastCovering(sections, probe) == Some(sections[k].id)
  {
    var r := LastCovering(sections, probe);
    forall k | 0 <= k < |sections| && Covers(sections[k], probe)
                && (forall j :: k < j < |sections| ==> !Covers(sections[j], probe))
      ensures r == Some(sections[k].id)
    {
      var k' :| 0 <= k' < |sections| && Covers(sections[k'], probe) && sections[k'].id == r.value
                && forall j :: k' < j < |sections| ==> !Covers(sections[j], probe);
      assert k' == k;
    }
  }

  /** No two links are active at once. */
  predicate AtMostOneActive(links: seq<Link>) {
    forall i, j :: 0 <= i < j < |links| ==> !(links[i].active && links[j].active)
  }

  /**
   * With distinct hrefs, an update that finds a containing section leaves at
   * most one link active; one that finds none keeps an at-most-one state.
   * When some link points at the winning section, exactly that link is active.
   */
  lemma SingleActiveLink(links: seq<Link>, sections: seq<Section>, probe: int)
    requires forall i, j :: 0 <= i < j < |links| ==> links[i].href != links[j].href
    ensures LastCovering(sections, probe).Some? || AtMostOneActive(links) ==>
              AtMostOneActive(ActiveLinks(links, sections, probe))
    ensures var w := LastCovering(sections, probe); var r := ActiveLinks(links, sections, probe);
            w.Some? ==> forall i :: 0 <= i < |links| && links[i].href == Anchor(w.value) ==>
                          forall j :: 0 <= j < |r| ==> (r[j].active <==> j == i)
  {
  }

  /**
   * Of two sections that both contain the probe, the earlier never wins: the
   * winner is the later one or a section after it.
   */
  lemma LaterCoveringWins(sections: seq<Section>, probe: int, i: nat, j: nat)
    requires i < j < |sections|
    requires Covers(sections[i], probe) && Covers(sections[j], probe)
    ensures LastCovering(sections, probe).Some?
    ensures exists k :: j <= k < |sections| && Covers(sections[k], probe)
                        && sections[k].id == LastCovering(sections, probe).value
  {
  }

  /**
   * Worked example of overlapping sections: the probe 150 lies in both
   * `about` [0, 200) and `work` [100, 300), and only the `#work` link ends up active.
   */
  lemma LastMatchWins()
    ensures ActiveLinks([Link("#about", false), Link("#work", false)],
                        [Section("about", 0, 200), Section("work", 100, 200)], 150)
            == [Link("#about", false), Link("#work", true)]
  {
    var links := [Link("#about", false), Link("#work", false)];
    var sections := [Section("about", 0, 200), Section("work", 100, 200)];
    assert LastCovering(sections, 150) == Some("work");
    var r := Highlight(links, "work");
    assert r[0].active == false && r[1].active == true;
  }
}
