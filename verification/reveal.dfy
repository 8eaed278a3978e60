/**
 * Fade-in reveal (js/main.js:119-139, 235-243). Both triggers, the
 * intersection observer and the timed hero reveal, only ever add the
 * `visible` class; neither removes it.
 */
module Reveal {
  import opened PageState

  /** One intersection-observer entry: the index of its `.fade-in` target and whether it is intersecting. */
  datatype Entry = Entry(target: nat, isIntersecting: bool)

  /** `classList.add('visible')` on fade element `i`. */
  function Show(visible: seq<bool>, i: nat): (r: seq<bool>)
    requires i < |visible|
    ensures VisibleGrows(visible, r) && r[i]
    ensures forall j :: 0 <= j < |r| && j != i ==> r[j] == visible[j]
  {
    visible[i := true]
  }

  /** Some intersecting entry among `entries` targets element `j`. */
  predicate HitBy(entries: seq<Entry>, j: nat) {
    exists k :: 0 <= k < |entries| && entries[k].target == j && entries[k].isIntersecting
  }

  /**
   * The observer callback: each intersecting entry reveals its target, other
   * entries are ignored. An element ends up visible exactly when it already was
   * or some intersecting entry names it.
   */
  method ObserverCallback(visible: seq<bool>, entries: seq<Entry>) returns (r: seq<bool>)
    requires forall k :: 0 <= k < |entries| ==> entries[k].target < |visible|
    ensures VisibleGrows(visible, r)
    ensures forall j :: 0 <= j < |r| ==> (r[j] <==> visible[j] || HitBy(entries, j))
  {
    r := visible;
    var n := 0;
    while n < |entries|
      invariant 0 <= n <= |entries|
      invariant |r| == |visible|
      invariant forall j :: 0 <= j < |r| ==> (r[j] <==> visible[j] || HitBy(entries[..n], j))
    {
      var e := entries[n];
      if e.isIntersecting {
        r := Show(r, e.target);
      }
      forall j | 0 <= j < |r|
        ensures HitBy(entries[..n + 1], j) <==> HitBy(entries[..n], j) || (e.isIntersecting && e.target == j)
      {
        if HitBy(entries[..n + 1], j) {
          var k :| 0 <= k < n + 1 && entries[..n + 1][k].target == j && entries[..n + 1][k].isIntersecting;
          if k < n {
            assert entries[..n][k] == entries[k];
          }
        }
        if HitBy(entries[..n], j) {
          var k :| 0 <= k < n && entries[..n][k].target == j && entries[..n][k].isIntersecting;
          assert entries[..n + 1][k] == entries[k];
        }
        if e.isIntersecting && e.target == j {
          assert entries[..n + 1][n] == e;
        }
      }
      n := n + 1;
    }
    assert entries[..n] == entries;
  }

  /** Delay of the outer `setTimeout` that starts the hero sequence. */
  const HeroStart: int := 100
  /** Extra delay per hero element. */
  const HeroStagger: int := 100

  /** Total delay after which hero element `i` (its index among `.hero .fade-in`) is revealed. */
  function HeroDelay(i: nat): int {
    HeroStart + i * HeroStagger
  }

  /** The hero delays start at 100 and step by exactly 100, so the reveals fire in document order. */
  lemma HeroDelaysOrdered(i: nat, j: nat)
    ensures HeroDelay(0) == 100
    ensures HeroDelay(i + 1) == HeroDelay(i) + 100
    ensures i < j ==> HeroDelay(i) < HeroDelay(j)
  {
  }

  /** The hero reveals that have fired once the first `n` timers ran: elements `hero[0..n)` shown. */
  function ShowFirst(visible: seq<bool>, hero: seq<nat>, n: nat): (r: seq<bool>)
    requires n <= |hero|
    requires forall k :: 0 <= k < |hero| ==> hero[k] < |visible|
    ensures VisibleGrows(visible, r)
    ensures forall j :: 0 <= j < |r| ==> (r[j] <==> visible[j] || exists k :: 0 <= k < n && hero[k] == j)
  {
    if n == 0 then visible
    else
      var prev := ShowFirst(visible, hero, n - 1);
      Show(prev, hero[n - 1])
  }

  /** How many of `count` hero timers have fired by time `t` (milliseconds after the bootstrap ran). */
  function FiredBy(count: nat, t: int): (n: nat)
    ensures n <= count
    ensures forall i: nat :: i < count ==> (i < n <==> HeroDelay(i) <= t)
  {
    if t < HeroStart then 0
    else
      var due := (t - HeroStart) / HeroStagger + 1;
      if due < count then due else count
  }

  /**
   * The fade flags at time `t`: hero element `i` is visible once its delay
   * `100 + 100*i` has passed, and no flag that was set is ever cleared.
   */
  function HeroVisibleAt(visible: seq<bool>, hero: seq<nat>, t: int): (r: seq<bool>)
    requires forall k :: 0 <= k < |hero| ==> hero[k] < |visible|
    ensures VisibleGrows(visible, r)
    ensures forall i :: 0 <= i < |hero| && HeroDelay(i) <= t ==> r[hero[i]]
    ensures forall j :: 0 <= j < |r| && r[j] && !visible[j] ==> exists i :: 0 <= i < |hero| && hero[i] == j && HeroDelay(i) <= t
  {
    ShowFirst(visible, hero, FiredBy(|hero|, t))
  }

  /** Later is never less revealed than earlier. */
  lemma HeroRevealMonotone(visible: seq<bool>, hero: seq<nat>, t1: int, t2: int)
    requires forall k :: 0 <= k < |hero| ==> hero[k] < |visible|
    requires t1 <= t2
    ensures VisibleGrows(HeroVisibleAt(visible, hero, t1), HeroVisibleAt(visible, hero, t2))
  {
  }
}
