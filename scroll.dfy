/** Scroll handlers (script.js:207-226 and 361-371): the navigation link of the section in
    view is marked active, and the navigation bar hides while the page scrolls down past its
    first 100 pixels. Positions and sizes are whole pixels. */
module Scroll {

  /** Pixels by which a section counts as reached before its top edge. */
  const Lead: int := 100

  /** A `section[id]` element: its `offsetTop`, its `offsetHeight`, and whether the
      navigation menu has a link to its id. */
  datatype Section = Section(offsetTop: int, offsetHeight: int, hasLink: bool)

  /** The link of a section is active when the scroll position lies in the window of the
      section's height that starts 100 pixels above its top: exclusive at the start,
      inclusive at the end. A section whose height is not positive is never in view. */
  predicate InView(scrollY: int, s: Section)
    ensures InView(scrollY, s) ==> s.offsetHeight > 0
  {
    s.offsetTop - Lead < scrollY <= s.offsetTop - Lead + s.offsetHeight
  }

  /** Sections laid out one after another down the page without overlapping. */
  predicate Stacked(sections: seq<Section>)
  {
    (forall i :: 0 <= i < |sections| ==> sections[i].offsetHeight >= 0) &&
    (forall i :: 0 <= i < |sections| - 1 ==>
      sections[i].offsetTop + sections[i].offsetHeight <= sections[i + 1].offsetTop)
  }

  /** In stacked sections, a later section starts no earlier than an earlier one ends. */
  lemma {:induction false} StackedOrdered(sections: seq<Section>, i: nat, j: nat)
    requires Stacked(sections) && i < j < |sections|
    ensures sections[i].offsetTop + sections[i].offsetHeight <= sections[j].offsetTop
    decreases j - i
  {
    if i + 1 < j {
      StackedOrdered(sections, i + 1, j);
    }
  }

  /** For stacked sections at most one is in view at any scroll position, so at most one
      navigation link is active. */
  lemma AtMostOneInView(sections: seq<Section>, scrollY: int, i: nat, j: nat)
    requires Stacked(sections) && i < |sections| && j < |sections|
    requires InView(scrollY, sections[i]) && InView(scrollY, sections[j])
    ensures i == j
  {
    if i < j {
      StackedOrdered(sections, i, j);
    } else if j < i {
      StackedOrdered(sections, j, i);
    }
  }

  /** When stacked sections cover the page without gaps, every position from the first
      section's window to the last one's falls in the window of some section. */
  lemma {:induction false} SomeInView(sections: seq<Section>, scrollY: int)
    requires |sections| > 0
    requires forall i :: 0 <= i < |sections| - 1 ==>
      sections[i].offsetTop + sections[i].offsetHeight == sections[i + 1].offsetTop
    requires sections[0].offsetTop - Lead < scrollY
    requires scrollY <= sections[|sections| - 1].offsetTop - Lead + sections[|sections| - 1].offsetHeight
    ensures exists i :: 0 <= i < |sections| && InView(scrollY, sections[i])
    decreases |sections|
  {
    if !InView(scrollY, sections[0]) {
      SomeInView(sections[1..], scrollY);
      var i :| 0 <= i < |sections| - 1 && InView(scrollY, sections[1..][i]);
      assert InView(scrollY, sections[i + 1]);
    }
  }

  /** The active flags of the navigation links, one per section in document order; the
      flag of a section without a link is not looked at. */
  method Highlight(sections: seq<Section>, active: array<bool>, scrollY: int)
    requires active.Length == |sections|
    modifies active
    ensures forall i :: 0 <= i < |sections| ==>
      active[i] == if sections[i].hasLink then InView(scrollY, sections[i]) else old(active[i])
  {
    for i := 0 to |sections|
      invariant forall k :: 0 <= k < i ==>
        active[k] == if sections[k].hasLink then InView(scrollY, sections[k]) else old(active[k])
      invariant forall k :: i <= k < |sections| ==> active[k] == old(active[k])
    {
      var section := sections[i];
      var sectionHeight := section.offsetHeight;
      var sectionTop := section.offsetTop - Lead;
      if section.hasLink {
        if scrollY > sectionTop && scrollY <= sectionTop + sectionHeight {
          active[i] := true;
        } else {
          active[i] := false;
        }
      }
    }
  }

  /** Scroll position below which the navigation bar is never hidden. */
  const HideAfter: int := 100

  /** The navigation bar: its `nav-hidden` class and the last scroll position seen. */
  class Navbar {
    var hidden: bool
    var lastScrollY: int

    constructor (scrollY: int)
      ensures !hidden && lastScrollY == scrollY
    {
      hidden := false;
      lastScrollY := scrollY;
    }

    /** The scroll handler: hidden exactly when the page moved down and is past 100 pixels,
        so never near the top, never while scrolling up and never when standing still; the
        position is always remembered. */
    method OnScroll(scrollY: int)
      modifies this
      ensures hidden <==> scrollY > old(lastScrollY) && scrollY > HideAfter
      ensures scrollY <= HideAfter ==> !hidden
      ensures scrollY <= old(lastScrollY) ==> !hidden
      ensures lastScrollY == scrollY
    {
      if scrollY > lastScrollY && scrollY > HideAfter {
        hidden := true;
      } else {
        hidden := false;
      }
      lastScrollY := scrollY;
    }
  }
}
