/** Progressive disclosure (script.js:131-202): expand buttons that open a target panel,
    experience and project cards of which at most one is expanded, and skill categories of
    which at most one is active and whose skills are shown as pills. Class flags of a group
    of elements are an array of booleans, one per element in document order. */
module Disclosure {

  import Text

  /** At most one flag is set. */
  predicate AtMostOne(flags: seq<bool>)
  {
    forall j, k :: 0 <= j < |flags| && 0 <= k < |flags| && flags[j] && flags[k] ==> j == k
  }

  /** The flags of a group after its element `i` is clicked: every other element is
      cleared, and element `i` is set exactly when it was clear before. */
  function ExclusiveToggle(flags: seq<bool>, i: nat): (r: seq<bool>)
    requires i < |flags|
    ensures |r| == |flags|
    ensures AtMostOne(r)
    ensures forall j :: 0 <= j < |r| && j != i ==> !r[j]
    ensures r[i] == !flags[i]
  {
    seq(|flags|, j requires 0 <= j < |flags| => j == i && !flags[i])
  }

  /** Clicking the same element twice restores the group when nothing else was set. */
  lemma ExclusiveToggleTwice(flags: seq<bool>, i: nat)
    requires i < |flags|
    requires forall j :: 0 <= j < |flags| && j != i ==> !flags[j]
    ensures ExclusiveToggle(ExclusiveToggle(flags, i), i) == flags
  {
  }

  /** Clicking another element moves the single set flag there, whatever the group held. */
  lemma ExclusiveToggleOther(flags: seq<bool>, i: nat, k: nat)
    requires i < |flags| && k < |flags| && i != k
    ensures ExclusiveToggle(ExclusiveToggle(flags, i), k) == ExclusiveToggle(seq(|flags|, j => false), k)
    ensures ExclusiveToggle(ExclusiveToggle(flags, i), k)[k]
  {
  }

  /** The click handler of an experience card header or of a project card: every card of
      the group but the clicked one loses `expanded`, then the clicked one toggles it. */
  method ClickCard(expanded: array<bool>, i: nat)
    requires i < expanded.Length
    modifies expanded
    ensures expanded[..] == ExclusiveToggle(old(expanded[..]), i)
  {
    for j := 0 to expanded.Length
      invariant forall k :: 0 <= k < j && k != i ==> !expanded[k]
      invariant forall k :: j <= k < expanded.Length || k == i ==> 0 <= k < expanded.Length && expanded[k] == old(expanded[k])
    {
      if j != i {
        expanded[j] := false;
      }
    }
    expanded[i] := !expanded[i];
  }

  /** The two kinds of cards that take the keyboard: an experience card, whose click
      listener sits on its `.exp-header` child, and a project card, whose click listener
      sits on the card itself. */
  datatype CardKind = Experience | Project

  /** A click dispatched on the card element reaches the card's accordion listener. Such a
      click only bubbles up to the card's ancestors, so it misses a listener on a child. */
  predicate ClickReachesListener(kind: CardKind)
  {
    kind == Project
  }

  /** The Enter/Space handler of a card as written: it dispatches `card.click()` on the card,
      which toggles a project card like a mouse click but leaves every experience card as
      it was. */
  method KeyActivateAsWritten(kind: CardKind, expanded: array<bool>, i: nat)
    requires i < expanded.Length
    modifies expanded
    ensures ClickReachesListener(kind) ==> expanded[..] == ExclusiveToggle(old(expanded[..]), i)
    ensures !ClickReachesListener(kind) ==> expanded[..] == old(expanded[..])
  {
    if ClickReachesListener(kind) {
      ClickCard(expanded, i);
    }
  }

  /** The key press of an experience card as written never does what a click on its header
      does: a click always changes the clicked card's flag. */
  lemma ExperienceKeyIgnored(flags: seq<bool>, i: nat)
    requires i < |flags|
    ensures ExclusiveToggle(flags, i) != flags
  {
    assert ExclusiveToggle(flags, i)[i] != flags[i];
  }

  /** The Enter/Space handler as intended: on either kind of card it acts like a click on
      the card's accordion control. */
  method KeyActivate(kind: CardKind, expanded: array<bool>, i: nat)
    requires i < expanded.Length
    modifies expanded
    ensures expanded[..] == ExclusiveToggle(old(expanded[..]), i)
    ensures AtMostOne(expanded[..])
  {
    ClickCard(expanded, i);
  }

  /** Removes the class from every element of a group. */
  method ClearAll(flags: array<bool>)
    modifies flags
    ensures flags[..] == seq(flags.Length, k => false)
  {
    for j := 0 to flags.Length
      invariant forall k :: 0 <= k < j ==> !flags[k]
    {
      flags[j] := false;
    }
  }

  /** The skill categories and the display below them. `skills` holds each category's
      `data-skills` attribute, `active` its `active` class, and the display holds the pill
      labels and the `has-content` class. `shown` is the index of the category whose
      pills are displayed, or -1. */
  class SkillsPanel {
    const skills: seq<string>
    const active: array<bool>
    var hasContent: bool
    var pills: seq<string>
    ghost var shown: int

    /** At most one category is active; the display has content exactly when one is, and
        then holds that category's pills; otherwise it is empty. */
    ghost predicate Valid()
      reads this, active
    {
      active.Length == |skills| &&
      AtMostOne(active[..]) &&
      -1 <= shown < active.Length &&
      (hasContent <==> shown >= 0) &&
      (shown >= 0 ==> active[shown] && pills == Text.Pills(skills[shown])) &&
      (shown < 0 ==> true !in active[..] && pills == [])
    }

    /** The page as served: no category is active and the display is empty. */
    constructor (skills: seq<string>)
      ensures Valid() && fresh(active)
      ensures this.skills == skills && active[..] == seq(|skills|, j => false)
      ensures !hasContent && pills == []
    {
      this.skills := skills;
      active := new bool[|skills|](j => false);
      hasContent := false;
      pills := [];
      shown := -1;
      new;
      assert true !in active[..];
    }

    /** A click on category `i`: every category loses `active`; if `i` was not active it
        becomes active and its skills are shown, otherwise the display is cleared. The
        handler runs from whatever classes the page holds, and a click always leaves the
        panel valid. */
    method Click(i: nat)
      requires active.Length == |skills| && i < active.Length
      modifies this`hasContent, this`pills, this`shown, active
      ensures Valid()
      ensures active[..] == ExclusiveToggle(old(active[..]), i)
      ensures hasContent == active[i]
      ensures pills == if active[i] then Text.Pills(skills[i]) else []
    {
      var wasActive := active[i];
      ClearAll(active);
      if wasActive {
        assert active[..] == ExclusiveToggle(old(active[..]), i);
        assert true !in active[..];
        pills := [];
        hasContent := false;
        shown := -1;
      } else {
        active[i] := true;
        assert active[..] == ExclusiveToggle(old(active[..]), i);
        pills := Text.Pills(skills[i]);
        hasContent := true;
        shown := i;
      }
    }
  }

  /** The element an expand button opens; it carries the `open` class. */
  class Panel {
    var open: bool

    constructor (open: bool)
      ensures this.open == open
    {
      this.open := open;
    }
  }

  /** An expand button: its `expanded` class, the text of its label span, and the panel
      named by its `data-target`. */
  class ExpandButton {
    var expanded: bool
    var caption: string
    const target: Panel

    constructor (caption: string, target: Panel)
      ensures !expanded && this.caption == caption && this.target == target
    {
      expanded := false;
      this.caption := caption;
      this.target := target;
    }

    /** A click flips `expanded` on the button and `open` on its panel, then swaps the first
        "More" of the caption for "Less" when the button is now expanded, or the first
        "Less" for "More" when it is not. */
    method Click()
      modifies this, target
      ensures expanded == !old(expanded)
      ensures target.open == !old(target.open)
      ensures caption == if expanded then Text.ReplaceFirst(old(caption), "More", "Less")
                         else Text.ReplaceFirst(old(caption), "Less", "More")
    {
      expanded := !expanded;
      target.open := !target.open;
      if expanded {
        caption := Text.ReplaceFirst(caption, "More", "Less");
      } else {
        caption := Text.ReplaceFirst(caption, "Less", "More");
      }
    }
  }

  /** Expanding and collapsing a button brings its flag and its panel's flag back, and
      restores a caption that reads "More" and not "Less". */
  method ExpandCollapse(b: ExpandButton)
    requires Text.Contains(b.caption, "More") && !Text.Contains(b.caption, "Less")
    requires !b.expanded
    modifies b, b.target
    ensures b.expanded == old(b.expanded) && b.target.open == old(b.target.open)
    ensures b.caption == old(b.caption)
  {
    b.Click();
    b.Click();
    Text.LabelRoundTrip(old(b.caption));
  }
}
