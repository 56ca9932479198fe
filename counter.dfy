/** The skill-count animation (script.js:328-356): the first time the skills grid comes
    into view, every category's count runs up from 0 to the number its markup shows, one
    at a time. The viewport observer and the timers between increments are not modelled:
    observer callbacks are calls of OnEntries, and the chain of timed increments is a loop. */
module Counter {

  import opened Optional

  /** The one-shot flag `countersAnimated`. */
  class CounterStart {
    var countersAnimated: bool

    constructor ()
      ensures !countersAnimated
    {
      countersAnimated := false;
    }

    /** One observer callback over the `isIntersecting` values of its entries. The counters
        start at most once over the life of the page: on the first intersecting entry
        seen while the flag is clear; `starts` is how many times they start here. */
    method OnEntries(entries: seq<bool>) returns (starts: nat)
      modifies this
      ensures starts == if !old(countersAnimated) && true in entries then 1 else 0
      ensures countersAnimated == (old(countersAnimated) || true in entries)
    {
      starts := 0;
      for k := 0 to |entries|
        invariant countersAnimated == (old(countersAnimated) || true in entries[..k])
        invariant starts == if !old(countersAnimated) && true in entries[..k] then 1 else 0
      {
        assert entries[..k + 1] == entries[..k] + [entries[k]];
        if entries[k] && !countersAnimated {
          countersAnimated := true;
          starts := starts + 1;
        }
      }
      assert entries[..|entries|] == entries;
    }
  }

  /** The run of one counter: the texts it shows, in order, counting up by one from 0 to
      `target`. `target` is `parseInt` of the count's text, None when that is not a number,
      in which case the comparison with it is false and nothing is shown; a target of 0 or
      less also shows nothing. */
  method CountUp(target: Option<int>) returns (shown: seq<int>)
    ensures target.None? ==> shown == []
    ensures target.Some? ==> |shown| == if target.value > 0 then target.value else 0
    ensures forall k :: 0 <= k < |shown| ==> shown[k] == k + 1
  {
    shown := [];
    if target.None? {
      return;
    }
    var current := 0;
    while current < target.value
      invariant 0 <= current
      invariant current <= target.value || current == 0
      invariant |shown| == current
      invariant forall k :: 0 <= k < |shown| ==> shown[k] == k + 1
    {
      current := current + 1;
      shown := shown + [current];
    }
  }
}
