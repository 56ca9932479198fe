/** The typing animation of the hero title (script.js:40-69). A cursor over four role
    strings types one character per step, pauses, deletes one character per step, pauses,
    and moves on to the next role. Each step yields the text shown and the delay before the
    next step; the timer that schedules the steps is not modelled. */
module Typing {

  /** The roles the title cycles through; none of them is empty. */
  const Roles: seq<string> := ["Cyber Security Student", "App Developer", "Problem Solver", "Security Enthusiast"]

  /** The module-level state of the animation: `roleIndex`, `charIndex`, `isDeleting`. */
  datatype Cursor = Cursor(role: nat, chars: nat, deleting: bool)

  /** What one step produces: the next state, the text shown, and the delay until the next
      step in milliseconds (`typingSpeed`). */
  datatype Tick = Tick(next: Cursor, text: string, delay: int)

  /** The states the animation can be in: a role index in range, at most as many characters
      as the role has, fewer than all while typing and at least one while deleting. */
  predicate WellFormed(c: Cursor)
  {
    c.role < |Roles| && c.chars <= |Roles[c.role]| &&
    (!c.deleting ==> c.chars < |Roles[c.role]|) &&
    (c.deleting ==> c.chars > 0)
  }

  /** One call of `typeRole`. The shown text is the first `next.chars` characters of the role
      just worked on. The delay tells the phase change: 2000 when the step completes the word
      (typing turns into deleting), 500 when it empties the word (deleting turns into typing
      and the next role comes up), else 100 while typing and 50 while deleting. */
  function Step(c: Cursor): (t: Tick)
    requires WellFormed(c)
    ensures WellFormed(t.next)
    ensures t.next.chars == if c.deleting then c.chars - 1 else c.chars + 1
    ensures t.text == Roles[c.role][..t.next.chars]
    ensures t.next.chars == 0 ==> !t.next.deleting
    ensures t.next.deleting <==> if c.deleting then t.next.chars > 0 else t.next.chars == |Roles[c.role]|
    ensures t.next.role == if c.deleting && !t.next.deleting then (c.role + 1) % |Roles| else c.role
    ensures t.delay == 2000 <==> !c.deleting && t.next.deleting
    ensures t.delay == 500 <==> c.deleting && !t.next.deleting
    ensures t.delay == 100 <==> !c.deleting && !t.next.deleting
    ensures t.delay == 50 <==> c.deleting && t.next.deleting
  {
    var word := Roles[c.role];
    if c.deleting then
      var k := c.chars - 1;
      if k == 0 then Tick(Cursor((c.role + 1) % |Roles|, 0, false), word[..k], 500)
      else Tick(Cursor(c.role, k, true), word[..k], 50)
    else
      var k := c.chars + 1;
      if k == |word| then Tick(Cursor(c.role, k, true), word[..k], 2000)
      else Tick(Cursor(c.role, k, false), word[..k], 100)
  }

  /** The state after `n` steps. */
  function Run(c: Cursor, n: nat): (r: Cursor)
    requires WellFormed(c)
    ensures WellFormed(r)
    decreases n
  {
    if n == 0 then c else Run(Step(c).next, n - 1)
  }

  /** The sum of the delays of the first `n` steps, in milliseconds. */
  function Elapsed(c: Cursor, n: nat): int
    requires WellFormed(c)
    decreases n
  {
    if n == 0 then 0 else Step(c).delay + Elapsed(Step(c).next, n - 1)
  }

  /** Running `a + b` steps is running `a` steps and then `b` more. */
  lemma {:induction false} RunAdd(c: Cursor, a: nat, b: nat)
    requires WellFormed(c)
    ensures Run(c, a + b) == Run(Run(c, a), b)
    ensures Elapsed(c, a + b) == Elapsed(c, a) + Elapsed(Run(c, a), b)
    decreases a
  {
    if a > 0 {
      RunAdd(Step(c).next, a - 1, b);
    }
  }

  /** Typing a role from `j` characters for `k` steps: `j + k` characters are shown, the
      cursor turns to deleting exactly when the word is complete, the role stays, and every
      step costs 100 ms except the completing one, which costs 2000. */
  lemma {:induction false} TypingPhase(r: nat, j: nat, k: nat)
    requires r < |Roles| && j < |Roles[r]| && j + k <= |Roles[r]|
    ensures Run(Cursor(r, j, false), k) == Cursor(r, j + k, j + k == |Roles[r]|)
    ensures Elapsed(Cursor(r, j, false), k) == 100 * k + (if j + k == |Roles[r]| then 1900 else 0)
    decreases k
  {
    if k > 0 {
      var c := Cursor(r, j, false);
      assert Step(c).next == Cursor(r, j + 1, j + 1 == |Roles[r]|);
      if j + 1 < |Roles[r]| {
        TypingPhase(r, j + 1, k - 1);
      } else {
        assert k == 1;
      }
    }
  }

  /** Deleting a role from `j` characters for `k <= j` steps: `j - k` characters are left,
      each step costs 50 ms, and the step that empties the word costs 500 and moves on to
      the start of the next role. */
  lemma {:induction false} DeletingPhase(r: nat, j: nat, k: nat)
    requires r < |Roles| && 0 < j <= |Roles[r]| && k <= j
    ensures Run(Cursor(r, j, true), k) == if k == j then Cursor((r + 1) % |Roles|, 0, false) else Cursor(r, j - k, true)
    ensures Elapsed(Cursor(r, j, true), k) == 50 * k + (if k == j then 450 else 0)
    decreases k
  {
    if k > 0 {
      var c := Cursor(r, j, true);
      if j > 1 {
        assert Step(c).next == Cursor(r, j - 1, true);
        DeletingPhase(r, j - 1, k - 1);
      } else {
        assert Step(c).next == Cursor((r + 1) % |Roles|, 0, false);
      }
    }
  }

  /** From the start of role `r`, exactly `2 * |Roles[r]|` steps lead to the start of the
      next role: every earlier state is still on role `r`. The cycle takes
      `150 * |Roles[r]| + 2350` ms. */
  lemma Cycle(r: nat)
    requires r < |Roles|
    ensures Run(Cursor(r, 0, false), 2 * |Roles[r]|) == Cursor((r + 1) % |Roles|, 0, false)
    ensures Elapsed(Cursor(r, 0, false), 2 * |Roles[r]|) == 150 * |Roles[r]| + 2350
    ensures forall n: nat :: 0 < n < 2 * |Roles[r]| ==> Run(Cursor(r, 0, false), n).role == r
  {
    var w := |Roles[r]|;
    var start := Cursor(r, 0, false);
    TypingPhase(r, 0, w);
    DeletingPhase(r, w, w);
    RunAdd(start, w, w);
    forall n: nat | 0 < n < 2 * w ensures Run(start, n).role == r {
      if n <= w {
        TypingPhase(r, 0, n);
      } else {
        RunAdd(start, w, n - w);
        DeletingPhase(r, w, n - w);
      }
    }
  }

  /** Steps taken by `m` consecutive cycles starting with role `r`. */
  function Span(r: nat, m: nat): nat
    requires r < |Roles|
    decreases m
  {
    if m == 0 then 0 else 2 * |Roles[r]| + Span((r + 1) % |Roles|, m - 1)
  }

  /** Milliseconds taken by `m` consecutive cycles starting with role `r`. */
  function Pause(r: nat, m: nat): int
    requires r < |Roles|
    decreases m
  {
    if m == 0 then 0 else 150 * |Roles[r]| + 2350 + Pause((r + 1) % |Roles|, m - 1)
  }

  /** A cycle of role `r` followed by `k` more steps: the steps after the cycle start
      from the beginning of the next role. */
  lemma AfterCycle(r: nat, k: nat)
    requires r < |Roles|
    ensures Run(Cursor(r, 0, false), 2 * |Roles[r]| + k) == Run(Cursor((r + 1) % |Roles|, 0, false), k)
    ensures Elapsed(Cursor(r, 0, false), 2 * |Roles[r]| + k) ==
      150 * |Roles[r]| + 2350 + Elapsed(Cursor((r + 1) % |Roles|, 0, false), k)
  {
    Cycle(r);
    RunAdd(Cursor(r, 0, false), 2 * |Roles[r]|, k);
  }

  /** `m` consecutive cycles from the start of role `r` end at the start of role
      `(r + m) % 4`. */
  lemma {:induction false} CyclesEnd(r: nat, m: nat)
    requires r < |Roles|
    ensures Run(Cursor(r, 0, false), Span(r, m)) == Cursor((r + m) % |Roles|, 0, false)
    decreases m
  {
    if m > 0 {
      var next := (r + 1) % |Roles|;
      var k := Span(next, m - 1);
      assert Span(r, m) == 2 * |Roles[r]| + k;
      CyclesEnd(next, m - 1);
      AfterCycle(r, k);
      assert Run(Cursor(r, 0, false), Span(r, m)) == Run(Cursor(next, 0, false), k);
      NextRole(r, m);
      assert (next + (m - 1)) % |Roles| == (r + m) % |Roles|;
    } else {
      assert Span(r, m) == 0;
      assert (r + m) % |Roles| == r;
    }
  }

  /** Moving on one role and then `m - 1` more is moving on `m` roles. */
  lemma NextRole(r: nat, m: nat)
    requires r < |Roles| && m > 0
    ensures ((r + 1) % |Roles| + (m - 1)) % |Roles| == (r + m) % |Roles|
  {
    if r + 1 == |Roles| {
      assert (r + 1) % |Roles| == 0;
      assert r + m == (m - 1) + |Roles|;
    } else {
      assert (r + 1) % |Roles| == r + 1;
    }
  }

  /** `m` consecutive cycles from the start of role `r` take the sum of their delays. */
  lemma {:induction false} CyclesTime(r: nat, m: nat)
    requires r < |Roles|
    ensures Elapsed(Cursor(r, 0, false), Span(r, m)) == Pause(r, m)
    decreases m
  {
    if m > 0 {
      var next := (r + 1) % |Roles|;
      var k := Span(next, m - 1);
      assert Span(r, m) == 2 * |Roles[r]| + k;
      CyclesTime(next, m - 1);
      AfterCycle(r, k);
    }
  }

  /** After all four roles have been typed and deleted (136 steps) the animation is back
      where it started. */
  lemma FullRotation(r: nat)
    requires r < |Roles|
    ensures Span(r, 4) == 136
    ensures Run(Cursor(r, 0, false), Span(r, 4)) == Cursor(r, 0, false)
  {
    CyclesEnd(r, 4);
    FourCycles(r);
    WrapAround(r);
  }

  /** Moving on four roles comes back to the same role. */
  lemma WrapAround(r: nat)
    requires r < |Roles|
    ensures (r + 4) % |Roles| == r
  {
  }

  /** The 136 steps of a full rotation take 19.6 seconds of delays. */
  lemma FullRotationTime(r: nat)
    requires r < |Roles|
    ensures Elapsed(Cursor(r, 0, false), 136) == 19600
  {
    CyclesTime(r, 4);
    FourCycles(r);
  }

  /** Four cycles, from whichever role, cover every role once. */
  lemma FourCycles(r: nat)
    requires r < |Roles|
    ensures Span(r, 4) == 136 && Pause(r, 4) == 19600
  {
    assert |Roles[0]| == 22 && |Roles[1]| == 13 && |Roles[2]| == 14 && |Roles[3]| == 19;
    if r == 0 {
      assert Span(0, 4) == 136 && Pause(0, 4) == 19600;
    } else if r == 1 {
      assert Span(1, 4) == 136 && Pause(1, 4) == 19600;
    } else if r == 2 {
      assert Span(2, 4) == 136 && Pause(2, 4) == 19600;
    } else {
      assert Span(3, 4) == 136 && Pause(3, 4) == 19600;
    }
  }

  /** The animation as the page holds it: the module-level variables of the script, and
      the text content of the hero title. */
  class Typewriter {
    var roleIndex: nat
    var charIndex: nat
    var isDeleting: bool
    var typingSpeed: int
    var title: string

    ghost predicate Valid()
      reads this
    {
      WellFormed(State())
    }

    function State(): Cursor
      reads this
    {
      Cursor(roleIndex, charIndex, isDeleting)
    }

    /** The initial values of the script; `title` is the hero title as the markup has it. */
    constructor (title: string)
      ensures Valid() && State() == Cursor(0, 0, false)
      ensures typingSpeed == 100 && this.title == title
    {
      roleIndex, charIndex, isDeleting, typingSpeed := 0, 0, false, 100;
      this.title := title;
    }

    /** `typeRole`: one step of the animation, in place. */
    method TypeRole()
      requires Valid()
      modifies this
      ensures Valid()
      ensures State() == Step(old(State())).next
      ensures title == Step(old(State())).text
      ensures typingSpeed == Step(old(State())).delay
    {
      var currentRole := Roles[roleIndex];
      if isDeleting {
        title := currentRole[..charIndex - 1];
        charIndex := charIndex - 1;
        typingSpeed := 50;
      } else {
        title := currentRole[..charIndex + 1];
        charIndex := charIndex + 1;
        typingSpeed := 100;
      }
      if !isDeleting && charIndex == |currentRole| {
        isDeleting := true;
        typingSpeed := 2000;
      } else if isDeleting && charIndex == 0 {
        isDeleting := false;
        roleIndex := (roleIndex + 1) % |Roles|;
        typingSpeed := 500;
      }
    }
  }
}
