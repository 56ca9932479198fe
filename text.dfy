/** The JavaScript string operations the page script relies on, on `seq<char>`:
    `indexOf`, `replace` with a string pattern and a replacement without `$`, `split` on
    a one-character separator, and `trim`. */
module Text {

  /** `pat` occurs in `s` starting at index `k`. */
  predicate OccursAt(s: string, pat: string, k: nat)
  {
    k + |pat| <= |s| && s[k..k + |pat|] == pat
  }

  ghost predicate Contains(s: string, pat: string)
  {
    exists k: nat :: OccursAt(s, pat, k)
  }

  /** `s.indexOf(pat)`: the first index where `pat` occurs, or -1. */
  function IndexOf(s: string, pat: string): (r: int)
    ensures r == -1 <==> !Contains(s, pat)
    ensures r >= 0 ==> OccursAt(s, pat, r)
    ensures r >= 0 ==> forall j: nat :: j < r ==> !OccursAt(s, pat, j)
    decreases |s|
  {
    if |pat| <= |s| && s[..|pat|] == pat then
      assert OccursAt(s, pat, 0);
      0
    else if s == [] then
      -1
    else
      var i := IndexOf(s[1..], pat);
      OccursShift(s, pat);
      if i < 0 then -1 else i + 1
  }

  /** An occurrence at `k + 1` in `s` is an occurrence at `k` in the tail of `s`. */
  lemma OccursShift(s: string, pat: string)
    requires s != []
    ensures forall k: nat :: 0 < k ==> (OccursAt(s, pat, k) <==> OccursAt(s[1..], pat, k - 1))
    ensures forall k: nat :: OccursAt(s[1..], pat, k) ==> OccursAt(s, pat, k + 1)
  {
    forall k: nat | k + |pat| <= |s| - 1
      ensures OccursAt(s[1..], pat, k) == OccursAt(s, pat, k + 1)
    {
      assert s[1..][k..k + |pat|] == s[k + 1..k + 1 + |pat|];
    }
  }

  /** `s.replace(pat, rep)` with a string pattern and a replacement without `$` (JavaScript
      expands `$&`, `$$`, `` $` `` and `$'` in the replacement; no caption swap uses them):
      only the first occurrence of `pat` is replaced, and `s` is returned unchanged when
      `pat` does not occur. ReplaceFirstSpec states where the replacement goes. */
  function ReplaceFirst(s: string, pat: string, rep: string): (r: string)
    ensures IndexOf(s, pat) < 0 ==> r == s
    ensures IndexOf(s, pat) >= 0 ==> |r| == |s| - |pat| + |rep|
    decreases |s|
  {
    if |pat| <= |s| && s[..|pat|] == pat then rep + s[|pat|..]
    else if s == [] then []
    else
      assert [s[0]] + s[1..] == s;
      [s[0]] + ReplaceFirst(s[1..], pat, rep)
  }

  /** The text of `s` with its `n` characters from index `i` on replaced by `mid`. */
  function Splice(s: string, i: nat, n: nat, mid: string): (t: string)
    requires i + n <= |s|
    ensures |t| == |s| - n + |mid|
    ensures t[..i] == s[..i] && t[i..i + |mid|] == mid && t[i + |mid|..] == s[i + n..]
  {
    s[..i] + mid + s[i + n..]
  }

  /** Splicing back what was there gives the string itself. */
  lemma SpliceSame(s: string, i: nat, n: nat)
    requires i + n <= |s|
    ensures Splice(s, i, n, s[i..i + n]) == s
  {
    assert s[..i] + s[i..i + n] + s[i + n..] == s;
  }

  /** Putting a character in front of a splice of the tail is a splice one further on. */
  lemma SpliceCons(s: string, i: nat, n: nat, mid: string)
    requires s != [] && i + n <= |s| - 1
    ensures [s[0]] + Splice(s[1..], i, n, mid) == Splice(s, i + 1, n, mid)
  {
    var u := s[1..];
    assert u[..i] == s[1..i + 1];
    assert u[i + n..] == s[i + 1 + n..];
    assert [s[0]] + s[1..i + 1] == s[..i + 1];
    calc {
      [s[0]] + Splice(u, i, n, mid);
      [s[0]] + (u[..i] + mid + u[i + n..]);
      ([s[0]] + u[..i]) + mid + u[i + n..];
    }
  }

  /** ReplaceFirst agrees with the reference definition through IndexOf: the text before
      the first occurrence, then `rep`, then the text after it. */
  lemma {:induction false} ReplaceFirstSpec(s: string, pat: string, rep: string)
    ensures var i := IndexOf(s, pat);
      ReplaceFirst(s, pat, rep) == if i < 0 then s else Splice(s, i, |pat|, rep)
    decreases |s|
  {
    if |pat| <= |s| && s[..|pat|] == pat {
      assert Splice(s, 0, |pat|, rep) == rep + s[|pat|..];
    } else if s == [] {
    } else {
      ReplaceFirstSpec(s[1..], pat, rep);
      var i := IndexOf(s[1..], pat);
      if i >= 0 {
        SpliceCons(s, i, |pat|, rep);
      } else {
        assert [s[0]] + s[1..] == s;
      }
    }
  }

  /** The caption swap of an expand button is undone by the opposite swap: a caption that
      holds "More" and no "Less" is restored exactly by More->Less followed by Less->More. */
  lemma LabelRoundTrip(caption: string)
    requires Contains(caption, "More") && !Contains(caption, "Less")
    ensures ReplaceFirst(ReplaceFirst(caption, "More", "Less"), "Less", "More") == caption
  {
    var i := IndexOf(caption, "More");
    ReplaceFirstSpec(caption, "More", "Less");
    var t := Splice(caption, i, 4, "Less");
    FirstLessAt(caption, i);
    ReplaceFirstSpec(t, "Less", "More");
    assert caption[i..i + 4] == "More";
    SpliceBack(caption, i, "Less", "More");
  }

  /** Splicing a same-length text over a splice restores the original text there. */
  lemma SpliceBack(s: string, i: nat, a: string, b: string)
    requires i + |a| <= |s| && |a| == |b| && s[i..i + |a|] == b
    ensures Splice(Splice(s, i, |a|, a), i, |a|, b) == s
  {
    var t := Splice(s, i, |a|, a);
    assert Splice(t, i, |a|, b) == s[..i] + b + s[i + |a|..];
    SpliceSame(s, i, |a|);
  }

  /** Writing "Less" at index `i` of a string that holds no "Less" makes `i` the first
      occurrence of "Less": no earlier window can reach it, since 'L' opens "Less" only. */
  lemma FirstLessAt(caption: string, i: nat)
    requires i + 4 <= |caption| && !Contains(caption, "Less")
    ensures IndexOf(Splice(caption, i, 4, "Less"), "Less") == i
  {
    var t := Splice(caption, i, 4, "Less");
    assert OccursAt(t, "Less", i);
    forall j: nat | j < i ensures !OccursAt(t, "Less", j) {
      if j + 4 <= i {
        assert t[j..j + 4] == t[..i][j..j + 4] == caption[..i][j..j + 4] == caption[j..j + 4];
        assert !OccursAt(caption, "Less", j);
      } else {
        assert t[i] == t[i..i + 4][0] == 'L';
        NoLaterL(t, j, i);
      }
    }
  }

  /** A window of `t` starting before index `i`, and covering it, cannot read "Less" when
      `t[i]` is 'L'. */
  lemma NoLaterL(t: string, j: nat, i: nat)
    requires j < i < j + 4 && i < |t| && t[i] == 'L'
    ensures !OccursAt(t, "Less", j)
  {
  }

  // ---------------------------------------------------------------- split

  /** Number of occurrences of `c` in `s`. */
  function Count(s: string, c: char): nat
  {
    if s == [] then 0 else (if s[0] == c then 1 else 0) + Count(s[1..], c)
  }

  /** `fields.join(sep)`. */
  function Join(fields: seq<string>, sep: char): string
  {
    if |fields| == 0 then []
    else if |fields| == 1 then fields[0]
    else fields[0] + [sep] + Join(fields[1..], sep)
  }

  /** Joining a field in front of at least one more puts a separator after it. */
  lemma JoinCons(a: string, rest: seq<string>, sep: char)
    requires |rest| >= 1
    ensures Join([a] + rest, sep) == a + [sep] + Join(rest, sep)
  {
    assert ([a] + rest)[1..] == rest;
  }

  /** Putting a character in front of the first field puts it in front of the join. */
  lemma JoinPrepend(c: char, fields: seq<string>, sep: char)
    requires |fields| >= 1
    ensures Join([[c] + fields[0]] + fields[1..], sep) == [c] + Join(fields, sep)
  {
    if |fields| > 1 {
      JoinCons([c] + fields[0], fields[1..], sep);
      JoinCons(fields[0], fields[1..], sep);
      assert [fields[0]] + fields[1..] == fields;
    }
  }

  /** `s.split(sep)` for a one-character separator: always at least one field, one more
      than the separators, no field holds the separator, and joining gives `s` back. */
  function Split(s: string, sep: char): (r: seq<string>)
    ensures |r| == Count(s, sep) + 1
    ensures forall k :: 0 <= k < |r| ==> sep !in r[k]
    ensures Join(r, sep) == s
    decreases |s|
  {
    if s == [] then [[]]
    else
      var rest := Split(s[1..], sep);
      assert s == [s[0]] + s[1..];
      if s[0] == sep then
        JoinCons([], rest, sep);
        [[]] + rest
      else
        JoinPrepend(s[0], rest, sep);
        var r := [[s[0]] + rest[0]] + rest[1..];
        assert forall k :: 1 <= k < |r| ==> r[k] == rest[k];
        r
  }

  /** Splitting the join of fields that hold no separator gives the fields back. */
  lemma {:induction false} SplitJoin(fields: seq<string>, sep: char)
    requires |fields| >= 1
    requires forall k :: 0 <= k < |fields| ==> sep !in fields[k]
    ensures Split(Join(fields, sep), sep) == fields
    decreases |Join(fields, sep)|
  {
    var f := fields[0];
    if |fields| == 1 {
      SplitOfField(f, sep);
    } else if f == [] {
      var tail := fields[1..];
      SplitJoin(tail, sep);
      JoinCons(f, tail, sep);
      assert fields == [[]] + tail;
    } else {
      var shorter := [f[1..]] + fields[1..];
      assert forall k :: 1 <= k < |shorter| ==> shorter[k] == fields[k];
      assert sep !in f[1..] by {
        assert forall x :: x in f[1..] ==> x in f;
      }
      SplitJoin(shorter, sep);
      JoinPrepend(f[0], shorter, sep);
      assert [[f[0]] + f[1..]] + fields[1..] == fields by {
        assert [f[0]] + f[1..] == f;
      }
      var s := Join(fields, sep);
      assert s[1..] == Join(shorter, sep);
    }
  }

  /** A string without the separator splits into itself alone. */
  lemma {:induction false} SplitOfField(f: string, sep: char)
    requires sep !in f
    ensures Split(f, sep) == [f]
    decreases |f|
  {
    if f != [] {
      assert forall x :: x in f[1..] ==> x in f;
      SplitOfField(f[1..], sep);
      assert [f[0]] + f[1..] == f;
    }
  }

  // ---------------------------------------------------------------- trim

  /** The characters `String.prototype.trim` removes: the white-space and line-terminator
      code points of ECMAScript (tab, vertical tab, form feed, space, no-break space, byte
      order mark, the space separators of Unicode, line feed, carriage return, and the
      line and paragraph separators). */
  predicate IsSpace(c: char)
  {
    var n := c as int;
    n == 0x09 || n == 0x0A || n == 0x0B || n == 0x0C || n == 0x0D || n == 0x20 ||
    n == 0xA0 || n == 0x1680 || (0x2000 <= n <= 0x200A) || n == 0x2028 || n == 0x2029 ||
    n == 0x202F || n == 0x205F || n == 0x3000 || n == 0xFEFF
  }

  /** The index of the first character at or after `i` that is not white space, or the
      length of `s` when there is none. */
  function SkipStart(s: string, i: nat): (j: nat)
    requires i <= |s|
    ensures i <= j <= |s|
    ensures forall k :: i <= k < j ==> IsSpace(s[k])
    ensures j == |s| || !IsSpace(s[j])
    decreases |s| - i
  {
    if i < |s| && IsSpace(s[i]) then SkipStart(s, i + 1) else i
  }

  /** The index just after the last character before `j` that is not white space, counting
      no further down than `lo`. */
  function SkipEnd(s: string, lo: nat, j: nat): (e: nat)
    requires lo <= j <= |s|
    ensures lo <= e <= j
    ensures forall k :: e <= k < j ==> IsSpace(s[k])
    ensures e == lo || !IsSpace(s[e - 1])
    decreases j
  {
    if j > lo && IsSpace(s[j - 1]) then SkipEnd(s, lo, j - 1) else j
  }

  /** `r` is the infix of `s` starting at `i`, and everything around it is white space. */
  ghost predicate TrimmedAt(s: string, r: string, i: int)
  {
    0 <= i <= |s| - |r| && r == s[i..i + |r|] &&
    (forall k :: 0 <= k < i ==> IsSpace(s[k])) &&
    (forall k :: i + |r| <= k < |s| ==> IsSpace(s[k]))
  }

  /** `s.trim()`: the infix of `s` left once the white space at both ends is removed. */
  function Trim(s: string): (r: string)
    ensures r == [] || (!IsSpace(r[0]) && !IsSpace(r[|r| - 1]))
    ensures exists i :: TrimmedAt(s, r, i)
  {
    var i := SkipStart(s, 0);
    var e := SkipEnd(s, i, |s|);
    assert TrimmedAt(s, s[i..e], i);
    s[i..e]
  }

  /** Trimming an already trimmed string changes nothing. */
  lemma TrimIdempotent(s: string)
    ensures Trim(Trim(s)) == Trim(s)
  {
    var r := Trim(s);
    TrimmedIsFixed(r);
  }

  /** A string with no white space at either end is its own trim. */
  lemma TrimmedIsFixed(r: string)
    requires r == [] || (!IsSpace(r[0]) && !IsSpace(r[|r| - 1]))
    ensures Trim(r) == r
  {
    assert r[0..|r|] == r;
  }

  /** `dataSkills.split(',').map(s => s.trim())`: the labels of the skill pills, one more
      than the commas, none holding a comma or white space at either end. */
  function Pills(dataSkills: string): (r: seq<string>)
    ensures |r| == Count(dataSkills, ',') + 1
    ensures forall k :: 0 <= k < |r| ==> ',' !in r[k]
    ensures forall k :: 0 <= k < |r| ==> r[k] == [] || (!IsSpace(r[k][0]) && !IsSpace(r[k][|r[k]| - 1]))
  {
    var fields := Split(dataSkills, ',');
    var r := seq(|fields|, k requires 0 <= k < |fields| => Trim(fields[k]));
    assert forall k :: 0 <= k < |r| ==> ',' !in r[k] by {
      forall k | 0 <= k < |r| ensures ',' !in r[k] {
        var i :| TrimmedAt(fields[k], r[k], i);
        assert forall x :: x in r[k] ==> x in fields[k];
      }
    }
    r
  }

  /** Each pill label is the trimmed field of `data-skills` at the same position. */
  lemma PillsAreTrimmedFields(dataSkills: string)
    ensures |Pills(dataSkills)| == |Split(dataSkills, ',')|
    ensures forall k :: 0 <= k < |Pills(dataSkills)| ==> Pills(dataSkills)[k] == Trim(Split(dataSkills, ',')[k])
  {
  }
}
