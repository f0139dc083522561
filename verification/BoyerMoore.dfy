/**
 Boyer-Moore byte search (lib/libvmi/libvmi/strmatch.c): the suffix table, the strong
 good-suffix table, the bad-character table, and the two searches that jump by them.

 The pattern `x` and the text `y` are only read, so they are sequences; the three tables
 are filled in place, so they are arrays.
 */
module BoyerMoore {
  import opened Common

  const ASIZE := 256

  // ---------------------------------------------------------------- specification

  /** The pattern `x` occurs in `y` at index `j`. */
  ghost predicate OccursAt(x: seq<Byte>, y: seq<Byte>, j: int) {
    && 0 <= j <= |y| - |x|
    && forall k :: 0 <= k < |x| ==> x[k] == y[j + k]
  }

  /** `r` is the least index at which `x` occurs in `y`, or -1 when there is none. */
  ghost predicate IsFirstOccurrence(x: seq<Byte>, y: seq<Byte>, r: int) {
    if r == -1 then
      forall j :: !OccursAt(x, y, j)
    else
      OccursAt(x, y, r) && forall j :: 0 <= j < r ==> !OccursAt(x, y, j)
  }

  /** `s` is the length of the longest common suffix of `x[..i+1]` and `x`. */
  ghost predicate IsSuffixLength(x: seq<Byte>, i: int, s: int)
    requires 0 <= i < |x|
  {
    && 0 <= s <= i + 1
    && (forall k :: i - s < k <= i ==> x[k] == x[k + (|x| - 1 - i)])
    && (s <= i ==> x[i - s] != x[|x| - 1 - s])
  }

  /** Shifting the pattern right by `d` is compatible with a mismatch at `j` after a match of
      everything right of `j`: what slides under the matched part agrees with it, and what
      slides under the mismatch differs from the character that failed. */
  ghost predicate GoodShift(x: seq<Byte>, j: int, d: int)
    requires 0 <= j < |x|
  {
    && 1 <= d
    && (forall k :: j < k < |x| && d <= k ==> x[k - d] == x[k])
    && (d <= j ==> x[j - d] != x[j])
  }

  /** `d` is the least good shift for a mismatch at `j`. */
  ghost predicate IsLeastGoodShift(x: seq<Byte>, j: int, d: int)
    requires 0 <= j < |x|
  {
    GoodShift(x, j, d) && d <= |x| && forall e :: 1 <= e < d ==> !GoodShift(x, j, e)
  }

  /** `v` is the distance from the last position of `x` to the rightmost earlier `c`, or
      |x| when `c` does not occur before the last position. */
  ghost predicate IsBadCharShift(x: seq<Byte>, c: Byte, v: int)
    requires |x| >= 1
  {
    && 1 <= v <= |x|
    && (v < |x| ==> x[|x| - 1 - v] == c)
    && forall k :: 0 <= k && |x| - 1 - v < k < |x| - 1 ==> x[k] != c
  }

  /** Two results that both meet the search specification are equal. */
  lemma FirstOccurrenceUnique(x: seq<Byte>, y: seq<Byte>, r: int, s: int)
    requires -1 <= r && -1 <= s
    requires IsFirstOccurrence(x, y, r) && IsFirstOccurrence(x, y, s)
    ensures r == s
  {
  }

  // ---------------------------------------------------------------- suffix table

  /** The stretch of `x` after `g` up to `f` equals the end of `x`. */
  ghost predicate Window(x: seq<Byte>, f: int, g: int)
    requires -1 <= g && f < |x|
  {
    forall k :: g < k <= f ==> x[k] == x[k + (|x| - 1 - f)]
  }

  /** A position inside the window whose mirror value is short enough inherits it. */
  lemma SuffixCopied(x: seq<Byte>, f: int, g: int, i: int, s: int)
    requires -1 <= g < i < f < |x| && Window(x, f, g)
    requires IsSuffixLength(x, i + |x| - 1 - f, s) && s < i - g
    ensures IsSuffixLength(x, i, s)
  {
    var p := i + |x| - 1 - f;
    forall k | i - s < k <= i ensures x[k] == x[k + (|x| - 1 - i)] {
      assert x[k] == x[k + (|x| - 1 - f)];
      assert x[k + (|x| - 1 - f)] == x[(k + (|x| - 1 - f)) + (|x| - 1 - p)];
    }
    assert x[i - s] == x[(i - s) + (|x| - 1 - f)];
    assert x[p - s] != x[|x| - 1 - s];
  }

  /** Otherwise the characters down to `g` are already known to match and need no comparison. */
  lemma SuffixReused(x: seq<Byte>, f: int, g: int, i: int, s: int)
    requires -1 <= g < i < f < |x| && Window(x, f, g)
    requires IsSuffixLength(x, i + |x| - 1 - f, s) && s >= i - g
    ensures Window(x, i, g)
  {
    var p := i + |x| - 1 - f;
    forall k | g < k <= i ensures x[k] == x[k + (|x| - 1 - i)] {
      assert x[k] == x[k + (|x| - 1 - f)];
      assert x[k + (|x| - 1 - f)] == x[(k + (|x| - 1 - f)) + (|x| - 1 - p)];
    }
  }

  lemma WholeSuffix(x: seq<Byte>)
    requires |x| >= 1
    ensures IsSuffixLength(x, |x| - 1, |x|)
  {
  }

  lemma WindowEmpty(x: seq<Byte>, f: int)
    requires 0 <= f < |x|
    ensures Window(x, f, f)
  {
  }

  lemma WindowGrows(x: seq<Byte>, f: int, g: int)
    requires 0 <= g <= f < |x| && Window(x, f, g) && x[g] == x[g + |x| - 1 - f]
    ensures Window(x, f, g - 1)
  {
  }

  lemma SuffixFound(x: seq<Byte>, f: int, g: int)
    requires -1 <= g <= f < |x| && 0 <= f && Window(x, f, g)
    requires g >= 0 ==> x[g] != x[g + |x| - 1 - f]
    ensures IsSuffixLength(x, f, f - g)
  {
  }

  /** Fills `suff` and counts the character comparisons made (the test `x[g] == ...`): the
      reuse through `f` and `g` keeps them below 2m although the loops are nested. */
  method Suffixes(x: seq<Byte>, suff: array<int>) returns (ghost comparisons: nat)
    requires |x| >= 1 && suff.Length == |x|
    modifies suff
    ensures forall i :: 0 <= i < |x| ==> IsSuffixLength(x, i, suff[i])
    ensures comparisons <= 2 * (|x| - 1)
  {
    hide IsSuffixLength, Window;
    var m := |x|;
    WholeSuffix(x);
    var f, g, i := 0, m - 1, m - 2;
    suff[m - 1] := m;
    comparisons := 0;
    while i >= 0
      invariant -1 <= i <= m - 2
      invariant forall k :: i < k < m ==> IsSuffixLength(x, k, suff[k])
      invariant if i == m - 2 then g == m - 1 else -1 <= g <= f && i < f <= m - 2
      invariant i < m - 2 ==> Window(x, f, g)
      invariant comparisons <= (m - 2 - i) + (if i == m - 2 then 0 else m - 2 - g)
    {
      if i > g && suff[i + m - 1 - f] < i - g {
        SuffixCopied(x, f, g, i, suff[i + m - 1 - f]);
        suff[i] := suff[i + m - 1 - f];
      } else {
        ghost var start := if i > g then g else i;
        assert Window(x, i, start) by {
          if i > g {
            SuffixReused(x, f, g, i, suff[i + m - 1 - f]);
          } else {
            WindowEmpty(x, i);
          }
        }
        if i < g {
          g := i;
        }
        f := i;
        ghost var before := comparisons;
        while g >= 0 && x[g] == x[g + m - 1 - f]
          invariant -1 <= g <= start
          invariant Window(x, f, g)
          invariant comparisons == before + (start - g)
          invariant forall k :: i < k < m ==> IsSuffixLength(x, k, suff[k])
          decreases g
        {
          WindowGrows(x, f, g);
          g := g - 1;
          comparisons := comparisons + 1;
        }
        if g >= 0 {
          comparisons := comparisons + 1; // the comparison that ended the loop
        }
        SuffixFound(x, f, g);
        suff[i] := f - g;
      }
      i := i - 1;
    }
  }

  // ---------------------------------------------------------------- good-suffix table

  /** How the suffix table decides good shifts shorter than the pattern. */
  lemma GoodShiftViaSuffix(x: seq<Byte>, j: int, d: int, s: int)
    requires 0 <= j < |x| && 1 <= d < |x|
    requires IsSuffixLength(x, |x| - 1 - d, s)
    ensures GoodShift(x, j, d) <==> if d <= j then s == |x| - 1 - j else s == |x| - d
  {
    var m := |x|;
    var i := m - 1 - d;
    assert forall k :: i - s < k <= i ==> x[k] == x[k + d];
    if d <= j && s > m - 1 - j {
      assert x[j - d] == x[(j - d) + d]; // the mismatch would be repeated
    } else if s < m - 1 - j && s <= i {
      assert x[(m - 1 - s) - d] != x[m - 1 - s]; // the matched part would disagree
    } else {
      forall k | j < k < m && d <= k ensures x[k - d] == x[k] {
        assert x[k - d] == x[(k - d) + d];
      }
    }
  }

  /** `d` is the least shift above `j` at which the pattern agrees with itself. */
  ghost predicate IsLeastBorder(suff: seq<int>, j: int, d: int)
    requires 0 <= j
  {
    && j < d <= |suff|
    && (d < |suff| ==> suff[|suff| - 1 - d] == |suff| - d)
    && forall k :: |suff| - 1 - d < k < |suff| - 1 - j ==> suff[k] != k + 1
  }

  /** What the last loop of preBmGs has stored at `j` once it has handled all indices below
      `n`: the latest of them whose suffix length points at `j`, else the border shift. */
  ghost predicate GsEntry(suff: seq<int>, j: int, n: int, d: int)
    requires 0 <= j && n <= |suff| - 1
  {
    var p := |suff| - 1 - j;
    if exists k :: 0 <= k < n && suff[k] == p then
      && 0 <= |suff| - 1 - d < n && suff[|suff| - 1 - d] == p
      && forall k :: |suff| - 1 - d < k < n ==> suff[k] != p
    else
      IsLeastBorder(suff, j, d)
  }

  lemma GsEntryStep(suff: seq<int>, j: int, n: int, d: int, d': int)
    requires 0 <= j && 0 <= n < |suff| - 1
    requires GsEntry(suff, j, n, d)
    requires d' == if suff[n] == |suff| - 1 - j then |suff| - 1 - n else d
    ensures GsEntry(suff, j, n + 1, d')
  {
    if suff[n] != |suff| - 1 - j && exists k :: 0 <= k < n && suff[k] == |suff| - 1 - j {
      var k :| 0 <= k < n && suff[k] == |suff| - 1 - j;
      assert 0 <= k < n + 1;
    }
  }

  lemma GsEntryIsLeast(x: seq<Byte>, suff: seq<int>, j: int, d: int)
    requires |suff| == |x| && 0 <= j < |x|
    requires forall i :: 0 <= i < |x| ==> IsSuffixLength(x, i, suff[i])
    requires GsEntry(suff, j, |x| - 1, d)
    ensures IsLeastGoodShift(x, j, d)
  {
    var m := |x|;
    forall e | 1 <= e < m
      ensures GoodShift(x, j, e) <==>
              if e <= j then suff[m - 1 - e] == m - 1 - j else suff[m - 1 - e] == m - e
    {
      GoodShiftViaSuffix(x, j, e, suff[m - 1 - e]);
    }
    if d < m {
      var s := suff[m - 1 - d];
      assert IsSuffixLength(x, m - 1 - d, s);
      assert GoodShift(x, j, d);
    } else {
      assert GoodShift(x, j, d);
    }
    forall e | 1 <= e < d ensures !GoodShift(x, j, e) {
      var k := m - 1 - e;
      assert m - 1 - d < k < m - 1;
      assert IsSuffixLength(x, k, suff[k]);
    }
  }

  /** The first two loops of preBmGs: every entry becomes the least border shift beyond it. */
  method BorderShifts(suff: array<int>, bmGs: array<int>)
    requires suff != bmGs && bmGs.Length == suff.Length >= 1
    modifies bmGs
    ensures forall k :: 0 <= k < suff.Length ==> IsLeastBorder(suff[..], k, bmGs[k])
  {
    var m := suff.Length;
    var i := 0;
    while i < m
      invariant 0 <= i <= m
      invariant forall k :: 0 <= k < i ==> bmGs[k] == m
    {
      bmGs[i] := m;
      i := i + 1;
    }
    var j := 0;
    i := m - 1;
    while i >= 0
      invariant -1 <= i <= m - 1 && 0 <= j <= m - 1 && j <= m - 1 - i
      invariant forall k :: j <= k < m ==> bmGs[k] == m
      invariant forall k :: 0 <= k < j ==> IsLeastBorder(suff[..], k, bmGs[k])
      invariant forall k :: i < k < m - 1 - j ==> suff[k] != k + 1
    {
      if suff[i] == i + 1 {
        while j < m - 1 - i
          invariant 0 <= j <= m - 1 - i
          invariant forall k :: j <= k < m ==> bmGs[k] == m
          invariant forall k :: 0 <= k < j ==> IsLeastBorder(suff[..], k, bmGs[k])
          invariant forall k :: i < k < m - 1 - j ==> suff[k] != k + 1
        {
          if bmGs[j] == m {
            bmGs[j] := m - 1 - i;
          }
          j := j + 1;
        }
      }
      i := i - 1;
    }
  }

  method PreBmGs(x: seq<Byte>, bmGs: array<int>)
    requires |x| >= 1 && bmGs.Length == |x|
    modifies bmGs
    ensures forall j :: 0 <= j < |x| ==> IsLeastGoodShift(x, j, bmGs[j])
  {
    var m := |x|;
    var suff := new int[m];
    ghost var _ := Suffixes(x, suff);
    BorderShifts(suff, bmGs);
    var i := 0;
    while i <= m - 2
      invariant 0 <= i <= m - 1
      invariant forall k :: 0 <= k < m ==> IsSuffixLength(x, k, suff[k])
      invariant forall k :: 0 <= k < m ==> GsEntry(suff[..], k, i, bmGs[k])
    {
      ghost var before := bmGs[..];
      bmGs[m - 1 - suff[i]] := m - 1 - i;
      forall k | 0 <= k < m ensures GsEntry(suff[..], k, i + 1, bmGs[k]) {
        GsEntryStep(suff[..], k, i, before[k], bmGs[k]);
      }
      i := i + 1;
    }
    forall k | 0 <= k < m ensures IsLeastGoodShift(x, k, bmGs[k]) {
      GsEntryIsLeast(x, suff[..], k, bmGs[k]);
    }
  }

  // ---------------------------------------------------------------- bad-character table

  method PreBmBc(x: seq<Byte>, bmBc: array<int>)
    requires |x| >= 1 && bmBc.Length == ASIZE
    modifies bmBc
    ensures forall c: Byte :: IsBadCharShift(x, c, bmBc[c])
  {
    var m := |x|;
    var i := 0;
    while i < ASIZE
      invariant 0 <= i <= ASIZE
      invariant forall c :: 0 <= c < i ==> bmBc[c] == m
    {
      bmBc[i] := m;
      i := i + 1;
    }
    i := 0;
    while i < m - 1
      invariant 0 <= i <= m - 1
      invariant forall c: Byte :: m - i <= bmBc[c] <= m
      invariant forall c: Byte :: bmBc[c] < m ==> x[m - 1 - bmBc[c]] == c
      invariant forall c: Byte, k :: m - 1 - bmBc[c] < k < i && 0 <= k ==> x[k] != c
    {
      bmBc[x[i]] := m - i - 1;
      i := i + 1;
    }
  }

  // ---------------------------------------------------------------- search

  /** The tables hold what the search relies on. */
  ghost predicate TablesFor(x: seq<Byte>, bmGs: seq<int>, bmBc: seq<int>) {
    && |x| >= 1 && |bmGs| == |x| && |bmBc| == ASIZE
    && (forall j :: 0 <= j < |x| ==> IsLeastGoodShift(x, j, bmGs[j]))
    && (forall c: Byte :: IsBadCharShift(x, c, bmBc[c]))
  }

  function Max(a: int, b: int): int {
    if a > b then a else b
  }

  /** The jump taken after a mismatch of pattern index `i` at text index `i + j`. */
  function Shift(x: seq<Byte>, y: seq<Byte>, bmGs: seq<int>, bmBc: seq<int>, i: int, j: int): int
    requires 0 <= i < |x| && |bmGs| == |x| && |bmBc| == ASIZE && 0 <= i + j < |y|
  {
    Max(bmGs[i], bmBc[y[i + j]] - |x| + 1 + i)
  }

  /** Every jump makes progress, never leaves the pattern's length, and passes over no match. */
  lemma ShiftSkipsNoMatch(x: seq<Byte>, y: seq<Byte>, bmGs: seq<int>, bmBc: seq<int>, i: int, j: int)
    requires TablesFor(x, bmGs, bmBc)
    requires 0 <= j <= |y| - |x| && 0 <= i < |x|
    requires x[i] != y[i + j]
    requires forall k :: i < k < |x| ==> x[k] == y[k + j]
    ensures 1 <= Shift(x, y, bmGs, bmBc, i, j) <= |x|
    ensures forall p :: j <= p < j + Shift(x, y, bmGs, bmBc, i, j) ==> !OccursAt(x, y, p)
  {
    var c := y[i + j];
    assert IsLeastGoodShift(x, i, bmGs[i]) && IsBadCharShift(x, c, bmBc[c]);
    forall p | j <= p < j + Shift(x, y, bmGs, bmBc, i, j) ensures !OccursAt(x, y, p) {
      var d := p - j;
      if d == 0 {
        assert x[i] != y[p + i];
      } else if d < bmGs[i] {
        assert !GoodShift(x, i, d);
        if d <= i && x[i - d] == x[i] {
          assert x[i - d] != y[p + (i - d)];
        } else {
          var k :| i < k < |x| && d <= k && x[k - d] != x[k];
          assert x[k - d] != y[p + (k - d)];
        }
      } else {
        assert x[i - d] != y[p + (i - d)];
      }
    }
  }

  /** boyer_moore: first occurrence of `x` in `y`, or -1. `j` stays at most |y|, so no index
      leaves the range of a C int that can hold |y|. */
  method Search(x: seq<Byte>, y: seq<Byte>) returns (r: int)
    requires |x| >= 1
    ensures r >= -1 && IsFirstOccurrence(x, y, r)
  {
    var m, n := |x|, |y|;
    var bmBc := new int[ASIZE];
    var bmGs := new int[m];
    PreBmGs(x, bmGs);
    PreBmBc(x, bmBc);
    assert TablesFor(x, bmGs[..], bmBc[..]);
    var j := 0;
    while j <= n - m
      invariant 0 <= j <= n
      invariant TablesFor(x, bmGs[..], bmBc[..])
      invariant forall p :: 0 <= p < j ==> !OccursAt(x, y, p)
      decreases n - j
    {
      var i := m - 1;
      while i >= 0 && x[i] == y[i + j]
        invariant -1 <= i <= m - 1
        invariant forall k :: i < k < m ==> x[k] == y[k + j]
      {
        i := i - 1;
      }
      if i < 0 {
        return j;
      }
      ShiftSkipsNoMatch(x, y, bmGs[..], bmBc[..], i, j);
      j := j + Max(bmGs[i], bmBc[y[i + j]] - m + 1 + i);
    }
    return -1;
  }

  /** boyer_moore_data: the pattern's own copy and its two tables, built once. */
  class Searcher {
    var x: seq<Byte>
    var bmBc: array<int>
    var bmGs: array<int>

    ghost predicate Valid()
      reads this, bmBc, bmGs
    {
      TablesFor(x, bmGs[..], bmBc[..])
    }

    /** boyer_moore_init */
    constructor (pattern: seq<Byte>)
      requires |pattern| >= 1
      ensures Valid() && x == pattern && fresh(bmBc) && fresh(bmGs)
    {
      var gs := new int[|pattern|];
      var bc := new int[ASIZE];
      PreBmGs(pattern, gs);
      PreBmBc(pattern, bc);
      x, bmGs, bmBc := pattern, gs, bc;
      new;
      assert TablesFor(x, bmGs[..], bmBc[..]);
    }

    /** boyer_moore2: the same loop over the prepared tables. */
    method Search2(y: seq<Byte>) returns (r: int)
      requires Valid()
      ensures r >= -1 && IsFirstOccurrence(x, y, r)
    {
      var m, n := |x|, |y|;
      var j := 0;
      while j <= n - m
        invariant 0 <= j <= n
        invariant forall p :: 0 <= p < j ==> !OccursAt(x, y, p)
        decreases n - j
      {
        var i := m - 1;
        while i >= 0 && x[i] == y[i + j]
          invariant -1 <= i <= m - 1
          invariant forall k :: i < k < m ==> x[k] == y[k + j]
        {
          i := i - 1;
        }
        if i < 0 {
          return j;
        }
        ShiftSkipsNoMatch(x, y, bmGs[..], bmBc[..], i, j);
        j := j + Max(bmGs[i], bmBc[y[i + j]] - m + 1 + i);
      }
      return -1;
    }
  }

  /** Preparing the tables once and searching with them gives what a one-shot search gives. */
  method PreparedSearchAgrees(x: seq<Byte>, y: seq<Byte>) returns (once: int, prepared: int)
    requires |x| >= 1
    ensures once == prepared && IsFirstOccurrence(x, y, once)
  {
    once := Search(x, y);
    var s := new Searcher(x);
    prepared := s.Search2(y);
    FirstOccurrenceUnique(x, y, once, prepared);
  }
}
