/** Subtrees whose leaves lie on two levels, so that their first leaf has a higher position than their last. */
module SplitSubtrees {
  import opened Shape
  import opened LeafOrder

  /** The first and the last of the leaves below i. */
  function FirstLeaf(n: nat, i: nat): (x: nat)
    requires i < n
    ensures x < n && !IsInternal(n, x)
    decreases n - i
  {
    if IsInternal(n, i) then FirstLeaf(n, 2 * i + 1) else i
  }

  function LastLeaf(n: nat, i: nat): (x: nat)
    requires i < n
    ensures x < n && !IsInternal(n, x)
    decreases n - i
  {
    if IsInternal(n, i) then LastLeaf(n, 2 * i + 2) else i
  }

  lemma {:induction false} LeafEnds(n: nat, i: nat)
    requires i < n
    ensures var s := Leaves(n, i); s != [] && s[0] == FirstLeaf(n, i) && s[|s| - 1] == LastLeaf(n, i)
    decreases n - i
  {
    if IsInternal(n, i) {
      var l, r := 2 * i + 1, 2 * i + 2;
      LeafEnds(n, l);
      LeafEnds(n, r);
      EndsSplit(n, i, l, r);
    }
  }

  lemma EndsSplit(n: nat, i: nat, l: nat, r: nat)
    requires l == 2 * i + 1 && r == l + 1 < n && Leaves(n, l) != [] && Leaves(n, r) != []
    ensures FirstLeaf(n, i) == FirstLeaf(n, l) && LastLeaf(n, i) == LastLeaf(n, r)
    ensures var s, t := Leaves(n, l), Leaves(n, r);
      |Leaves(n, i)| == |s| + |t| && Leaves(n, i)[0] == s[0] && Leaves(n, i)[|s| + |t| - 1] == t[|t| - 1]
  {
    LeavesSplit(n, i, l, r);
  }

  /** A leaf beside an internal node is the first of all leaves; one of two leaf siblings on the right is not. */
  lemma LeafBesides(n: nat, l: nat, r: nat)
    requires n % 2 == 1 && r == l + 1 < n && !IsInternal(n, r)
    ensures r == n / 2 <==> IsInternal(n, l)
  {}

  lemma SiblingsAlike(n: nat, i: nat)
    requires n % 4 == 3 && IsInternal(n, i)
    ensures IsInternal(n, 2 * i + 1) <==> IsInternal(n, 2 * i + 2)
  {}

  lemma OddCount(n: nat)
    requires n % 4 == 3
    ensures n % 2 == 1
  {}

  lemma {:induction false} LastLeafOfEven(n: nat, i: nat)
    requires n % 4 == 3 && IsInternal(n, i)
    ensures LastLeaf(n, i) != n / 2
    decreases n - i
  {
    var l, r := 2 * i + 1, 2 * i + 2;
    SiblingsAlike(n, i);
    OddCount(n);
    if IsInternal(n, r) {
      LastLeafOfEven(n, r);
    } else {
      LeafBesides(n, l, r);
    }
  }

  /** The subtree's first leaf has a higher position than its last: its leaves lie on two levels. */
  predicate Split(n: nat, i: nat)
    requires i < n
  {
    FirstLeaf(n, i) > LastLeaf(n, i)
  }

  predicate IsRun(s: seq<nat>) { s != [] && s == Range(s[0], s[0] + |s|) }

  /** Leaves of one level are consecutive; of two levels, the deeper ones come first. */
  lemma SpanShape(h: nat, a: nat, w: nat)
    ensures a < h < a + w ==> Span(h, a, w) == Range(2 * a + 1, 2 * h + 1) + Range(h, a + w)
    ensures a + w <= h ==> Span(h, a, w) == Range(2 * a + 1, 2 * (a + w) + 1)
    ensures h <= a ==> Span(h, a, w) == Range(a, a + w)
  {
    CutIsRange(2 * a + 1, Least(2 * (a + w) + 1, 2 * h + 1));
    CutIsRange(Most(a, h), a + w);
  }

  lemma InRange(lo: nat, hi: nat, x: nat)
    requires lo <= hi
    ensures x in Range(lo, hi) <==> lo <= x < hi
  {
    if lo <= x < hi {
      assert Range(lo, hi)[x - lo] == x;
    }
  }

  lemma SpanMember(h: nat, a: nat, w: nat, x: nat)
    requires w >= 1
    ensures var s := Span(h, a, w);
      && s != []
      && (x in s <==> if a < h < a + w then s[0] <= x < 2 * h + 1 || h <= x <= s[|s| - 1] else s[0] <= x <= s[|s| - 1])
  {
    SpanShape(h, a, w);
    if a < h < a + w {
      InRange(2 * a + 1, 2 * h + 1, x);
      InRange(h, a + w, x);
    } else if a + w <= h {
      InRange(2 * a + 1, 2 * (a + w) + 1, x);
    } else {
      InRange(a, a + w, x);
    }
  }

  lemma SpanIsRunUnlessSplit(h: nat, a: nat, w: nat)
    requires 1 <= w <= a + 1
    ensures var s := Span(h, a, w);
      && s != [] && (s[0] > s[|s| - 1] <==> a < h < a + w) && (IsRun(s) <==> !(a < h < a + w))
      && (a < h < a + w ==> s[0] == 2 * a + 1 && s[|s| - 1] == a + w - 1)
  {
    SpanShape(h, a, w);
  }

  /** Node i, whose k-th level down starts on the last full level: split when the first leaf of that level is inside. */
  lemma SplitIff(n: nat, m: nat, i: nat, k: nat)
    requires n % 2 == 1 && Pow2(m) <= n / 2 + 1 < 2 * Pow2(m)
    requires First(i, k) + Pow2(k) <= 2 * Pow2(m) - 1 && Pow2(m) - 1 <= First(i, k)
    ensures i < n && (Split(n, i) <==> First(i, k) < n / 2 < First(i, k) + Pow2(k))
    ensures Split(n, i) ==> LastLeaf(n, i) == First(i, k) + Pow2(k) - 1 < 2 * Pow2(m) - 1 <= FirstLeaf(n, i)
    ensures Split(n, i) <==> !IsRun(Leaves(n, i))
  {
    LeavesAreSpan(n, m, i, k);
    LeafEnds(n, i);
    SpanIsRunUnlessSplit(n / 2, First(i, k), Pow2(k));
  }

  lemma LevelBelow(n: nat, m: nat, i: nat) returns (k: nat)
    requires n % 2 == 1 && IsInternal(n, i) && Pow2(m) <= n / 2 + 1 < 2 * Pow2(m)
    ensures First(i, k) + Pow2(k) <= 2 * Pow2(m) - 1 && Pow2(m) - 1 <= First(i, k)
  {
    var d := LevelOf(i + 1);
    if d > m {
      PowMonotone(m + 1, d);
    }
    var _ := SliceStart(m, i, d);
    k := m - d;
  }

  /** The leaves of a split node come before the last full level ends, or after. */
  lemma SplitLevels(n: nat, m: nat, i: nat)
    requires n % 2 == 1 && IsInternal(n, i) && Pow2(m) <= n / 2 + 1 < 2 * Pow2(m)
    ensures Split(n, i) <==> !IsRun(Leaves(n, i))
    ensures Split(n, i) ==> LastLeaf(n, i) < 2 * Pow2(m) - 1 <= FirstLeaf(n, i)
  {
    var k := LevelBelow(n, m, i);
    SplitIff(n, m, i, k);
  }

  /** Which leaves are listed below an internal node. */
  lemma LeavesOfSplit(n: nat, m: nat, i: nat, x: nat)
    requires n % 2 == 1 && IsInternal(n, i) && Pow2(m) <= n / 2 + 1 < 2 * Pow2(m)
    ensures x in Leaves(n, i) <==>
      if Split(n, i) then FirstLeaf(n, i) <= x < n || n / 2 <= x <= LastLeaf(n, i)
      else FirstLeaf(n, i) <= x <= LastLeaf(n, i)
  {
    var k := LevelBelow(n, m, i);
    SplitIff(n, m, i, k);
    LeavesAreSpan(n, m, i, k);
    LeafEnds(n, i);
    SpanMember(n / 2, First(i, k), Pow2(k), x);
  }

  lemma HalvesOfRun(s: seq<nat>, t: seq<nat>)
    requires IsRun(s + t)
    ensures s != [] ==> s[0] <= s[|s| - 1]
    ensures t != [] ==> t[0] <= t[|t| - 1]
  {
    var u := s + t;
    if s != [] {
      assert s[0] == u[0] && s[|s| - 1] == u[|s| - 1];
    }
    if t != [] {
      assert t[0] == u[|s|] && t[|t| - 1] == u[|u| - 1];
    }
  }

  /** Nothing below a node that is not split is split. */
  lemma NotSplitBelow(n: nat, i: nat, l: nat, r: nat)
    requires n % 2 == 1 && l == 2 * i + 1 && r == l + 1 < n && !Split(n, i)
    ensures !Split(n, l) && !Split(n, r)
  {
    var m := LevelOf(n / 2 + 1);
    SplitLevels(n, m, i);
    LeavesSplit(n, i, l, r);
    LeafEnds(n, l);
    LeafEnds(n, r);
    HalvesOfRun(Leaves(n, l), Leaves(n, r));
  }

  lemma {:induction false} NotSplitUnder(n: nat, b: nat, t: nat)
    requires n % 2 == 1 && Under(b, t) && IsInternal(n, t) && b < n && !Split(n, b)
    ensures !Split(n, t)
    decreases t
  {
    if t != b {
      var i := Parent(t);
      NotSplitUnder(n, b, i);
      NotSplitBelow(n, i, 2 * i + 1, 2 * i + 2);
    }
  }

  /** A node whose last leaf is the first of all is split. */
  lemma EndsInFirstIsSplit(n: nat, m: nat, i: nat)
    requires n % 2 == 1 && Pow2(m) <= n / 2 + 1 < 2 * Pow2(m) && IsInternal(n, i) && LastLeaf(n, i) == n / 2
    ensures Split(n, i)
  {
    var l, r := 2 * i + 1, 2 * i + 2;
    LeafEnds(n, l);
    LeafEnds(n, r);
    LeafEnds(n, i);
    EndsSplit(n, i, l, r);
    SplitLevels(n, m, i);
  }

  /** Below a node that ends in the first leaf of all every split node does. */
  lemma SplitEndsInFirst(n: nat, m: nat, b: nat, t: nat)
    requires n % 2 == 1 && Pow2(m) <= n / 2 + 1 < 2 * Pow2(m) && Under(b, t) && IsInternal(n, b) && IsInternal(n, t)
    requires LastLeaf(n, b) == n / 2 && Split(n, t)
    ensures LastLeaf(n, t) == n / 2
  {
    var x := LastLeaf(n, t);
    LeafEnds(n, t);
    assert x in Leaves(n, t);
    LeavesOnce(n, t);
    assert IsLeafBelow(n, t, x);
    UnderTransitive(b, t, x);
    LeavesOnce(n, b);
    assert IsLeafBelow(n, b, x);
    EndsInFirstIsSplit(n, m, b);
    SplitLevels(n, m, b);
    SplitLevels(n, m, t);
    LeavesOfSplit(n, m, b, x);
  }

  /**
   * Among c chunks, 2^m <= c < 2^(m + 1), the half of the tree that t is in is split: the left one strictly
   * between 2^m and 3 * 2^(m - 1) chunks, the right one strictly between that and 2^(m + 1).
   */
  predicate InSplitHalf(c: nat, m: nat, t: nat) {
    || (Under(1, t) && Pow2(m) < c && 2 * c < 3 * Pow2(m))
    || (Under(2, t) && 3 * Pow2(m) < 2 * c && c < Pow2(m + 1))
  }

  /** The half of the tree that t is in is split and ends in the first leaf of all: one chunk below those upper ends. */
  predicate InEdgeHalf(c: nat, m: nat, t: nat) {
    || (Under(1, t) && 2 * (c + 1) == 3 * Pow2(m))
    || (Under(2, t) && c + 1 == Pow2(m + 1))
  }

  lemma FirstOfHalf(b: nat, m: nat)
    requires m >= 1 && (b == 1 || b == 2)
    ensures Pow2(m) == 2 * Pow2(m - 1) && First(b, m - 1) == (if b == 1 then 2 else 3) * Pow2(m - 1) - 1
  {
    FirstIs(b, m - 1);
  }

  lemma HalfSplitIff(n: nat, m: nat, b: nat)
    requires n % 2 == 1 && Pow2(m) <= n / 2 + 1 < Pow2(m + 1) && (b == 1 || b == 2) && IsInternal(n, b)
    ensures Split(n, b) <==> InSplitHalf(n / 2 + 1, m, b)
    ensures Split(n, b) ==> (LastLeaf(n, b) == n / 2 <==> InEdgeHalf(n / 2 + 1, m, b))
  {
    assert m >= 1;
    FirstOfHalf(b, m);
    SplitIff(n, m, b, m - 1);
  }

  lemma InHalfBelow(c: nat, m: nat, b: nat, t: nat)
    requires (b == 1 || b == 2) && Under(b, t)
    ensures InSplitHalf(c, m, t) <==> InSplitHalf(c, m, b)
    ensures InEdgeHalf(c, m, t) <==> InEdgeHalf(c, m, b)
  {
    UnderChild(0, t);
  }

  /** No internal node is in a split half exactly for 2^m and 3 * 2^(m - 1) chunks. */
  lemma NothingSplitIff(c: nat, m: nat)
    requires 1 <= Pow2(m) <= c < Pow2(m + 1)
    ensures (forall t: nat | IsInternal(2 * c - 1, t) :: !InSplitHalf(c, m, t)) <==>
      c == Pow2(m) || 2 * c == 3 * Pow2(m)
  {
    if c != Pow2(m) && 2 * c != 3 * Pow2(m) {
      var t := if 2 * c < 3 * Pow2(m) then 1 else 2;
      assert IsInternal(2 * c - 1, t) && InSplitHalf(c, m, t);
    }
  }
}
