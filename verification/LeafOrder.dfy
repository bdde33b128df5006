/** The order in which a subtree lists its chunks. */
module LeafOrder {
  import opened Shape

  function Pow2(k: nat): (r: nat)
    ensures r >= 1
  {
    if k == 0 then 1 else 2 * Pow2(k - 1)
  }

  ghost predicate IsPow2(c: nat) { exists m: nat :: c == Pow2(m) }

  function Most(a: nat, b: nat): nat { if a >= b then a else b }

  /** The indices from lo up to hi, empty when hi is not above lo. */
  function Cut(lo: nat, hi: nat): seq<nat>
    decreases hi - lo
  {
    if lo < hi then [lo] + Cut(lo + 1, hi) else []
  }

  lemma {:induction false} CutIsRange(lo: nat, hi: nat)
    ensures Cut(lo, hi) == Range(lo, Most(lo, hi))
    decreases hi - lo
  {
    if lo < hi {
      CutIsRange(lo + 1, hi);
      assert Range(lo, hi) == [lo] + Range(lo + 1, hi);
    } else {
      assert Range(lo, lo) == [];
    }
  }

  lemma {:induction false} CutJoins(lo: nat, mid: nat, hi: nat)
    requires lo <= mid <= hi
    ensures Cut(lo, hi) == Cut(lo, mid) + Cut(mid, hi)
    decreases mid - lo
  {
    if lo < mid {
      CutJoins(lo + 1, mid, hi);
      assert [lo] + (Cut(lo + 1, mid) + Cut(mid, hi)) == ([lo] + Cut(lo + 1, mid)) + Cut(mid, hi);
    } else {
      assert [] + Cut(mid, hi) == Cut(mid, hi);
    }
  }

  /** The leaves among w neighbours from a on one level and among their children on the next. */
  function Span(nhashes: nat, a: nat, w: nat): seq<nat> {
    Cut(2 * a + 1, Least(2 * (a + w) + 1, 2 * nhashes + 1)) + Cut(Most(a, nhashes), a + w)
  }

  lemma Interleave<T>(low1: seq<T>, low2: seq<T>, top1: seq<T>, top2: seq<T>)
    requires top1 == [] || low2 == []
    ensures (low1 + low2) + (top1 + top2) == (low1 + top1) + (low2 + top2)
  {}

  /** Either the left half has no leaves on the upper level or the right half has none on the lower. */
  lemma SpanSplits(nhashes: nat, a: nat, h: nat)
    ensures Span(nhashes, a, h + h) == Span(nhashes, a, h) + Span(nhashes, a + h, h)
  {
    var mid, end, n := a + h, a + h + h, 2 * nhashes + 1;
    if mid <= nhashes {
      CutJoins(2 * a + 1, 2 * mid + 1, Least(2 * end + 1, n));
      Interleave(Cut(2 * a + 1, 2 * mid + 1), Cut(2 * mid + 1, Least(2 * end + 1, n)), [], Cut(nhashes, end));
    } else {
      CutJoins(Most(a, nhashes), mid, end);
      Interleave(Cut(2 * a + 1, n), [], Cut(Most(a, nhashes), mid), Cut(mid, end));
    }
  }

  lemma SpanOfOne(n: nat, i: nat)
    requires n % 2 == 1 && i < n && !IsInternal(n, 2 * i + 1) && !IsInternal(n, 2 * i + 2)
    ensures Span(n / 2, i, 1) == Leaves(n, i)
  {
    if IsInternal(n, i) {
      CutIsRange(2 * i + 1, 2 * i + 3);
      assert Leaves(n, i) == Leaves(n, 2 * i + 1) + Leaves(n, 2 * i + 2) == [2 * i + 1, 2 * i + 2];
    } else {
      assert Cut(i, i + 1) == [i] + [];
    }
  }

  /** Levels above the last full one: node i with w = 2^k, its k-th level starting at a. */
  lemma {:induction false} LeavesAreSpan(n: nat, m: nat, i: nat, k: nat)
    requires n % 2 == 1 && Pow2(m) <= n / 2 + 1 < 2 * Pow2(m)
    requires First(i, k) + Pow2(k) <= 2 * Pow2(m) - 1 && Pow2(m) - 1 <= First(i, k)
    ensures i < n && Leaves(n, i) == Span(n / 2, First(i, k), Pow2(k))
    decreases k
  {
    if k == 0 {
      SpanOfOne(n, i);
    } else {
      var l, r, h, a := 2 * i + 1, 2 * i + 2, Pow2(k - 1), First(i, k);
      FirstOfRight(i, k);
      LeavesAreSpan(n, m, l, k - 1);
      LeavesAreSpan(n, m, r, k - 1);
      JoinHalves(n, i, l, r, a, h);
      assert Pow2(k) == h + h;
    }
  }

  lemma JoinHalves(n: nat, i: nat, l: nat, r: nat, a: nat, h: nat)
    requires l == 2 * i + 1 && r == l + 1 < n
    requires Leaves(n, l) == Span(n / 2, a, h) && Leaves(n, r) == Span(n / 2, a + h, h)
    ensures Leaves(n, i) == Span(n / 2, a, h + h)
  {
    LeavesSplit(n, i, l, r);
    SpanSplits(n / 2, a, h);
  }

  /** The leftmost descendant k levels below i. */
  function First(i: nat, k: nat): nat
    decreases k
  {
    if k == 0 then i else First(2 * i + 1, k - 1)
  }

  lemma {:induction false} FirstIs(i: nat, k: nat)
    ensures First(i, k) == (i + 1) * Pow2(k) - 1
    decreases k
  {
    if k > 0 {
      FirstIs(2 * i + 1, k - 1);
      Regroup(i + 1, Pow2(k - 1));
    }
  }

  lemma Regroup(x: nat, h: nat)
    ensures (2 * x) * h == x * (2 * h) == 2 * (x * h)
  {}

  lemma FirstOfRight(i: nat, k: nat)
    requires k > 0
    ensures First(i, k) == First(2 * i + 1, k - 1) && First(2 * i + 2, k - 1) == First(i, k) + Pow2(k - 1)
  {
    FirstIs(2 * i + 1, k - 1);
    FirstIs(2 * i + 2, k - 1);
    var h := Pow2(k - 1);
    assert (2 * i + 3) * h == (2 * i + 2) * h + h;
  }

  lemma {:induction false} PowSum(a: nat, b: nat)
    ensures Pow2(a) * Pow2(b) == Pow2(a + b)
  {
    if a > 0 {
      PowSum(a - 1, b);
      Double(Pow2(a - 1), Pow2(b));
    }
  }

  lemma Double(x: nat, y: nat)
    ensures (2 * x) * y == 2 * (x * y)
  {}

  lemma {:induction false} LevelOf(c: nat) returns (m: nat)
    requires c >= 1
    ensures Pow2(m) <= c < 2 * Pow2(m)
  {
    if c == 1 {
      m := 0;
    } else {
      m := LevelOf(c / 2);
      m := m + 1;
    }
  }

  function Rotated<T>(s: seq<T>, k: nat): seq<T>
    requires k <= |s|
  {
    s[k..] + s[..k]
  }

  lemma RangeRotated(lo: nat, mid: nat, hi: nat)
    requires lo <= mid <= hi
    ensures Rotated(Range(lo, hi), mid - lo) == Range(mid, hi) + Range(lo, mid)
  {}

  /** With c chunks, 2^m <= c < 2^(m + 1), the root lists the chunk nodes rotated by 2^(m + 1) - c. */
  lemma RootOrder(n: nat, m: nat)
    requires n % 2 == 1 && Pow2(m) <= n / 2 + 1 < Pow2(m + 1)
    ensures Leaves(n, 0) == Rotated(Range(n / 2, n), Pow2(m + 1) - (n / 2 + 1))
  {
    FirstIs(0, m);
    LeavesAreSpan(n, m, 0, m);
    var first := Pow2(m + 1) - 1;
    CutIsRange(first, n);
    CutIsRange(n / 2, first);
    RangeRotated(n / 2, first, n);
  }

  /** The order is that of the chunk nodes exactly when the number of chunks is a power of two. */
  lemma OrderKeptIffPowerOfTwo(n: nat)
    requires n % 2 == 1
    ensures Leaves(n, 0) == Range(n / 2, n) <==> IsPow2(n / 2 + 1)
  {
    var c := n / 2 + 1;
    var m := LevelOf(c);
    RootOrder(n, m);
    if c == Pow2(m) {
      assert Pow2(m + 1) - c == c;
    } else {
      assert Leaves(n, 0)[0] == n / 2 + (Pow2(m + 1) - c);
      if IsPow2(c) {
        var k :| c == Pow2(k);
        PowStrict(m, k);
      }
    }
  }

  lemma {:induction false} PowStrict(m: nat, k: nat)
    requires Pow2(m) <= Pow2(k) < Pow2(m + 1)
    ensures m == k
  {
    if m < k {
      PowMonotone(m + 1, k);
    } else if k < m {
      PowMonotone(k + 1, m);
    }
  }

  lemma {:induction false} PowMonotone(a: nat, b: nat)
    requires a <= b
    ensures Pow2(a) <= Pow2(b)
  {
    if a < b {
      PowMonotone(a, b - 1);
    }
  }

  /** In a perfect tree of height h, node i at depth d lists 2^(h - d) consecutive chunk nodes. */
  lemma PerfectSlice(n: nat, h: nat, i: nat, d: nat)
    requires n == 2 * Pow2(h) - 1 && d <= h && Pow2(d) <= i + 1 < Pow2(d + 1)
    ensures var from, w := (i + 1 - Pow2(d)) * Pow2(h - d), Pow2(h - d);
      && i < n && 0 <= from && from + w <= n - n / 2
      && Leaves(n, i) == Range(n / 2, n)[from..from + w]
  {
    var from := SliceStart(h, i, d);
    PerfectLeaves(n, h, i, h - d, from);
  }

  lemma PerfectLeaves(n: nat, h: nat, i: nat, k: nat, from: nat)
    requires n == 2 * Pow2(h) - 1 && First(i, k) == Pow2(h) - 1 + from && from + Pow2(k) <= Pow2(h)
    ensures i < n && from + Pow2(k) <= n - n / 2
    ensures Leaves(n, i) == Range(n / 2, n)[from..from + Pow2(k)]
  {
    var first, w, nhashes := First(i, k), Pow2(k), Pow2(h) - 1;
    assert n / 2 == nhashes;
    LeavesAreSpan(n, h, i, k);
    CutIsRange(first, first + w);
    SpanOnOneLevel(nhashes, first, w);
    RangeSlice(nhashes, n, from, w);
  }

  lemma SpanOnOneLevel(nhashes: nat, a: nat, w: nat)
    requires nhashes <= a
    ensures Span(nhashes, a, w) == Cut(a, a + w)
  {
    assert Span(nhashes, a, w) == [] + Cut(a, a + w);
  }

  lemma SliceStart(h: nat, i: nat, d: nat) returns (from: nat)
    requires d <= h && Pow2(d) <= i + 1 < Pow2(d + 1)
    ensures from == (i + 1 - Pow2(d)) * Pow2(h - d)
    ensures First(i, h - d) == Pow2(h) - 1 + from && from + Pow2(h - d) <= Pow2(h)
  {
    PowSum(d, h - d);
    Between(Pow2(d), i + 1, Pow2(h - d));
    FirstIs(i, h - d);
    from := (i + 1 - Pow2(d)) * Pow2(h - d);
  }

  lemma RangeSlice(lo: nat, hi: nat, from: nat, w: nat)
    requires lo <= hi && from + w <= hi - lo
    ensures Range(lo, hi)[from..from + w] == Range(lo + from, lo + from + w)
  {}

  lemma Between(lo: nat, x: nat, w: nat)
    requires lo <= x < 2 * lo
    ensures 0 <= (x - lo) * w && lo * w + (x - lo) * w == x * w && x * w + w <= 2 * (lo * w)
  {
    Regroup(lo, w);
    var y := 2 * lo - (x + 1);
    assert (2 * lo) * w == (x + 1 + y) * w == x * w + w + y * w;
    assert x * w == (lo + (x - lo)) * w == lo * w + (x - lo) * w;
  }
}
