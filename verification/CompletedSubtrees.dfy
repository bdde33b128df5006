/** The compact completion report: the topmost completed subtrees. */
module CompletedSubtrees {
  import opened Bytes
  import opened Sha256Spec
  import opened Shape
  import opened Merkle

  /** Both trees satisfy the Merkle equations and the hashes compared have no collisions. */
  ghost predicate Faithful(p: Package, original: seq<byte>, data: seq<byte>, c: seq<Hash>) {
    Consistent(p, original, p.expected) && Consistent(p, data, c) && p.HexText() && NoTextCollision(p, c)
  }

  /**
   * Of two trees with their hashes in place this asks no more than that different pairs of children at one place
   * have different digests; it holds of the genuine file.
   */
  lemma FaithfulIff(p: Package, original: seq<byte>, data: seq<byte>, c: seq<Hash>)
    requires Consistent(p, original, p.expected) && Consistent(p, data, c) && p.HexText()
    ensures Faithful(p, original, data, c) <==>
      forall i | 0 <= i && IsInternal(p.Nodes(), i) && p.expected[i] == c[i] ::
        p.expected[2 * i + 1] == c[2 * i + 1] && p.expected[2 * i + 2] == c[2 * i + 2]
    ensures Faithful(p, original, original, p.expected)
  {
    forall i | 0 <= i && IsInternal(p.Nodes(), i)
      ensures TextsDoNotCollide(p, c, i) <==>
        (p.expected[i] == c[i] ==> p.expected[2 * i + 1] == c[2 * i + 1] && p.expected[2 * i + 2] == c[2 * i + 2])
    {
      var l, r := 2 * i + 1, 2 * i + 2;
      assert Clean(p, original, p.expected, i) && Clean(p, data, c, i);
      if Join(p.expected[l], p.expected[r]) == Join(c[l], c[r]) {
        JoinInjective(p.expected[l], p.expected[r], c[l], c[r]);
      }
    }
  }

  function Frontier(p: Package, c: seq<Hash>, i: nat): seq<nat>
    requires |p.expected| == p.Nodes() && |c| == p.Nodes() && i < p.Nodes()
    decreases p.Nodes() - i
  {
    if Passes(p, c, i) then [i]
    else if IsInternal(p.Nodes(), i) then Frontier(p, c, 2 * i + 1) + Frontier(p, c, 2 * i + 2)
    else []
  }

  predicate NodesOf(n: nat, s: seq<nat>) { forall k | 0 <= k < |s| :: s[k] < n }

  /** The leaves below each of the nodes, in order. */
  function Expand(n: nat, nodes: seq<nat>): seq<nat>
    requires NodesOf(n, nodes)
  {
    if nodes == [] then [] else Leaves(n, nodes[0]) + Expand(n, nodes[1..])
  }

  /** Those of the nodes that pass, in order. */
  function Completed(p: Package, c: seq<Hash>, nodes: seq<nat>): seq<nat>
    requires |p.expected| == p.Nodes() && |c| == p.Nodes() && NodesOf(p.Nodes(), nodes)
  {
    if nodes == [] then []
    else (if Passes(p, c, nodes[0]) then [nodes[0]] else []) + Completed(p, c, nodes[1..])
  }

  lemma {:induction false} LeavesInRange(n: nat, i: nat)
    requires i < n
    ensures NodesOf(n, Leaves(n, i)) && Leaves(n, i) != []
    decreases n - i
  {
    if IsInternal(n, i) {
      LeavesInRange(n, 2 * i + 1);
      LeavesInRange(n, 2 * i + 2);
    }
  }

  lemma {:induction false} FrontierInRange(p: Package, c: seq<Hash>, i: nat)
    requires |p.expected| == p.Nodes() && |c| == p.Nodes() && i < p.Nodes()
    ensures NodesOf(p.Nodes(), Frontier(p, c, i))
    decreases p.Nodes() - i
  {
    if !Passes(p, c, i) && IsInternal(p.Nodes(), i) {
      FrontierInRange(p, c, 2 * i + 1);
      FrontierInRange(p, c, 2 * i + 2);
    }
  }

  lemma {:induction false} ExpandCat(n: nat, s: seq<nat>, t: seq<nat>)
    requires NodesOf(n, s) && NodesOf(n, t)
    ensures Expand(n, s + t) == Expand(n, s) + Expand(n, t)
  {
    if s == [] {
      assert s + t == t;
    } else {
      assert (s + t)[1..] == s[1..] + t;
      ExpandCat(n, s[1..], t);
    }
  }

  lemma {:induction false} CompletedCat(p: Package, c: seq<Hash>, s: seq<nat>, t: seq<nat>)
    requires |p.expected| == p.Nodes() && |c| == p.Nodes() && NodesOf(p.Nodes(), s) && NodesOf(p.Nodes(), t)
    ensures Completed(p, c, s + t) == Completed(p, c, s) + Completed(p, c, t)
  {
    if s == [] {
      assert s + t == t;
    } else {
      assert (s + t)[1..] == s[1..] + t;
      CompletedCat(p, c, s[1..], t);
    }
  }

  lemma {:induction false} CompletedAll(p: Package, c: seq<Hash>, s: seq<nat>)
    requires |p.expected| == p.Nodes() && |c| == p.Nodes() && NodesOf(p.Nodes(), s)
    requires forall x | x in s :: x < p.Nodes() && Passes(p, c, x)
    ensures Completed(p, c, s) == s
  {
    if s != [] {
      CompletedAll(p, c, s[1..]);
    }
  }

  lemma {:induction false} CompletedMembers(p: Package, c: seq<Hash>, s: seq<nat>, x: nat)
    requires |p.expected| == p.Nodes() && |c| == p.Nodes() && NodesOf(p.Nodes(), s)
    ensures x in Completed(p, c, s) <==> x in s && x < p.Nodes() && Passes(p, c, x)
  {
    if s != [] {
      CompletedMembers(p, c, s[1..], x);
    }
  }

  lemma {:induction false} CompletedInRange(p: Package, c: seq<Hash>, nodes: seq<nat>)
    requires |p.expected| == p.Nodes() && |c| == p.Nodes() && NodesOf(p.Nodes(), nodes)
    ensures NodesOf(p.Nodes(), Completed(p, c, nodes)) && |Completed(p, c, nodes)| <= |nodes|
  {
    if nodes != [] {
      CompletedInRange(p, c, nodes[1..]);
    }
  }

  lemma {:induction false} CompletedDistinct(p: Package, c: seq<Hash>, s: seq<nat>)
    requires |p.expected| == p.Nodes() && |c| == p.Nodes() && NodesOf(p.Nodes(), s) && Distinct(s)
    ensures Distinct(Completed(p, c, s))
  {
    if s != [] {
      CompletedDistinct(p, c, s[1..]);
      CompletedMembers(p, c, s[1..], s[0]);
    }
  }

  lemma FrontierSplits(p: Package, c: seq<Hash>, i: nat, l: nat, r: nat)
    requires |p.expected| == p.Nodes() && |c| == p.Nodes() && l == 2 * i + 1 && r == l + 1 < p.Nodes()
    requires !Passes(p, c, i)
    ensures Frontier(p, c, i) == Frontier(p, c, l) + Frontier(p, c, r)
  {}

  /** Expanding the frontier lists exactly the completed chunks, in leaf order. */
  lemma {:induction false} FrontierIsCompleted(p: Package, original: seq<byte>, data: seq<byte>, c: seq<Hash>, i: nat)
    requires Faithful(p, original, data, c) && i < p.Nodes()
    ensures NodesOf(p.Nodes(), Frontier(p, c, i)) && NodesOf(p.Nodes(), Leaves(p.Nodes(), i))
    ensures Expand(p.Nodes(), Frontier(p, c, i)) == Completed(p, c, Leaves(p.Nodes(), i))
    decreases p.Nodes() - i
  {
    var n := p.Nodes();
    FrontierInRange(p, c, i);
    LeavesInRange(n, i);
    if Passes(p, c, i) {
      PassesIffLeavesPass(p, original, data, c, i);
      CompletedAll(p, c, Leaves(n, i));
      assert Expand(n, [i]) == Leaves(n, i);
    } else if IsInternal(n, i) {
      var l, r := 2 * i + 1, 2 * i + 2;
      FrontierIsCompleted(p, original, data, c, l);
      FrontierIsCompleted(p, original, data, c, r);
      var fl, fr, ll, lr := Frontier(p, c, l), Frontier(p, c, r), Leaves(n, l), Leaves(n, r);
      FrontierSplits(p, c, i, l, r);
      LeavesSplit(n, i, l, r);
      ExpandCat(n, fl, fr);
      CompletedCat(p, c, ll, lr);
    }
  }

  /** The frontier's leaf sets are disjoint: no chunk is listed twice. */
  lemma FrontierIsDisjoint(p: Package, original: seq<byte>, data: seq<byte>, c: seq<Hash>)
    requires Faithful(p, original, data, c)
    ensures NodesOf(p.Nodes(), Frontier(p, c, 0)) && Distinct(Expand(p.Nodes(), Frontier(p, c, 0)))
    ensures forall x: nat :: x in Expand(p.Nodes(), Frontier(p, c, 0)) <==>
      x < p.Nodes() && !IsInternal(p.Nodes(), x) && Passes(p, c, x)
  {
    var n := p.Nodes();
    FrontierIsCompleted(p, original, data, c, 0);
    LeavesOnce(n, 0);
    CompletedDistinct(p, c, Leaves(n, 0));
    forall x: nat ensures x in Completed(p, c, Leaves(n, 0)) <==> x < n && !IsInternal(n, x) && Passes(p, c, x) {
      CompletedMembers(p, c, Leaves(n, 0), x);
      RootAbove(x);
      assert x in Leaves(n, 0) <==> IsLeafBelow(n, 0, x);
    }
  }

  // Minimality.

  /** The leaf sets of the nodes in s have exactly the completed chunks as their union. */
  ghost predicate Covers(p: Package, c: seq<Hash>, s: set<nat>)
    requires |p.expected| == p.Nodes() && |c| == p.Nodes()
  {
    && (forall a | a in s :: a < p.Nodes())
    && forall x: nat | x < p.Nodes() && !IsInternal(p.Nodes(), x) ::
      Passes(p, c, x) <==> exists a :: a in s && Under(a, x)
  }

  function Below(s: set<nat>, i: nat): set<nat> { set a | a in s && Under(i, a) }

  predicate NoneAbove(s: set<nat>, i: nat) { forall a | a in s && a != i :: !Under(a, i) }

  lemma BelowSplits(s: set<nat>, i: nat)
    requires i !in s
    ensures |Below(s, i)| == |Below(s, 2 * i + 1)| + |Below(s, 2 * i + 2)|
  {
    var l, r := Below(s, 2 * i + 1), Below(s, 2 * i + 2);
    forall a | a in s ensures a in Below(s, i) <==> a in l || a in r {
      UnderChild(i, a);
    }
    forall a | a in l ensures a !in r {
      UnderChild(i, a);
    }
    assert Below(s, i) == l + r && l !! r;
  }

  /** Nodes whose leaves are all completed pass. */
  lemma CoveringNodePasses(p: Package, original: seq<byte>, data: seq<byte>, c: seq<Hash>, s: set<nat>, a: nat)
    requires Faithful(p, original, data, c) && Covers(p, c, s) && a in s
    ensures Passes(p, c, a)
  {
    var n := p.Nodes();
    LeavesOnce(n, a);
    forall x | x in Leaves(n, a) ensures x < n && Passes(p, c, x) {
      assert IsLeafBelow(n, a, x);
    }
    PassesIffLeavesPass(p, original, data, c, a);
  }

  lemma {:induction false} FrontierIsLeast(p: Package, original: seq<byte>, data: seq<byte>, c: seq<Hash>,
                                          s: set<nat>, i: nat)
    requires Faithful(p, original, data, c) && Covers(p, c, s) && i < p.Nodes() && NoneAbove(s, i)
    ensures |Frontier(p, c, i)| <= |Below(s, i)|
    decreases p.Nodes() - i
  {
    var n := p.Nodes();
    if Passes(p, c, i) {
      LeavesInRange(n, i);
      LeavesOnce(n, i);
      PassesIffLeavesPass(p, original, data, c, i);
      var x := Leaves(n, i)[0];
      assert x in Leaves(n, i) && IsLeafBelow(n, i, x);
      var a :| a in s && Under(a, x);
      UnderComparable(a, i, x);
      assert a in Below(s, i);
    } else if IsInternal(n, i) {
      if i in s {
        CoveringNodePasses(p, original, data, c, s, i);
      }
      FrontierIsLeast(p, original, data, c, s, 2 * i + 1);
      FrontierIsLeast(p, original, data, c, s, 2 * i + 2);
      BelowSplits(s, i);
    }
  }

  /** No set of tree nodes with the same leaves is smaller than the frontier, and the frontier is such a set. */
  lemma FrontierIsMinimum(p: Package, original: seq<byte>, data: seq<byte>, c: seq<Hash>)
    requires Faithful(p, original, data, c)
    ensures Covers(p, c, set a | a in Frontier(p, c, 0)) && Distinct(Frontier(p, c, 0))
    ensures forall s | Covers(p, c, s) :: |Frontier(p, c, 0)| <= |s|
  {
    FrontierDistinct(p, c, 0);
    FrontierCovers(p, original, data, c);
    forall s | Covers(p, c, s) ensures |Frontier(p, c, 0)| <= |s| {
      FrontierIsLeast(p, original, data, c, s, 0);
      forall a | a in s ensures Under(0, a) {
        RootAbove(a);
      }
      assert Below(s, 0) == s;
    }
  }

  lemma {:induction false} FrontierDistinct(p: Package, c: seq<Hash>, i: nat)
    requires |p.expected| == p.Nodes() && |c| == p.Nodes() && i < p.Nodes()
    ensures Distinct(Frontier(p, c, i)) && forall a | a in Frontier(p, c, i) :: Under(i, a)
    decreases p.Nodes() - i
  {
    if !Passes(p, c, i) && IsInternal(p.Nodes(), i) {
      var l, r := Frontier(p, c, 2 * i + 1), Frontier(p, c, 2 * i + 2);
      FrontierDistinct(p, c, 2 * i + 1);
      FrontierDistinct(p, c, 2 * i + 2);
      forall a | a in l + r ensures Under(i, a) {
        UnderChild(i, a);
      }
      forall a | a in l ensures a !in r {
        UnderChild(i, a);
      }
      DistinctCat(l, r);
    }
  }

  lemma {:induction false} ExpandMembers(n: nat, s: seq<nat>, x: nat)
    requires NodesOf(n, s) && n % 2 == 1 && x < n && !IsInternal(n, x)
    ensures x in Expand(n, s) <==> exists a :: a in s && Under(a, x)
  {
    if s == [] {
      assert Expand(n, s) == [];
    } else {
      var rest := s[1..];
      LeavesOnce(n, s[0]);
      ExpandMembers(n, rest, x);
      assert x in Leaves(n, s[0]) <==> IsLeafBelow(n, s[0], x);
      assert forall a :: a in s <==> a == s[0] || a in rest;
      assert x in Expand(n, s) <==> x in Leaves(n, s[0]) || x in Expand(n, rest);
      if a :| a in rest && Under(a, x) {
        assert a in s;
      }
    }
  }

  lemma FrontierCovers(p: Package, original: seq<byte>, data: seq<byte>, c: seq<Hash>)
    requires Faithful(p, original, data, c)
    ensures Covers(p, c, set a | a in Frontier(p, c, 0))
  {
    var n, f := p.Nodes(), Frontier(p, c, 0);
    var s := set a | a in f;
    FrontierIsDisjoint(p, original, data, c);
    forall x: nat | x < n && !IsInternal(n, x) ensures Passes(p, c, x) <==> exists a :: a in s && Under(a, x) {
      ExpandMembers(n, f, x);
      assert x in Expand(n, f) <==> Passes(p, c, x);
      assert forall a :: a in s <==> a in f;
    }
  }
}
