/** The search for a hash that prunes by the offset ranges the build stored in the internal nodes. */
module OffsetSearch {
  import opened Bytes
  import opened Sha256Spec
  import opened Shape
  import opened Merkle
  import opened LeafOrder
  import opened SplitSubtrees

  predicate Matches(p: Package, i: nat, query: Hash)
    requires i < |p.expected|
  {
    StrnEqual(p.expected[i], query, 64)
  }

  /** The key pairs of all nodes; those of the leaves are whatever memory held. */
  datatype Keys = Keys(lo: seq<nat>, hi: seq<nat>) {
    predicate Admits(i: nat, offset: nat)
      requires i < |lo| && i < |hi|
    {
      lo[i] <= offset <= hi[i]
    }
  }

  function Search(p: Package, keys: Keys, i: nat, query: Hash, offset: nat): Option<nat>
    requires |p.expected| == p.Nodes() == |keys.lo| == |keys.hi| && i < p.Nodes()
    decreases p.Nodes() - i
  {
    if Matches(p, i, query) then Some(i)
    else if !IsInternal(p.Nodes(), i) then None
    else
      var l, r := 2 * i + 1, 2 * i + 2;
      var left := if keys.Admits(l, offset) then Search(p, keys, l, query, offset) else None;
      if left.Some? then left
      else if keys.Admits(r, offset) then Search(p, keys, r, query, offset) else None
  }

  /** What the build stores in an internal node. */
  ghost predicate KeyBuilt(p: Package, keys: Keys, i: nat)
    requires |keys.lo| == |keys.hi| == p.Nodes() && IsInternal(p.Nodes(), i)
  {
    var l, r := 2 * i + 1, 2 * i + 2;
    && keys.lo[i] == (if IsInternal(p.Nodes(), l) then keys.lo[l] else p.ChunkOf(l).offset)
    && keys.hi[i] == (if IsInternal(p.Nodes(), l) then keys.hi[r] else p.ChunkOf(r).offset)
  }

  ghost predicate KeysBuilt(p: Package, keys: Keys) {
    && |keys.lo| == |keys.hi| == p.Nodes() == |p.expected|
    && forall i {:trigger KeyBuilt(p, keys, i)} | 0 <= i && IsInternal(p.Nodes(), i) :: KeyBuilt(p, keys, i)
  }

  /** The offset of leaf x. */
  function At(p: Package, x: nat): nat {
    if x < p.Nodes() && !IsInternal(p.Nodes(), x) then p.ChunkOf(x).offset else 0
  }

  /**
   * An internal node's key is the offsets of its first and last leaf. Only where the last is the first leaf of
   * the array, which takes an odd number of chunks, the upper end is the key of that leaf, which is never set.
   */
  lemma {:induction false} KeyIsFirstAndLast(p: Package, keys: Keys, i: nat)
    requires KeysBuilt(p, keys) && p.Nodes() % 2 == 1 && IsInternal(p.Nodes(), i)
    ensures var n := p.Nodes();
      && keys.lo[i] == At(p, FirstLeaf(n, i))
      && keys.hi[i] == if LastLeaf(n, i) == n / 2 then keys.hi[n / 2] else At(p, LastLeaf(n, i))
    decreases p.Nodes() - i
  {
    var n, l, r := p.Nodes(), 2 * i + 1, 2 * i + 2;
    assert KeyBuilt(p, keys, i);
    if IsInternal(n, l) {
      KeyIsFirstAndLast(p, keys, l);
    }
    if IsInternal(n, r) {
      KeyIsFirstAndLast(p, keys, r);
    } else {
      LeafBesides(n, l, r);
    }
  }

  ghost predicate IncreasingOffsets(p: Package) {
    forall j, k | 0 <= j < k < |p.chunks| :: p.chunks[j].offset < p.chunks[k].offset
  }

  ghost predicate IsLeaf(p: Package, x: nat) { x < p.Nodes() && !IsInternal(p.Nodes(), x) }

  lemma OffsetsOrderLeaves(p: Package, x: nat, y: nat)
    requires IncreasingOffsets(p) && IsLeaf(p, x) && IsLeaf(p, y)
    ensures At(p, x) <= At(p, y) <==> x <= y
  {}

  /**
   * An internal node's key admits a chunk's offset exactly when the node is not split and stands above the chunk;
   * only the nodes whose last leaf is the first of all go by that leaf's unset key.
   */
  lemma AdmitsIff(p: Package, keys: Keys, i: nat, x: nat)
    requires KeysBuilt(p, keys) && p.Nodes() % 2 == 1 && IncreasingOffsets(p)
    requires IsInternal(p.Nodes(), i) && IsLeaf(p, x)
    ensures var n := p.Nodes();
      keys.Admits(i, At(p, x)) <==>
        if LastLeaf(n, i) == n / 2 then FirstLeaf(n, i) <= x && At(p, x) <= keys.hi[n / 2]
        else !Split(n, i) && Under(i, x)
  {
    var n := p.Nodes();
    var m := LevelOf(n / 2 + 1);
    KeyIsFirstAndLast(p, keys, i);
    OffsetsOrderLeaves(p, FirstLeaf(n, i), x);
    OffsetsOrderLeaves(p, x, LastLeaf(n, i));
    LeavesOfSplit(n, m, i, x);
    LeavesOnce(n, i);
    assert x in Leaves(n, i) <==> IsLeafBelow(n, i, x);
  }

  // Even numbers of chunks: the search follows the path to the chunk.

  /** Nodes on the way from a down to t, without t, do not match. */
  ghost predicate NoMatchBetween(p: Package, a: nat, t: nat, query: Hash)
    requires t <= |p.expected|
  {
    forall b: nat | Under(a, b) && Under(b, t) && b != t :: b < |p.expected| && !Matches(p, b, query)
  }

  lemma NoMatchBelow(p: Package, a: nat, b: nat, t: nat, query: Hash)
    requires t <= |p.expected| && NoMatchBetween(p, a, t, query) && Under(a, b)
    ensures NoMatchBetween(p, b, t, query)
  {
    forall d: nat | Under(b, d) && Under(d, t) && d != t ensures d < |p.expected| && !Matches(p, d, query) {
      UnderTransitive(a, b, d);
    }
  }

  lemma InternalAbove(n: nat, b: nat, t: nat)
    requires n % 2 == 1 && IsInternal(n, t) && Under(b, t)
    ensures IsInternal(n, b)
  {
    if b != t {
      AncestorIsInternal(n, b, t);
    }
  }

  lemma ChildTowards(n: nat, a: nat, t: nat, x: nat) returns (b: nat)
    requires n % 2 == 1 && Under(a, t) && a != t && Under(t, x) && IsInternal(n, t)
    ensures (b == 2 * a + 1 || b == 2 * a + 2) && Under(a, b) && Under(b, t) && Under(b, x) && IsInternal(n, b)
  {
    UnderChild(a, t);
    b := if Under(2 * a + 1, t) then 2 * a + 1 else 2 * a + 2;
    UnderTransitive(b, t, x);
    InternalAbove(n, b, t);
  }

  /** Of two internal siblings the one not above the chunk refuses its offset, and the one above it if it is split. */
  lemma OnlyThePathAdmits(p: Package, keys: Keys, a: nat, l: nat, r: nat, b: nat, x: nat)
    requires KeysBuilt(p, keys) && p.Nodes() % 4 == 3 && IncreasingOffsets(p) && IsLeaf(p, x)
    requires l == 2 * a + 1 && r == l + 1 < p.Nodes()
    requires (b == l || b == r) && IsInternal(p.Nodes(), b) && Under(b, x)
    ensures b < p.Nodes() && (keys.Admits(b, At(p, x)) <==> !Split(p.Nodes(), b))
    ensures (b == l && !keys.Admits(r, At(p, x))) || (b == r && !keys.Admits(l, At(p, x)))
  {
    SiblingsAlike(p.Nodes(), a);
    UnderChild(a, x);
    OddCount(p.Nodes());
    LastLeafOfEven(p.Nodes(), l);
    LastLeafOfEven(p.Nodes(), r);
    AdmitsIff(p, keys, l, x);
    AdmitsIff(p, keys, r, x);
  }

  /** The search at a node that does not match, when one child at most admits the offset. */
  lemma SearchStep(p: Package, keys: Keys, a: nat, l: nat, r: nat, b: nat, query: Hash, offset: nat)
    requires KeysBuilt(p, keys) && l == 2 * a + 1 && r == l + 1 < p.Nodes() && !Matches(p, a, query)
    requires (b == l && !keys.Admits(r, offset)) || (b == r && !keys.Admits(l, offset))
    ensures Search(p, keys, a, query, offset) ==
      if keys.Admits(b, offset) then Search(p, keys, b, query, offset) else None
  {}

  /** From a node that does not match the search goes to its child b above the chunk, or ends if b is split. */
  lemma StepOnPath(p: Package, keys: Keys, a: nat, l: nat, r: nat, b: nat, x: nat, query: Hash)
    requires KeysBuilt(p, keys) && p.Nodes() % 4 == 3 && IncreasingOffsets(p) && IsLeaf(p, x)
    requires l == 2 * a + 1 && r == l + 1 < p.Nodes() && !Matches(p, a, query)
    requires (b == l || b == r) && IsInternal(p.Nodes(), b) && Under(b, x)
    ensures Search(p, keys, a, query, At(p, x)) ==
      if Split(p.Nodes(), b) then None else Search(p, keys, b, query, At(p, x))
  {
    OnlyThePathAdmits(p, keys, a, l, r, b, x);
    SearchStep(p, keys, a, l, r, b, query, At(p, x));
  }

  /** The search for a chunk's offset follows the path to it: from a it continues at any internal t on it. */
  lemma {:induction false} SearchDescends(p: Package, keys: Keys, a: nat, t: nat, x: nat, query: Hash)
    requires KeysBuilt(p, keys) && p.Nodes() % 4 == 3 && IncreasingOffsets(p) && IsLeaf(p, x)
    requires Under(a, t) && Under(t, x) && IsInternal(p.Nodes(), t) && NoMatchBetween(p, a, t, query)
    requires a < p.Nodes() && !Split(p.Nodes(), a)
    ensures Search(p, keys, a, query, At(p, x)) == Search(p, keys, t, query, At(p, x))
    decreases t - a
  {
    if a != t {
      var n, l, r := p.Nodes(), 2 * a + 1, 2 * a + 2;
      OddCount(n);
      AncestorIsInternal(n, a, t);
      var b := ChildTowards(n, a, t, x);
      NotSplitBelow(n, a, l, r);
      assert Under(a, a);
      StepOnPath(p, keys, a, l, r, b, x, query);
      NoMatchBelow(p, a, b, t, query);
      SearchDescends(p, keys, b, t, x, query);
    }
  }

  /** From the root the search reaches an internal node on the path exactly when its half is not split. */
  lemma SearchFromRoot(p: Package, keys: Keys, m: nat, t: nat, x: nat, query: Hash)
    requires KeysBuilt(p, keys) && p.Nodes() % 4 == 3 && IncreasingOffsets(p) && IsLeaf(p, x)
    requires IsInternal(p.Nodes(), t) && Under(t, x) && NoMatchBetween(p, 0, t, query)
    requires Pow2(m) <= |p.chunks| < Pow2(m + 1)
    ensures Search(p, keys, 0, query, At(p, x)) ==
      if InSplitHalf(|p.chunks|, m, t) then None else Search(p, keys, t, query, At(p, x))
  {
    if t != 0 {
      var n := p.Nodes();
      OddCount(n);
      RootAbove(t);
      var b := ChildTowards(n, 0, t, x);
      assert Under(0, 0);
      StepOnPath(p, keys, 0, 1, 2, b, x, query);
      HalfSplitIff(n, m, b);
      InHalfBelow(|p.chunks|, m, b, t);
      NoMatchBelow(p, 0, b, t, query);
      if !Split(n, b) {
        SearchDescends(p, keys, b, t, x, query);
      }
    }
  }

  lemma EvenCount(p: Package)
    requires |p.chunks| % 2 == 0 && p.Nodes() > 0
    ensures p.Nodes() % 4 == 3
  {}

  /**
   * For an even number of chunks with increasing offsets, an internal node t that is the topmost match on the
   * way to the chunk x at the given offset is found exactly when its half of the tree is not split, whatever
   * matches elsewhere; otherwise nothing is found.
   */
  lemma FindsTopmostMatchIff(p: Package, keys: Keys, m: nat, t: nat, x: nat, query: Hash)
    requires KeysBuilt(p, keys) && |p.chunks| % 2 == 0 && IncreasingOffsets(p) && Pow2(m) <= |p.chunks| < Pow2(m + 1)
    requires IsInternal(p.Nodes(), t) && Under(t, x) && IsLeaf(p, x)
    requires Matches(p, t, query) && NoMatchBetween(p, 0, t, query)
    ensures Search(p, keys, 0, query, At(p, x)) == if InSplitHalf(|p.chunks|, m, t) then None else Some(t)
  {
    EvenCount(p);
    SearchFromRoot(p, keys, m, t, x, query);
  }

  lemma NoMatchAbove(p: Package, t: nat, x: nat, query: Hash)
    requires t < x < |p.expected| && Under(t, x) && NoMatchBetween(p, 0, x, query)
    ensures NoMatchBetween(p, 0, t, query) && !Matches(p, t, query)
  {
    RootAbove(t);
    forall b: nat | Under(0, b) && Under(b, t) && b != t ensures b < |p.expected| && !Matches(p, b, query) {
      UnderTransitive(b, t, x);
      UnderAtLeast(b, t);
    }
  }

  lemma LeafPair(p: Package, keys: Keys, t: nat, x: nat, query: Hash, offset: nat)
    requires KeysBuilt(p, keys) && p.Nodes() % 4 == 3 && IsInternal(p.Nodes(), t) && !Matches(p, t, query)
    requires 0 < x < p.Nodes() && t == Parent(x) && !IsInternal(p.Nodes(), x) && Matches(p, x, query)
    requires forall y | 0 < y < p.Nodes() && y != x && Parent(y) == Parent(x) :: !Matches(p, y, query)
    ensures Search(p, keys, t, query, offset) == if keys.Admits(x, offset) then Some(x) else None
  {
    var l, r := 2 * t + 1, 2 * t + 2;
    SiblingsAlike(p.Nodes(), t);
    assert (x == l || x == r) && Parent(l) == t == Parent(r);
  }

  /**
   * A leaf's own key is never set. If only leaf x matches on its path, and its sibling does not, the search finds
   * x exactly when its parent's half is not split and the key left in x by chance admits the offset.
   */
  lemma LeafFoundIffKeyAdmits(p: Package, keys: Keys, m: nat, x: nat, query: Hash)
    requires KeysBuilt(p, keys) && |p.chunks| % 2 == 0 && IncreasingOffsets(p) && Pow2(m) <= |p.chunks| < Pow2(m + 1)
    requires x > 0 && IsLeaf(p, x) && Matches(p, x, query) && NoMatchBetween(p, 0, x, query)
    requires forall y | 0 < y < p.Nodes() && y != x && Parent(y) == Parent(x) :: !Matches(p, y, query)
    ensures Search(p, keys, 0, query, At(p, x)) ==
      if !InSplitHalf(|p.chunks|, m, Parent(x)) && keys.Admits(x, At(p, x)) then Some(x) else None
  {
    var t := Parent(x);
    EvenCount(p);
    OddCount(p.Nodes());
    assert Under(t, t) && Under(t, x);
    AncestorIsInternal(p.Nodes(), t, x);
    NoMatchAbove(p, t, x, query);
    SearchFromRoot(p, keys, m, t, x, query);
    LeafPair(p, keys, t, x, query, At(p, x));
  }

  // Any number of chunks.

  /** Nothing below i but t, if anything, matches. */
  ghost predicate OnlyMatch(p: Package, i: nat, t: nat, query: Hash) {
    forall b: nat | b < |p.expected| && Under(i, b) && b != t :: !Matches(p, b, query)
  }

  /** The keys of all nodes from t up to i, but without i, admit the offset. */
  predicate PathAdmits(keys: Keys, i: nat, t: nat, offset: nat)
    requires |keys.lo| == |keys.hi| > t
  {
    t == i || (t > i && keys.Admits(t, offset) && PathAdmits(keys, i, Parent(t), offset))
  }

  lemma {:induction false} PathAdmitsStep(keys: Keys, i: nat, b: nat, t: nat, offset: nat)
    requires |keys.lo| == |keys.hi| > t >= b > 0 && i == Parent(b) && Under(b, t)
    ensures PathAdmits(keys, i, t, offset) <==> keys.Admits(b, offset) && PathAdmits(keys, b, t, offset)
    decreases t
  {
    if t != b {
      UnderAtLeast(b, Parent(t));
      PathAdmitsStep(keys, i, b, Parent(t), offset);
    }
  }

  /** The search reaches x and stops there. */
  predicate Hit(p: Package, keys: Keys, i: nat, x: nat, query: Hash, offset: nat)
    requires |p.expected| == |keys.lo| == |keys.hi|
  {
    x < |p.expected| && PathAdmits(keys, i, x, offset) && Matches(p, x, query)
  }

  function FirstHit(p: Package, keys: Keys, i: nat, nodes: seq<nat>, query: Hash, offset: nat): (r: Option<nat>)
    requires |p.expected| == |keys.lo| == |keys.hi|
    ensures r == None ==> forall k | 0 <= k < |nodes| :: !Hit(p, keys, i, nodes[k], query, offset)
    ensures r.Some? ==>
      exists k :: 0 <= k < |nodes| && nodes[k] == r.value && IsFirstHit(p, keys, i, nodes, k, query, offset)
  {
    if nodes == [] then None
    else if Hit(p, keys, i, nodes[0], query, offset) then
      assert IsFirstHit(p, keys, i, nodes, 0, query, offset);
      Some(nodes[0])
    else
      var r := FirstHit(p, keys, i, nodes[1..], query, offset);
      assert forall k | 0 <= k < |nodes| - 1 && IsFirstHit(p, keys, i, nodes[1..], k, query, offset) ::
        nodes[k + 1] == nodes[1..][k] && IsFirstHit(p, keys, i, nodes, k + 1, query, offset);
      r
  }

  predicate IsFirstHit(p: Package, keys: Keys, i: nat, nodes: seq<nat>, k: nat, query: Hash, offset: nat)
    requires |p.expected| == |keys.lo| == |keys.hi| && k < |nodes|
  {
    && Hit(p, keys, i, nodes[k], query, offset)
    && forall j | 0 <= j < k :: !Hit(p, keys, i, nodes[j], query, offset)
  }

  lemma {:induction false} FirstHitCat(p: Package, keys: Keys, i: nat, s: seq<nat>, t: seq<nat>,
                                       query: Hash, offset: nat)
    requires |p.expected| == |keys.lo| == |keys.hi|
    ensures FirstHit(p, keys, i, s + t, query, offset) ==
      var left := FirstHit(p, keys, i, s, query, offset);
      if left.Some? then left else FirstHit(p, keys, i, t, query, offset)
  {
    if s == [] {
      assert s + t == t;
    } else {
      assert (s + t)[1..] == s[1..] + t;
      FirstHitCat(p, keys, i, s[1..], t, query, offset);
    }
  }

  /** Seen from i, the hits below its child b are those seen from b, if b's key admits the offset. */
  lemma {:induction false} HitsBelow(p: Package, keys: Keys, i: nat, b: nat, nodes: seq<nat>, query: Hash, offset: nat)
    requires |p.expected| == |keys.lo| == |keys.hi| > b > 0 && i == Parent(b)
    requires forall k | 0 <= k < |nodes| :: Under(b, nodes[k]) && nodes[k] < |p.expected|
    ensures FirstHit(p, keys, i, nodes, query, offset) ==
      if keys.Admits(b, offset) then FirstHit(p, keys, b, nodes, query, offset) else None
  {
    if nodes != [] {
      assert Under(b, nodes[0]);
      UnderAtLeast(b, nodes[0]);
      PathAdmitsStep(keys, i, b, nodes[0], offset);
      HitsBelow(p, keys, i, b, nodes[1..], query, offset);
    }
  }

  /**
   * For any number of chunks, any keys, any offset and any hashes, the search returns the first node, in the order
   * in which the build visits them, that has the hash and is reached through keys that admit the offset.
   */
  lemma {:induction false} SearchIsFirstHit(p: Package, keys: Keys, i: nat, query: Hash, offset: nat)
    requires |p.expected| == p.Nodes() == |keys.lo| == |keys.hi| && i < p.Nodes()
    ensures Search(p, keys, i, query, offset) == FirstHit(p, keys, i, Preorder(p.Nodes(), i), query, offset)
    decreases p.Nodes() - i
  {
    var n := p.Nodes();
    if IsInternal(n, i) {
      var l, r := 2 * i + 1, 2 * i + 2;
      var s, t := Preorder(n, l), Preorder(n, r);
      SearchIsFirstHit(p, keys, l, query, offset);
      SearchIsFirstHit(p, keys, r, query, offset);
      PreorderMembers(n, l);
      PreorderMembers(n, r);
      HitsBelow(p, keys, i, l, s, query, offset);
      HitsBelow(p, keys, i, r, t, query, offset);
      FirstHitCat(p, keys, i, [i] + s, t, query, offset);
      FirstHitCat(p, keys, i, [i], s, query, offset);
      PreorderSplits(n, i, l, r);
      SelfHit(p, keys, i, query, offset);
      SearchByHits(p, keys, i, l, r, query, offset);
    } else {
      SelfHit(p, keys, i, query, offset);
    }
  }

  lemma SelfHit(p: Package, keys: Keys, i: nat, query: Hash, offset: nat)
    requires |p.expected| == |keys.lo| == |keys.hi| > i
    ensures FirstHit(p, keys, i, [i], query, offset) == if Matches(p, i, query) then Some(i) else None
  {
    assert [i][1..] == [];
  }

  lemma SearchByHits(p: Package, keys: Keys, i: nat, l: nat, r: nat, query: Hash, offset: nat)
    requires |p.expected| == p.Nodes() == |keys.lo| == |keys.hi| && l == 2 * i + 1 && r == l + 1 < p.Nodes()
    ensures Search(p, keys, i, query, offset) ==
      if Matches(p, i, query) then Some(i)
      else
        var left := if keys.Admits(l, offset) then Search(p, keys, l, query, offset) else None;
        if left.Some? then left
        else if keys.Admits(r, offset) then Search(p, keys, r, query, offset) else None
  {}

  /**
   * For any number of chunks, any keys and any offset, a node that alone has the hash is found exactly when the
   * keys of all nodes from it up to, but without, the root admit the offset.
   */
  lemma UniqueMatchFoundIff(p: Package, keys: Keys, i: nat, t: nat, query: Hash, offset: nat)
    requires |p.expected| == p.Nodes() == |keys.lo| == |keys.hi| && p.Nodes() % 2 == 1
    requires t < p.Nodes() && Under(i, t) && Matches(p, t, query) && OnlyMatch(p, i, t, query)
    ensures i < p.Nodes()
    ensures Search(p, keys, i, query, offset) == if PathAdmits(keys, i, t, offset) then Some(t) else None
  {
    var n := p.Nodes();
    UnderAtLeast(i, t);
    var nodes := Preorder(n, i);
    SearchIsFirstHit(p, keys, i, query, offset);
    PreorderMembers(n, i);
    PreorderOnce(n, i, t);
    assert t in multiset(nodes);
    var k :| 0 <= k < |nodes| && nodes[k] == t;
    assert Hit(p, keys, i, nodes[k], query, offset) <==> PathAdmits(keys, i, t, offset);
  }

  /** What a node t on the path admits, in terms of its half b; for b itself this is exact. */
  lemma AdmitsOnPath(p: Package, keys: Keys, m: nat, b: nat, t: nat, x: nat)
    requires KeysBuilt(p, keys) && IncreasingOffsets(p) && Pow2(m) <= |p.chunks| < Pow2(m + 1)
    requires Under(b, t) && IsInternal(p.Nodes(), b) && IsInternal(p.Nodes(), t) && Under(t, x) && IsLeaf(p, x)
    ensures var n := p.Nodes();
      var admits := !Split(n, b) || (LastLeaf(n, b) == n / 2 && x != n / 2 && At(p, x) <= keys.hi[n / 2]);
      && (admits ==> keys.Admits(t, At(p, x))) && (t == b ==> (keys.Admits(t, At(p, x)) <==> admits))
  {
    var n := p.Nodes();
    if !Split(n, b) {
      NotSplitUnder(n, b, t);
    } else if LastLeaf(n, b) == n / 2 && Split(n, t) {
      SplitEndsInFirst(n, m, b, t);
    }
    if LastLeaf(n, t) == n / 2 {
      EndsInFirstIsSplit(n, m, t);
    }
    AdmitsIff(p, keys, t, x);
    SplitLevels(n, m, t);
    LeavesOfSplit(n, m, t, x);
    LeavesOnce(n, t);
    assert x in Leaves(n, t) <==> IsLeafBelow(n, t, x);
  }

  lemma {:induction false} PathAdmitsIff(p: Package, keys: Keys, m: nat, b: nat, t: nat, x: nat)
    requires KeysBuilt(p, keys) && IncreasingOffsets(p) && Pow2(m) <= |p.chunks| < Pow2(m + 1)
    requires (b == 1 || b == 2) && Under(b, t) && IsInternal(p.Nodes(), t) && Under(t, x) && IsLeaf(p, x)
    ensures var n := p.Nodes();
      && b < n && (PathAdmits(keys, 0, t, At(p, x)) <==>
        !Split(n, b) || (LastLeaf(n, b) == n / 2 && x != n / 2 && At(p, x) <= keys.hi[n / 2]))
    decreases t
  {
    var n := p.Nodes();
    InternalAbove(n, b, t);
    AdmitsOnPath(p, keys, m, b, t, x);
    if t != b {
      UnderTransitive(Parent(t), t, x);
      PathAdmitsIff(p, keys, m, b, Parent(t), x);
    }
  }

  lemma RootPathIff(p: Package, keys: Keys, m: nat, t: nat, x: nat)
    requires KeysBuilt(p, keys) && IncreasingOffsets(p) && Pow2(m) <= |p.chunks| < Pow2(m + 1)
    requires IsInternal(p.Nodes(), t) && Under(t, x) && IsLeaf(p, x)
    ensures var n := p.Nodes();
      PathAdmits(keys, 0, t, At(p, x)) <==>
        !InSplitHalf(|p.chunks|, m, t)
        || (InEdgeHalf(|p.chunks|, m, t) && x != n / 2 && At(p, x) <= keys.hi[n / 2])
  {
    if t != 0 {
      RootAbove(t);
      var b := ChildTowards(p.Nodes(), 0, t, x);
      HalfSplitIff(p.Nodes(), m, b);
      InHalfBelow(|p.chunks|, m, b, t);
      PathAdmitsIff(p, keys, m, b, t, x);
    }
  }

  /**
   * Every number of chunks: an internal node t above the chunk x at the given offset that alone has the hash is
   * found exactly when its half is not split, or its half ends in the first leaf of all, x is not that leaf, and
   * the key left in that leaf by chance reaches the offset.
   */
  lemma UniqueInternalFoundIff(p: Package, keys: Keys, m: nat, t: nat, x: nat, query: Hash)
    requires KeysBuilt(p, keys) && IncreasingOffsets(p) && Pow2(m) <= |p.chunks| < Pow2(m + 1)
    requires IsInternal(p.Nodes(), t) && Under(t, x) && IsLeaf(p, x)
    requires Matches(p, t, query) && OnlyMatch(p, 0, t, query)
    ensures var n := p.Nodes();
      Search(p, keys, 0, query, At(p, x)) ==
        if !InSplitHalf(|p.chunks|, m, t)
          || (InEdgeHalf(|p.chunks|, m, t) && x != n / 2 && At(p, x) <= keys.hi[n / 2]) then Some(t) else None
  {
    RootAbove(t);
    UniqueMatchFoundIff(p, keys, 0, t, query, At(p, x));
    RootPathIff(p, keys, m, t, x);
  }
}
