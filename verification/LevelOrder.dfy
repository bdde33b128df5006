/** Reading the linked tree back level by level, and the widths of what the build counts. */
module LevelOrder {
  import opened Shape
  import opened LeafOrder
  import opened MerkleTree

  /** One step of the walk: the first node of the queue makes way for its children. */
  method Advance(tree: MTree, queue: seq<Node>, ghost i: nat) returns (node: Node, rest: seq<Node>)
    requires tree.Valid() && i < tree.nnodes && queue == tree.nodes[i..Least(2 * i + 1, tree.nnodes)]
    ensures node == tree.nodes[i] && rest == tree.nodes[i + 1..Least(2 * i + 3, tree.nnodes)]
  {
    node, rest := queue[0], queue[1..];
    assert node == tree.nodes[i] && tree.LinkedAt(i) && Carries(tree.pkg, node, i);
    if !node.isLeaf {
      rest := rest + [node.left, node.right];
    }
  }

  /** Walking the links breadth first from the root of a built tree gives the level-order array back. */
  method ReadBack(tree: MTree) returns (walk: seq<Node>)
    requires tree.Valid()
    ensures walk == tree.nodes
  {
    ghost var n := tree.nnodes;
    walk := [];
    var queue: seq<Node> := [tree.root];
    while queue != []
      invariant |walk| <= n && walk == tree.nodes[..|walk|]
      invariant queue == tree.nodes[|walk|..Least(2 * |walk| + 1, n)]
      decreases n - |walk|
    {
      var node: Node;
      node, queue := Advance(tree, queue, |walk|);
      walk := walk + [node];
    }
  }

  /** The order of the walk is the breadth-first order of the positions, queue for queue. */
  lemma WalkIsBreadthFirst(tree: MTree, walk: seq<Node>)
    requires tree.Valid() && walk == tree.nodes
    ensures var order := BreadthFirst(tree.nnodes, Queue(tree.nnodes, 0), tree.nnodes);
      |order| == |walk| && forall k | 0 <= k < |walk| :: order[k] < |walk| && walk[k] == tree.nodes[order[k]]
  {
    LevelOrderReadsBack(tree.nnodes, 0);
  }

  /** The height of node i: the longest way down from it. */
  function Height(n: nat, i: nat): nat
    requires i < n
    decreases n - i
  {
    if IsInternal(n, i) then 1 + Greater(Height(n, 2 * i + 1), Height(n, 2 * i + 2)) else 0
  }

  /** No leaf below i is further down than its height, and one is as far down. */
  lemma {:induction false} HeightIsLongest(n: nat, i: nat) returns (deepest: nat)
    requires n % 2 == 1 && i < n
    ensures IsLeafBelow(n, i, deepest) && Depth(deepest) == Depth(i) + Height(n, i)
    ensures forall x: nat :: IsLeafBelow(n, i, x) ==> Depth(x) <= Depth(i) + Height(n, i)
    decreases n - i
  {
    if IsInternal(n, i) {
      var l, r := 2 * i + 1, 2 * i + 2;
      var dl := HeightIsLongest(n, l);
      var dr := HeightIsLongest(n, r);
      DepthOfChild(i, l);
      DepthOfChild(i, r);
      deepest := if Height(n, l) >= Height(n, r) then dl else dr;
      UnderChild(i, deepest);
      forall x: nat ensures IsLeafBelow(n, i, x) ==> IsLeafBelow(n, l, x) || IsLeafBelow(n, r, x) {
        UnderChild(i, x);
      }
    } else {
      deepest := i;
      forall x: nat ensures IsLeafBelow(n, i, x) ==> x == i {
        LeafAlone(n, i, x);
      }
    }
  }

  /** Depth d is where the indices from 2^d - 1 up to 2^(d + 1) - 2 are. */
  lemma {:induction false} DepthFits(j: nat)
    ensures Pow2(Depth(j)) <= j + 1 < Pow2(Depth(j) + 1)
  {
    if j > 0 {
      DepthFits(Parent(j));
      assert j == 2 * Parent(j) + 1 || j == 2 * Parent(j) + 2;
    }
  }

  lemma {:induction false} HeightFits(n: nat, i: nat)
    requires i < n
    ensures (i + 1) * Pow2(Height(n, i)) <= n
    decreases n - i
  {
    if IsInternal(n, i) {
      var l, r := 2 * i + 1, 2 * i + 2;
      HeightFits(n, l);
      HeightFits(n, r);
      var h := Greater(Height(n, l), Height(n, r));
      assert (2 * (i + 1)) * Pow2(h) <= n by {
        if h == Height(n, r) {
          Wider(2 * (i + 1), r + 1, Pow2(h));
        }
      }
      Regroup(i + 1, Pow2(h));
    }
  }

  lemma Wider(a: nat, b: nat, x: nat)
    requires a <= b
    ensures a * x <= b * x
  {}

  lemma Below32(k: nat)
    requires Pow2(k) < 0x1_0000_0000
    ensures k < 32
  {
    if k >= 32 {
      PowMonotone(32, k);
      PowOf32();
    }
  }

  lemma PowOf32()
    ensures Pow2(32) == 0x1_0000_0000
  {
    assert Pow2(8) == 0x100;
    PowSum(8, 8);
    PowSum(16, 16);
  }

  lemma {:induction false} BuiltHeight(tree: MTree, i: nat)
    requires tree.Laid() && BuiltBelow(tree.pkg, tree.fData[..], tree.nodes, tree.Views(), 0) && i < tree.nnodes
    ensures tree.nodes[i].height == Height(tree.nnodes, i)
    decreases tree.nnodes - i
  {
    var l, r := 2 * i + 1, 2 * i + 2;
    EverythingBuilt(tree.pkg, tree.fData[..], tree.nodes, tree.Views());
    assert BuiltAt(tree.pkg, tree.fData[..], tree.nodes, tree.Views(), i);
    assert tree.Views()[i] == tree.View(tree.nodes[i]);
    if IsInternal(tree.nnodes, i) {
      BuiltHeight(tree, l);
      BuiltHeight(tree, r);
      assert tree.Views()[l] == tree.View(tree.nodes[l]) && tree.Views()[r] == tree.View(tree.nodes[r]);
    }
  }

  /** Heights and depths stay below 32, so their 16-bit fields and the 16-bit depth argument lose nothing. */
  lemma WidthsSuffice(tree: MTree, i: nat)
    requires tree.Laid() && BuiltBelow(tree.pkg, tree.fData[..], tree.nodes, tree.Views(), 0) && i < tree.nnodes
    ensures tree.nodes[i].height == Height(tree.nnodes, i) < 32 && Depth(i) < 32
    ensures IsInternal(tree.nnodes, i) ==> tree.nodes[i].depth == Depth(i)
  {
    BuiltHeight(tree, i);
    EverythingBuilt(tree.pkg, tree.fData[..], tree.nodes, tree.Views());
    assert BuiltAt(tree.pkg, tree.fData[..], tree.nodes, tree.Views(), i);
    assert tree.Views()[i] == tree.View(tree.nodes[i]);
    HeightFits(tree.nnodes, i);
    Wider(1, i + 1, Pow2(Height(tree.nnodes, i)));
    Below32(Height(tree.nnodes, i));
    DepthFits(i);
    Below32(Depth(i));
  }
}
