/** The queries, as recursions over the linked nodes and loops over the arrays. */
module Queries {
  import opened Bytes
  import opened Sha256Spec
  import opened Shape
  import opened Merkle
  import opened MerkleTree
  import opened CompletedSubtrees
  import opened Reports
  import opened OffsetSearch

  /** The node's two texts are those of position i. */
  ghost predicate IsNode(p: Package, c: seq<Hash>, node: Node, i: nat)
    reads node`computed
    requires |p.expected| == p.Nodes() == |c|
  {
    i < p.Nodes() && node.expected == p.expected[i] && node.computed == c[i]
  }

  /** p and c are the tree's package and its computed hashes. */
  ghost predicate Reads(tree: MTree, p: Package, c: seq<Hash>)
    reads tree, tree.nodes
  {
    && tree.Valid() && p == tree.pkg && |c| == p.Nodes()
    && forall i | 0 <= i < p.Nodes() :: IsNode(p, c, tree.nodes[i], i)
  }

  lemma ReadsItself(tree: MTree)
    requires tree.Valid()
    ensures Reads(tree, tree.pkg, tree.Hashes())
  {
    forall i | 0 <= i < tree.nnodes ensures IsNode(tree.pkg, tree.Hashes(), tree.nodes[i], i) {
      assert Carries(tree.pkg, tree.nodes[i], i);
    }
  }

  /** A null array with count 0, or an array of exactly the given texts. */
  ghost predicate Lists(hashes: array?<Hash>, count: nat, texts: seq<Hash>)
    reads hashes
  {
    && count == |texts| && (hashes == null <==> count == 0)
    && (hashes != null ==> hashes[..] == texts)
  }

  method Single(text: Hash) returns (hashes: array<Hash>)
    ensures hashes[..] == [text]
  {
    hashes := new Hash[1];
    hashes[0] := text;
  }

  /** Joining the lists of the two children. */
  method JoinLists(left: array?<Hash>, right: array?<Hash>, lcount: nat, rcount: nat,
                   ghost ltexts: seq<Hash>, ghost rtexts: seq<Hash>) returns (hashes: array?<Hash>, count: nat)
    requires Lists(left, lcount, ltexts) && Lists(right, rcount, rtexts)
    ensures Lists(hashes, count, ltexts + rtexts)
  {
    if lcount > 0 && rcount > 0 {
      hashes := MergeArrays(left, right, lcount, rcount);
      count := lcount + rcount;
    } else if rcount > 0 {
      hashes, count := right, rcount;
    } else {
      hashes, count := left, lcount;
    }
  }

  lemma FrontierNodes(p: Package, c: seq<Hash>, i: nat)
    requires |p.expected| == p.Nodes() && |c| == p.Nodes() && i < p.Nodes()
    ensures NodesOf(p.Nodes(), Frontier(p, c, i))
    ensures Passes(p, c, i) ==> Texts(p, Frontier(p, c, i)) == [p.expected[i]]
    ensures !Passes(p, c, i) && !IsInternal(p.Nodes(), i) ==> Texts(p, Frontier(p, c, i)) == []
  {
    FrontierInRange(p, c, i);
    if Passes(p, c, i) {
      assert Frontier(p, c, i) == [i];
    }
  }

  lemma FrontierTexts(p: Package, c: seq<Hash>, i: nat, l: nat, r: nat)
    requires |p.expected| == p.Nodes() && |c| == p.Nodes() && l == 2 * i + 1 && r == l + 1 < p.Nodes()
    requires !Passes(p, c, i)
    ensures NodesOf(p.Nodes(), Frontier(p, c, i)) && NodesOf(p.Nodes(), Frontier(p, c, l))
    ensures NodesOf(p.Nodes(), Frontier(p, c, r))
    ensures Texts(p, Frontier(p, c, i)) == Texts(p, Frontier(p, c, l)) + Texts(p, Frontier(p, c, r))
  {
    FrontierInRange(p, c, l);
    FrontierInRange(p, c, r);
    FrontierSplits(p, c, i, l, r);
    TextsCat(p, Frontier(p, c, l), Frontier(p, c, r));
  }

  /** bpkg_get_largest_completed_subtree; p and c are the tree's package and hashes. */
  method LargestCompletedSubtree(tree: MTree, node: Node, ghost i: nat, ghost p: Package, ghost c: seq<Hash>)
    returns (hashes: array?<Hash>, count: nat)
    requires Reads(tree, p, c) && i < p.Nodes() && node == tree.nodes[i]
    ensures NodesOf(p.Nodes(), Frontier(p, c, i)) && Lists(hashes, count, Texts(p, Frontier(p, c, i)))
    decreases p.Nodes() - i, 1
  {
    FrontierNodes(p, c, i);
    assert IsNode(p, c, node, i) && Carries(p, node, i);
    var valid := node.CheckChunk();
    if valid {
      hashes := Single(node.expected);
      count := 1;
    } else if node.isLeaf {
      hashes, count := null, 0;
    } else {
      hashes, count := CompletedBelow(tree, node, i, 2 * i + 1, 2 * i + 2, p, c);
    }
  }

  /** The two recursive calls. */
  method CompletedBelow(tree: MTree, node: Node, ghost i: nat, ghost l: nat, ghost r: nat,
                        ghost p: Package, ghost c: seq<Hash>)
    returns (hashes: array?<Hash>, count: nat)
    requires Reads(tree, p, c) && IsInternal(p.Nodes(), i) && node == tree.nodes[i] && !Passes(p, c, i)
    requires l == 2 * i + 1 && r == l + 1
    ensures NodesOf(p.Nodes(), Frontier(p, c, i)) && Lists(hashes, count, Texts(p, Frontier(p, c, i)))
    decreases p.Nodes() - i, 0
  {
    assert tree.LinkedAt(i);
    FrontierTexts(p, c, i, l, r);
    ghost var ltexts, rtexts := Texts(p, Frontier(p, c, l)), Texts(p, Frontier(p, c, r));
    var left, lcount := LargestCompletedSubtree(tree, node.left, l, p, c);
    var right, rcount := LargestCompletedSubtree(tree, node.right, r, p, c);
    hashes, count := JoinLists(left, right, lcount, rcount, ltexts, rtexts);
  }

  lemma SubtreeTexts(p: Package, i: nat, l: nat, r: nat)
    requires |p.expected| == p.Nodes() && l == 2 * i + 1 && r == l + 1 < p.Nodes()
    ensures NodesOf(p.Nodes(), Leaves(p.Nodes(), i)) && NodesOf(p.Nodes(), Leaves(p.Nodes(), l))
    ensures NodesOf(p.Nodes(), Leaves(p.Nodes(), r))
    ensures Texts(p, Leaves(p.Nodes(), i)) == Texts(p, Leaves(p.Nodes(), l)) + Texts(p, Leaves(p.Nodes(), r))
  {
    LeavesInRange(p.Nodes(), l);
    LeavesInRange(p.Nodes(), r);
    LeavesSplit(p.Nodes(), i, l, r);
    TextsCat(p, Leaves(p.Nodes(), l), Leaves(p.Nodes(), r));
  }

  /** bpkg_get_subtree_chunks. */
  method SubtreeChunks(tree: MTree, node: Node?, ghost i: nat) returns (hashes: array?<Hash>, total: nat)
    requires tree.Valid() && (node != null ==> i < tree.nnodes && node == tree.nodes[i])
    ensures node == null ==> hashes == null && total == 0
    ensures node != null ==> NodesOf(tree.nnodes, Leaves(tree.nnodes, i))
    ensures node != null ==> Lists(hashes, total, Texts(tree.pkg, Leaves(tree.nnodes, i)))
    decreases tree.nnodes - i
  {
    if node == null {
      return null, 0;
    }
    ghost var p := tree.pkg;
    assert Carries(p, node, i);
    if node.isLeaf {
      hashes := Single(node.expected);
      total := 1;
      assert Leaves(tree.nnodes, i) == [i];
      return;
    }
    assert tree.LinkedAt(i);
    ghost var l, r := 2 * i + 1, 2 * i + 2;
    var left, lcount := SubtreeChunks(tree, node.left, l);
    var right, rcount := SubtreeChunks(tree, node.right, r);
    SubtreeTexts(p, i, l, r);
    LeavesInRange(tree.nnodes, l);
    hashes, total := JoinLists(left, right, lcount, rcount,
                               Texts(p, Leaves(tree.nnodes, l)), Texts(p, Leaves(tree.nnodes, r)));
  }

  /** Null for None, else the node at the position. */
  ghost predicate Found(tree: MTree, r: Node?, position: Option<nat>)
    reads tree
  {
    match position
    case None => r == null
    case Some(i) => i < |tree.nodes| && r == tree.nodes[i]
  }

  /** bpkg_find_node_from_hash: every mode scans the combined array from its start. */
  method FindNodeFromHash(tree: MTree, query: Hash, mode: SearchMode) returns (node: Node?)
    requires tree.Valid()
    ensures Found(tree, node, Lookup(tree.pkg, query, 0, SearchCount(tree.pkg, mode)))
  {
    var count := 0;
    match mode {
      case AllMode => count := tree.nnodes % 0x1_0000;
      case InternalMode => count := tree.nhashes % 0x1_0000;
      case ChunkMode => count := tree.nchunks % 0x1_0000;
    }
    assert count == SearchCount(tree.pkg, mode);
    var k := 0;
    while k < count
      invariant 0 <= k <= count
      invariant Lookup(tree.pkg, query, 0, count) == Lookup(tree.pkg, query, k, count)
    {
      var current := tree.nodes[k];
      assert Carries(tree.pkg, current, k);
      var same := SameText(current.expected, query);
      if same {
        return current;
      }
      k := k + 1;
    }
    return null;
  }

  /** bpkg_find_node_from_hash_offset. */
  method FindNodeFromHashOffset(tree: MTree, node: Node?, query: Hash, offset: nat, ghost i: nat) returns (r: Node?)
    requires tree.Valid() && (node != null ==> i < tree.nnodes && node == tree.nodes[i])
    ensures node == null ==> r == null
    ensures node != null ==> Found(tree, r, Search(tree.pkg, KeysOf(tree), i, query, offset))
    decreases tree.nnodes - i, 1
  {
    if node == null {
      return null;
    }
    assert Carries(tree.pkg, node, i);
    var same := SameText(node.expected, query);
    if same {
      return node;
    } else if node.isLeaf {
      return null;
    }
    assert tree.LinkedAt(i);
    r := FindInChild(tree, node.left, query, offset, 2 * i + 1);
    if r == null {
      r := FindInChild(tree, node.right, query, offset, 2 * i + 2);
    }
  }

  method FindInChild(tree: MTree, child: Node?, query: Hash, offset: nat, ghost i: nat) returns (r: Node?)
    requires tree.Valid() && i < tree.nnodes && child == tree.nodes[i]
    ensures var keys := KeysOf(tree);
      Found(tree, r, if keys.Admits(i, offset) then Search(tree.pkg, keys, i, query, offset) else None)
    decreases tree.nnodes - i, 2
  {
    if child != null && child.key0 <= offset && child.key1 >= offset {
      r := FindNodeFromHashOffset(tree, child, query, offset, i);
    } else {
      r := null;
    }
  }

  ghost function KeysOf(tree: MTree): (keys: Keys)
    reads tree, tree.nodes
    ensures |keys.lo| == |keys.hi| == |tree.nodes|
    ensures forall i | 0 <= i < |tree.nodes| :: keys.lo[i] == tree.nodes[i].key0 && keys.hi[i] == tree.nodes[i].key1
  {
    var nodes := tree.nodes;
    Keys(seq(|nodes|, i requires 0 <= i < |nodes| reads nodes => nodes[i].key0),
         seq(|nodes|, i requires 0 <= i < |nodes| reads nodes => nodes[i].key1))
  }

  /** A built tree has the keys the search results are stated for. */
  lemma BuiltTreeHasKeys(tree: MTree)
    requires tree.Laid() && BuiltBelow(tree.pkg, tree.fData[..], tree.nodes, tree.Views(), 0)
    ensures KeysBuilt(tree.pkg, KeysOf(tree))
  {
    var p, v, keys := tree.pkg, tree.Views(), KeysOf(tree);
    EverythingBuilt(p, tree.fData[..], tree.nodes, v);
    forall i | 0 <= i && IsInternal(p.Nodes(), i) ensures KeyBuilt(p, keys, i) {
      var l, r := 2 * i + 1, 2 * i + 2;
      assert BuiltAt(p, tree.fData[..], tree.nodes, v, i);
      assert v[i] == tree.View(tree.nodes[i]) && v[l] == tree.View(tree.nodes[l]) && v[r] == tree.View(tree.nodes[r]);
    }
  }

  // The reports.

  /** bpkg_get_completed_chunks. */
  method CompletedChunks(tree: MTree) returns (query: Query)
    requires tree.Valid()
    ensures NodesOf(tree.nnodes, Completed(tree.pkg, tree.Hashes(), ChunkNodes(tree.nnodes)))
    ensures query == CreateQuery(Texts(tree.pkg, Completed(tree.pkg, tree.Hashes(), ChunkNodes(tree.nnodes))))
  {
    ghost var p, c, from := tree.pkg, tree.Hashes(), tree.nhashes;
    ChunkNodesRead(tree);
    var hashes := CollectCompleted(tree.chkNodes, from, p, c);
    assert tree.Hashes() == c && Range(from, from + tree.nchunks) == ChunkNodes(tree.nnodes);
    query := Query(hashes, |hashes| % 0x1_0000);
  }

  lemma ChunkNodesRead(tree: MTree)
    requires tree.Valid()
    ensures tree.nhashes == tree.nnodes / 2 && tree.nhashes + |tree.chkNodes| == tree.nnodes == tree.pkg.Nodes()
    ensures forall k | 0 <= k < |tree.chkNodes| ::
      IsNode(tree.pkg, tree.Hashes(), tree.chkNodes[k], tree.nhashes + k)
  {
    ReadsItself(tree);
    forall k | 0 <= k < |tree.chkNodes|
      ensures IsNode(tree.pkg, tree.Hashes(), tree.chkNodes[k], tree.nhashes + k)
    {
      assert IsNode(tree.pkg, tree.Hashes(), tree.nodes[tree.nhashes + k], tree.nhashes + k);
    }
  }

  /** The scan of the chunk nodes, which sit in the array from position from on. */
  method CollectCompleted(chkNodes: seq<Node>, ghost from: nat, ghost p: Package, ghost c: seq<Hash>)
    returns (list: seq<Hash>)
    requires |p.expected| == p.Nodes() == |c| && from + |chkNodes| <= p.Nodes()
    requires forall k | 0 <= k < |chkNodes| :: IsNode(p, c, chkNodes[k], from + k)
    ensures NodesOf(p.Nodes(), Completed(p, c, Range(from, from + |chkNodes|)))
    ensures list == Texts(p, Completed(p, c, Range(from, from + |chkNodes|)))
  {
    ghost var done: seq<nat> := [];
    var hashes := new Hash[|chkNodes|];
    var count, k := 0, 0;
    while k < |chkNodes|
      invariant 0 <= count <= k <= |chkNodes|
      invariant NodesOf(p.Nodes(), done) && done == Completed(p, c, Range(from, from + k))
      invariant hashes[..count] == Texts(p, done)
    {
      ghost var i := from + k;
      assert IsNode(p, c, chkNodes[k], i);
      var valid := chkNodes[k].CheckChunk();
      CompletedSnoc(p, c, from, k);
      if valid {
        TextsSnoc(p, done, i);
        AppendText(hashes, count, chkNodes[k].expected);
        done := done + [i];
        count := count + 1;
      }
      k := k + 1;
    }
    list := hashes[..count];
  }

  lemma TextsSnoc(p: Package, done: seq<nat>, i: nat)
    requires |p.expected| == p.Nodes() && NodesOf(p.Nodes(), done) && i < p.Nodes()
    ensures NodesOf(p.Nodes(), done + [i]) && Texts(p, done + [i]) == Texts(p, done) + [p.expected[i]]
  {
    TextsCat(p, done, [i]);
  }

  method AppendText(hashes: array<Hash>, count: nat, text: Hash)
    requires count < hashes.Length
    modifies hashes
    ensures hashes[..count + 1] == old(hashes[..count]) + [text]
  {
    hashes[count] := text;
  }

  lemma CompletedSnoc(p: Package, c: seq<Hash>, from: nat, k: nat)
    requires |p.expected| == p.Nodes() && |c| == p.Nodes() && from + k < p.Nodes()
    ensures Completed(p, c, Range(from, from + k + 1)) ==
      Completed(p, c, Range(from, from + k)) + (if Passes(p, c, from + k) then [from + k] else [])
  {
    assert Range(from, from + k + 1) == Range(from, from + k) + [from + k];
    CompletedCat(p, c, Range(from, from + k), [from + k]);
  }

  function Listed(hashes: array?<Hash>, count: nat): seq<Hash>
    reads hashes
    requires hashes == null || count <= hashes.Length
  {
    if hashes == null then [] else hashes[..count]
  }

  /** bpkg_get_min_completed_hashes. */
  method MinCompletedHashes(tree: MTree) returns (query: Query)
    requires tree.Valid()
    ensures NodesOf(tree.nnodes, Frontier(tree.pkg, tree.Hashes(), 0))
    ensures query == CreateQuery(Texts(tree.pkg, Frontier(tree.pkg, tree.Hashes(), 0)))
  {
    ReadsItself(tree);
    var hashes, count := LargestCompletedSubtree(tree, tree.root, 0, tree.pkg, tree.Hashes());
    query := Query(Listed(hashes, count), count % 0x1_0000);
  }

  /** bpkg_get_all_chunk_hashes_from_hash. */
  method AllChunkHashesFromHash(tree: MTree, hash: Hash) returns (query: Query)
    requires tree.Valid()
    ensures query == CreateQuery(ChunkTexts(tree.pkg, hash))
  {
    var node := FindNodeFromHash(tree, hash, AllMode);
    ghost var i := Lookup(tree.pkg, hash, 0, SearchCount(tree.pkg, AllMode)).GetOr(0);
    var hashes, count := SubtreeChunks(tree, node, i);
    query := Query(Listed(hashes, count), count % 0x1_0000);
  }
}
