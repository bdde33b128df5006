/** The tree as the program holds it: linked nodes over a level-order array, changed in place. */
module MerkleTree {
  import opened Bytes
  import opened Sha256Spec
  import opened Shape
  import opened Merkle
  import Sha256

  class Node {
    const isLeaf: bool
    const expected: Hash
    const chunk: Option<Chunk>
    var data: Option<nat> // the chunk's data pointer, as a position in the file's bytes
    var computed: Hash
    var left: Node?
    var right: Node?
    var parent: Node?
    var depth: nat
    var height: nat
    var key0: nat
    var key1: nat

    /** Neither parent nor key is given a value. */
    constructor (expected: Hash, isLeaf: bool, chunk: Option<Chunk>)
      ensures this.expected == expected && this.isLeaf == isLeaf && this.chunk == chunk
      ensures left == null && right == null && depth == 0 && height == 0
      ensures data == None && computed == Zeros(64)
    {
      this.expected, this.isLeaf, this.chunk := expected, isLeaf, chunk;
      left, right, depth, height := null, null, 0, 0;
      data, computed := None, Zeros(64);
    }

    /** check_chunk: do the expected and the computed text agree? */
    method CheckChunk() returns (valid: bool)
      ensures valid == StrnEqual(expected, computed, 64)
    {
      valid := SameText(expected, computed);
    }
  }

  /** strncmp over 64 characters. */
  method SameText(a: Hash, b: Hash) returns (same: bool)
    ensures same == StrnEqual(a, b, 64)
  {
    var k := 0;
    while k < 64 && a[k] == b[k] && a[k] != NUL
      invariant 0 <= k <= 64
      invariant StrnEqual(a, b, 64) <==> StrnEqual(a[k..], b[k..], 64 - k)
    {
      StrnStep(a, b, k);
      k := k + 1;
    }
    same := k == 64 || a[k] == b[k];
  }

  lemma StrnStep(a: seq<byte>, b: seq<byte>, k: nat)
    requires |a| == 64 && |b| == 64 && k < 64 && a[k] == b[k] && a[k] != NUL
    ensures StrnEqual(a[k..], b[k..], 64 - k) <==> StrnEqual(a[k + 1..], b[k + 1..], 64 - (k + 1))
  {
    assert a[k..][1..] == a[k + 1..] && b[k..][1..] == b[k + 1..];
  }

  ghost predicate IsChunkNode(node: Node, fileSize: nat) {
    && node.isLeaf && node.chunk.Some? && node.chunk.value.size < 0x1_0000_0000
    && node.chunk.value.offset + node.chunk.value.size <= fileSize
  }

  ghost function PackageOf(nodes: seq<Node>, chkNodes: seq<Node>): Package {
    Package(HexDigest, seq(|nodes|, i requires 0 <= i < |nodes| => nodes[i].expected),
            seq(|chkNodes|, k requires 0 <= k < |chkNodes| => chkNodes[k].chunk.GetOr(Chunk(0, 0))))
  }

  /** Node i of the array carries what the package says about it. */
  ghost predicate Carries(p: Package, node: Node, i: nat)
    requires i < p.Nodes() == |p.expected|
  {
    && node.expected == p.expected[i]
    && node.isLeaf == !IsInternal(p.Nodes(), i)
    && (node.isLeaf ==> node.chunk == Some(p.ChunkOf(i)) && node.chunk.value.size < 0x1_0000_0000)
  }

  lemma PackageCarried(hsh: seq<Node>, chk: seq<Node>, fileSize: nat)
    requires |chk| == |hsh| + 1
    requires forall i | 0 <= i < |hsh| :: !hsh[i].isLeaf
    requires forall k | 0 <= k < |chk| :: IsChunkNode(chk[k], fileSize)
    ensures var p := PackageOf(hsh + chk, chk);
      && p.Valid(fileSize) && p.Nodes() == |hsh + chk|
      && forall i | 0 <= i < p.Nodes() :: Carries(p, (hsh + chk)[i], i)
  {
    var p := PackageOf(hsh + chk, chk);
    forall k | 0 <= k < |p.chunks| ensures p.chunks[k].offset + p.chunks[k].size <= fileSize {
      assert IsChunkNode(chk[k], fileSize);
    }
    forall i | 0 <= i < p.Nodes() ensures Carries(p, (hsh + chk)[i], i) {
      if i >= |hsh| {
        assert IsChunkNode(chk[i - |hsh|], fileSize);
      }
    }
  }

  /** The fields of a node that the build sets, as a value. */
  datatype NodeView = NodeView(left: Node?, right: Node?, parent: Node?, height: nat, depth: nat, key0: nat, key1: nat,
                               data: Option<nat>, computed: Hash)

  /** Links, height, depth, key and hash of node i are what the build on these bytes gives it. */
  ghost predicate BuiltAt(p: Package, bytes: seq<byte>, nodes: seq<Node>, v: seq<NodeView>, i: nat)
    requires p.Valid(|bytes|) && |nodes| == |v| == p.Nodes() && i < p.Nodes()
  {
    && v[i].computed == Rebuild(p, bytes, i)
    && if IsInternal(p.Nodes(), i) then
      var l, r := 2 * i + 1, 2 * i + 2;
      && v[i].left == nodes[l] && v[l].parent == nodes[i] && v[i].right == nodes[r] && v[r].parent == nodes[i]
      && v[i].height == 1 + Greater(v[l].height, v[r].height) && v[i].depth == Depth(i)
      && v[i].key0 == (if IsInternal(p.Nodes(), l) then v[l].key0 else p.ChunkOf(l).offset)
      && v[i].key1 == (if IsInternal(p.Nodes(), l) then v[r].key1 else p.ChunkOf(r).offset)
    else
      v[i].height == 0 && v[i].data == Some(p.ChunkOf(i).offset)
  }

  function Greater(a: nat, b: nat): nat { if a >= b then a else b }

  ghost predicate BuiltBelow(p: Package, bytes: seq<byte>, nodes: seq<Node>, v: seq<NodeView>, i: nat)
    requires p.Valid(|bytes|) && |nodes| == |v| == p.Nodes()
  {
    forall j | 0 <= j < p.Nodes() && Under(i, j) :: BuiltAt(p, bytes, nodes, v, j)
  }

  function LinkedViews(v: seq<NodeView>, i: nat, vi: NodeView, x: nat, parent: Node): (w: seq<NodeView>)
    requires i < x < |v|
    ensures |w| == |v| && w[i] == vi && w[x] == v[x].(parent := parent)
    ensures forall j | 0 <= j < |v| && j != i && j != x :: w[j] == v[j]
  {
    v[i := vi][x := v[x].(parent := parent)]
  }

  /** Building the right subtree keeps the left one. */
  lemma LeftKept(p: Package, bytes: seq<byte>, nodes: seq<Node>, v: seq<NodeView>, w: seq<NodeView>,
                 i: nat, l: nat, r: nat)
    requires p.Valid(|bytes|) && |nodes| == |v| == |w| == p.Nodes() && l == 2 * i + 1 && r == l + 1 < p.Nodes()
    requires BuiltBelow(p, bytes, nodes, v, l)
    requires forall j | 0 <= j < |v| && j != i && !Under(r, j) :: w[j] == v[j]
    ensures BuiltBelow(p, bytes, nodes, w, l)
  {
    forall j | 0 <= j < |v| && Under(l, j) ensures w[j] == v[j] {
      UnderChild(i, j);
    }
    UnderChild(i, l);
    BuiltBelowKept(p, bytes, nodes, v, w, l);
  }

  /** Building the subtree of a child x of i and linking it changes that subtree and the one link of i. */
  lemma Attached(p: Package, bytes: seq<byte>, nodes: seq<Node>, v: seq<NodeView>, built: seq<NodeView>,
                 w: seq<NodeView>, i: nat, vi: NodeView, x: nat)
    requires p.Valid(|bytes|) && |nodes| == |v| == |built| == |w| == p.Nodes() && i < x < p.Nodes()
    requires BuiltBelow(p, bytes, nodes, built, x)
    requires forall j | 0 <= j < |v| && !Under(x, j) :: built[j] == v[j]
    requires w == LinkedViews(built, i, vi, x, nodes[i])
    ensures built[i] == v[i] && w[i] == vi && w[x].parent == nodes[i]
    ensures BuiltBelow(p, bytes, nodes, w, x)
    ensures forall j | 0 <= j < |v| && j != i && !Under(x, j) :: w[j] == v[j]
  {
    assert !Under(x, i) && Under(x, x);
    BuiltBelowKept(p, bytes, nodes, built, w, x);
  }

  lemma FinishKeeps(v0: seq<NodeView>, v2: seq<NodeView>, v3: seq<NodeView>, i: nat)
    requires |v0| == |v2| == |v3| && forall j | 0 <= j < |v0| && !Under(i, j) :: v2[j] == v0[j]
    requires forall j | 0 <= j < |v0| && j != i :: v3[j] == v2[j]
    ensures forall j | 0 <= j < |v0| && !Under(i, j) :: v3[j] == v0[j]
  {
    assert Under(i, i);
  }

  /** Building the two subtrees of i changes nothing outside that of i. */
  lemma OutsideKept(v0: seq<NodeView>, v1: seq<NodeView>, v2: seq<NodeView>, i: nat)
    requires |v0| == |v1| == |v2|
    requires forall j | 0 <= j < |v0| && j != i && !Under(2 * i + 1, j) :: v1[j] == v0[j]
    requires forall j | 0 <= j < |v0| && j != i && !Under(2 * i + 2, j) :: v2[j] == v1[j]
    ensures forall j | 0 <= j < |v0| && !Under(i, j) :: v2[j] == v0[j]
  {
    forall j | 0 <= j < |v0| && !Under(i, j) ensures v2[j] == v0[j] {
      UnderChild(i, j);
    }
  }

  lemma BuiltFromChildren(p: Package, bytes: seq<byte>, nodes: seq<Node>, v: seq<NodeView>, w: seq<NodeView>, i: nat)
    requires p.Valid(|bytes|) && |nodes| == |v| == |w| == p.Nodes() && IsInternal(p.Nodes(), i)
    requires BuiltBelow(p, bytes, nodes, v, 2 * i + 1) && BuiltBelow(p, bytes, nodes, v, 2 * i + 2)
    requires forall j | 0 <= j < p.Nodes() && j != i :: w[j] == v[j]
    requires w[i].computed == p.digest(Join(v[2 * i + 1].computed, v[2 * i + 2].computed))
    requires w[i].left == nodes[2 * i + 1] && v[2 * i + 1].parent == nodes[i]
    requires w[i].right == nodes[2 * i + 2] && v[2 * i + 2].parent == nodes[i]
    requires w[i].height == 1 + Greater(v[2 * i + 1].height, v[2 * i + 2].height) && w[i].depth == Depth(i)
    requires w[i].key0 == if IsInternal(p.Nodes(), 2 * i + 1) then v[2 * i + 1].key0 else p.ChunkOf(2 * i + 1).offset
    requires w[i].key1 == if IsInternal(p.Nodes(), 2 * i + 1) then v[2 * i + 2].key1 else p.ChunkOf(2 * i + 2).offset
    ensures BuiltBelow(p, bytes, nodes, w, i)
  {
    var l, r := 2 * i + 1, 2 * i + 2;
    UnderChild(i, i);
    BuiltBelowKept(p, bytes, nodes, v, w, l);
    BuiltBelowKept(p, bytes, nodes, v, w, r);
    assert BuiltAt(p, bytes, nodes, v, l) && BuiltAt(p, bytes, nodes, v, r);
    forall j | 0 <= j < p.Nodes() && Under(i, j) ensures BuiltAt(p, bytes, nodes, w, j) {
      UnderChild(i, j);
    }
  }

  lemma EverythingBuilt(p: Package, bytes: seq<byte>, nodes: seq<Node>, v: seq<NodeView>)
    requires p.Valid(|bytes|) && |nodes| == |v| == p.Nodes() && BuiltBelow(p, bytes, nodes, v, 0)
    ensures forall i | 0 <= i < p.Nodes() :: BuiltAt(p, bytes, nodes, v, i)
  {
    forall i | 0 <= i < p.Nodes() ensures BuiltAt(p, bytes, nodes, v, i) {
      RootAbove(i);
    }
  }

  /** What is built below x does not depend on nodes elsewhere, nor on the parent link of x. */
  lemma BuiltBelowKept(p: Package, bytes: seq<byte>, nodes: seq<Node>, v: seq<NodeView>, w: seq<NodeView>, x: nat)
    requires p.Valid(|bytes|) && |nodes| == |v| == |w| == p.Nodes() && x < p.Nodes()
    requires BuiltBelow(p, bytes, nodes, v, x)
    requires forall j | 0 <= j < p.Nodes() && j != x && Under(x, j) :: w[j] == v[j]
    requires w[x] == v[x].(parent := w[x].parent)
    ensures BuiltBelow(p, bytes, nodes, w, x)
  {
    forall j | 0 <= j < p.Nodes() && Under(x, j) ensures BuiltAt(p, bytes, nodes, w, j) {
      assert BuiltAt(p, bytes, nodes, v, j);
      ChildrenUnder(x, j);
      assert j != x ==> w[j] == v[j];
      BuiltAtKept(p, bytes, nodes, v, w, j);
    }
  }

  lemma BuiltAtKept(p: Package, bytes: seq<byte>, nodes: seq<Node>, v: seq<NodeView>, w: seq<NodeView>, j: nat)
    requires p.Valid(|bytes|) && |nodes| == |v| == |w| == p.Nodes() && j < p.Nodes()
    requires BuiltAt(p, bytes, nodes, v, j) && w[j] == v[j].(parent := w[j].parent)
    requires IsInternal(p.Nodes(), j) ==> w[2 * j + 1] == v[2 * j + 1] && w[2 * j + 2] == v[2 * j + 2]
    ensures BuiltAt(p, bytes, nodes, w, j)
  {}

  lemma DepthOfChild(i: nat, x: nat)
    requires x == 2 * i + 1 || x == 2 * i + 2
    ensures Depth(x) == Depth(i) + 1
  {}

  class MTree {
    var root: Node?
    var nnodes: nat
    var nchunks: nat
    var nhashes: nat
    var nodes: seq<Node>
    var chkNodes: seq<Node>
    var hshNodes: seq<Node>
    var fData: array<byte>

    // What parsing leaves behind, and the two arrays combined.

    ghost predicate Parsed()
      reads this
    {
      && nhashes == |hshNodes| && nchunks == |chkNodes| && nchunks == nhashes + 1
      && 2 * (nhashes + nchunks) < 0x1_0000_0000
      && Distinct(hshNodes + chkNodes)
      && (forall i | 0 <= i < nhashes :: !hshNodes[i].isLeaf)
      && (forall k | 0 <= k < nchunks :: IsChunkNode(chkNodes[k], fData.Length))
    }

    ghost var pkg: Package // the package as a value; the nodes' constants and the arrays never change

    ghost predicate Laid()
      reads this
    {
      && nnodes == |nodes| && nchunks == nhashes + 1 && nnodes == nhashes + nchunks
      && nchunks == |chkNodes| && chkNodes == nodes[nhashes..]
      && 2 * nnodes < 0x1_0000_0000
      && Distinct(nodes)
      && pkg.digest == HexDigest && pkg.Valid(fData.Length) && pkg.Nodes() == nnodes
      && forall i | 0 <= i < nnodes :: Carries(pkg, nodes[i], i)
    }

    ghost function Hashes(): (c: seq<Hash>)
      reads this, nodes
      ensures |c| == |nodes| && forall i | 0 <= i < |nodes| :: c[i] == nodes[i].computed
    {
      seq(|nodes|, i requires 0 <= i < |nodes| reads this, nodes => nodes[i].computed)
    }

    ghost function View(node: Node): NodeView
      reads node
    {
      NodeView(node.left, node.right, node.parent, node.height, node.depth, node.key0, node.key1,
               node.data, node.computed)
    }

    ghost function Views(): (v: seq<NodeView>)
      reads this, nodes
      ensures |v| == |nodes| && forall i | 0 <= i < |nodes| :: v[i] == View(nodes[i])
    {
      seq(|nodes|, i requires 0 <= i < |nodes| reads this, nodes => View(nodes[i]))
    }

    ghost function TreeState(): State
      reads this, nodes, fData
    {
      State(fData[..], Hashes())
    }

    ghost predicate LinkedAt(i: nat)
      reads this, nodes`left, nodes`right, nodes`parent, nodes`data
      requires Laid() && i < nnodes
    {
      if IsInternal(nnodes, i) then
        && nodes[i].left == nodes[2 * i + 1] && nodes[2 * i + 1].parent == nodes[i]
        && nodes[i].right == nodes[2 * i + 2] && nodes[2 * i + 2].parent == nodes[i]
      else nodes[i].data == Some(nodes[i].chunk.value.offset)
    }

    ghost predicate Linked()
      reads this, nodes`left, nodes`right, nodes`parent, nodes`data
    {
      Laid() && forall i | 0 <= i < nnodes :: LinkedAt(i)
    }

    /** The built tree; that the root has no parent is an assumption, the program never sets it. */
    ghost predicate Valid()
      reads this, nodes`left, nodes`right, nodes`parent, nodes`data
    {
      Linked() && root == nodes[0] && nodes[0].parent == null
    }

    // Hashing one node.

    /** A null or internal node is left alone. */
    method ComputeChunkHash(node: Node?, ghost i: nat)
      requires Laid() && i < nnodes && (node != null ==> node == nodes[i])
      requires node != null && node.isLeaf ==> node.data == Some(node.chunk.value.offset)
      modifies NodeAt(i)`computed
      ensures node != null && !IsInternal(nnodes, i) ==>
        Hashes() == old(Hashes())[i := HexDigest(ChunkBytes(pkg, fData[..], i))]
      ensures node == null || IsInternal(nnodes, i) ==> Hashes() == old(Hashes())
      ensures node != null && node.isLeaf ==>
        && node.chunk.Some? && node.chunk.value.offset + node.chunk.value.size <= fData.Length
        && var c := node.chunk.value; node.computed == HexDigest(fData[c.offset..c.offset + c.size])
    {
      assert Carries(pkg, nodes[i], i);
      if node == null || !node.isLeaf || node.chunk.None? {
        return;
      }
      var p, size := node.data.value, node.chunk.value.size;
      node.computed := Sha256.ComputeChunkHash(fData[p..p + size]);
    }

    method ComputeInternalHash(node: Node, ghost i: nat)
      requires Laid() && IsInternal(nnodes, i) && node == nodes[i] && LinkedAt(i)
      modifies node`computed
      ensures Hashes() == Rehashed(pkg, old(Hashes()), i)
      ensures node.left != null && node.right != null
      ensures var l: seq<byte>, r: seq<byte> := node.left.computed, node.right.computed;
        node.computed == HexDigest(l + r)
    {
      node.computed := Sha256.ComputeInternalHash(node.left.computed, node.right.computed);
    }

    // The incremental update.

    /** The step to the parent: rehash it from its two children. */
    method RehashParent(node: Node, ghost i: nat) returns (parent: Node?)
      requires Valid() && i < nnodes && node == nodes[i]
      modifies nodes`computed
      ensures Valid() && pkg == old(pkg)
      ensures i == 0 ==> parent == null && Hashes() == old(Hashes())
      ensures i > 0 ==> parent == nodes[Parent(i)] && Hashes() == Rehashed(pkg, old(Hashes()), Parent(i))
    {
      if i > 0 {
        assert LinkedAt(Parent(i));
      }
      parent := node.parent;
      if parent != null {
        ComputeInternalHash(parent, Parent(i));
      }
    }

    method UpdateParentHashes(node: Node?, ghost i: nat)
      requires Valid()
      requires node != null ==> i < nnodes && node == nodes[i]
      modifies nodes`computed
      ensures Valid() && pkg == old(pkg)
      ensures node == null ==> Hashes() == old(Hashes())
      ensures node != null ==> Hashes() == Climb(pkg, old(Hashes()), i)
      decreases i
    {
      if node != null {
        var parent := RehashParent(node, i);
        if parent != null {
          UpdateParentHashes(parent, Parent(i));
        }
      }
    }

    /**
     * update_chunk_node: the bytes, the leaf, the ancestors. When the write changed no other chunk, a
     * tree that was as a rebuild would leave it still is.
     */
    method UpdateChunkNode(node: Node, newdata: seq<byte>, dataSize: nat, offset: nat, ghost i: nat) returns (r: int)
      requires Valid() && i < nnodes && node == nodes[i]
      requires node.isLeaf ==> CanInstall(pkg, TreeState(), i, newdata, dataSize, offset)
      modifies fData, nodes`computed
      ensures Valid() && pkg == old(pkg)
      ensures !node.isLeaf ==> r == -1 && TreeState() == old(TreeState())
      ensures node.isLeaf ==> r == 0 && TreeState() == Install(pkg, old(TreeState()), i, newdata, dataSize, offset)
    {
      if !node.isLeaf {
        return -1;
      }
      assert Carries(pkg, node, i) && LinkedAt(i);
      ghost var c := Hashes();
      var copySize := CopySize(dataSize, node.chunk.value.size);
      Memcpy(fData, offset, newdata[..copySize]);
      ghost var bytes := fData[..];
      assert Hashes() == c;
      ComputeChunkHash(node, i);
      UpdateParentHashes(node, i);
      assert fData[..] == bytes;
      r := 0;
    }

    // The build.

    /** combine_nodes: the hash nodes, then the chunk nodes. */
    method CombineNodes()
      requires Parsed()
      modifies this`nodes, this`nnodes, this`pkg
      ensures Laid() && nodes == hshNodes + chkNodes
    {
      nnodes := nhashes + nchunks;
      nodes := [];
      var i := 0;
      while i < nhashes
        invariant Parsed() && nnodes == nhashes + nchunks
        invariant 0 <= i <= nhashes && nodes == hshNodes[..i]
      {
        nodes := nodes + [hshNodes[i]];
        i := i + 1;
      }
      i := 0;
      while i < nchunks
        invariant Parsed() && nnodes == nhashes + nchunks
        invariant 0 <= i <= nchunks && nodes == hshNodes + chkNodes[..i]
      {
        nodes := nodes + [chkNodes[i]];
        i := i + 1;
      }
      assert chkNodes[..nchunks] == chkNodes;
      pkg := PackageOf(nodes, chkNodes);
      PackageCarried(hshNodes, chkNodes, fData.Length);
    }

    ghost predicate PointedAt(i: nat)
      reads this, nodes`data
      requires Laid() && i < nnodes
    {
      !IsInternal(nnodes, i) ==> nodes[i].data == Some(nodes[i].chunk.value.offset)
    }

    ghost predicate Pointed()
      reads this, nodes`data
    {
      Laid() && forall i | 0 <= i < nnodes :: PointedAt(i)
    }

    ghost function NodeAt(i: nat): Node
      reads this
      requires Laid() && i < nnodes
    {
      nodes[i]
    }

    ghost predicate LeafHashed(i: nat)
      reads this, NodeAt(i)`computed, fData
      requires Laid() && i < nnodes && !IsInternal(nnodes, i)
    {
      nodes[i].computed == HexDigest(ChunkBytes(pkg, fData[..], i))
    }

    /** init_chunks_data: every chunk node is pointed at its bytes and hashed. */
    method InitChunksData() returns (r: int)
      requires Laid()
      modifies nodes`data, nodes`computed
      ensures r == 0 && Pointed()
      ensures forall i | 0 <= i < nnodes && !IsInternal(nnodes, i) :: LeafHashed(i)
      ensures forall i | 0 <= i < nnodes && IsInternal(nnodes, i) :: View(nodes[i]) == old(View(nodes[i]))
    {
      var k := 0;
      while k < nchunks
        invariant 0 <= k <= nchunks && Laid()
        invariant forall i | 0 <= i < nhashes :: View(nodes[i]) == old(View(nodes[i]))
        invariant forall i | nhashes <= i < nhashes + k :: PointedAt(i) && LeafHashed(i)
      {
        var node := chkNodes[k];
        assert node == nodes[nhashes + k] && Carries(pkg, node, nhashes + k);
        if node.chunk.None? {
          return -1;
        }
        InitChunk(node, nhashes + k);
        k := k + 1;
      }
      return 0;
    }

    method InitChunk(node: Node, ghost i: nat)
      requires Laid() && i < nnodes && node == nodes[i] && node.isLeaf
      modifies node`data, node`computed
      ensures PointedAt(i) && LeafHashed(i)
      ensures forall j | 0 <= j < nnodes && j != i && !IsInternal(nnodes, j) && old(PointedAt(j) && LeafHashed(j)) ::
        PointedAt(j) && LeafHashed(j)
    {
      assert forall j | 0 <= j < nnodes && j != i :: nodes[j] != nodes[i];
      node.data := Some(node.chunk.value.offset);
      ComputeChunkHash(node, i);
    }

    /** mtree_from_lvlorder: builds the subtree of node i, visiting its nodes in preorder, and no other node. */
    method FromLvlOrder(i: nat, depth: nat) returns (node: Node?, ghost visited: seq<nat>)
      requires Pointed() && depth == Depth(i)
      modifies nodes
      ensures Pointed()
      ensures i >= nnodes ==> node == null && Views() == old(Views())
      ensures i < nnodes ==> node == nodes[i] && visited == Preorder(nnodes, i)
      ensures i < nnodes ==> Views()[i].parent == old(Views())[i].parent
      ensures i < nnodes ==> BuiltBelow(pkg, fData[..], nodes, Views(), i)
      ensures forall j | 0 <= j < nnodes && !Under(i, j) :: Views()[j] == old(Views())[j]
      decreases nnodes - i, 3
    {
      if i >= nnodes {
        return null, [];
      }
      node := nodes[i];
      if 2 * i + 1 < nnodes && 2 * i + 2 < nnodes {
        visited := BuildInternal(i, depth);
      } else {
        FinishLeaf(i);
        visited := [i];
      }
    }

    method BuildInternal(i: nat, depth: nat) returns (ghost visited: seq<nat>)
      requires Pointed() && IsInternal(nnodes, i) && depth == Depth(i)
      modifies nodes
      ensures Pointed() && Views()[i].parent == old(Views())[i].parent && visited == Preorder(nnodes, i)
      ensures BuiltBelow(pkg, fData[..], nodes, Views(), i)
      ensures forall j | 0 <= j < nnodes && !Under(i, j) :: Views()[j] == old(Views())[j]
      decreases nnodes - i, 2
    {
      ghost var v0 := Views();
      visited := BuildChildren(i, 2 * i + 1, 2 * i + 2, depth);
      ghost var v2 := Views();
      FinishInternal(i, depth);
      FinishKeeps(v0, v2, Views(), i);
    }

    /** Both subtrees, and the links to them. */
    method BuildChildren(i: nat, l: nat, r: nat, depth: nat) returns (ghost visited: seq<nat>)
      requires Pointed() && IsInternal(nnodes, i) && depth == Depth(i) && l == 2 * i + 1 && r == 2 * i + 2
      modifies nodes
      ensures Pointed() && Views()[i].parent == old(Views())[i].parent && visited == Preorder(nnodes, i)
      ensures LinkedAt(i)
      ensures BuiltBelow(pkg, fData[..], nodes, Views(), l) && BuiltBelow(pkg, fData[..], nodes, Views(), r)
      ensures forall j | 0 <= j < nnodes && !Under(i, j) :: Views()[j] == old(Views())[j]
      decreases nnodes - i, 1
    {
      ghost var v0 := Views();
      ghost var left := AttachLeft(i, l, depth);
      ghost var v1, bytes := Views(), fData[..];
      ghost var right := AttachRight(i, r, depth);
      ghost var v2 := Views();
      assert fData[..] == bytes;
      LeftKept(pkg, bytes, nodes, v1, v2, i, l, r);
      LinkedByViews(i, l, r);
      PreorderSplits(nnodes, i, l, r);
      visited := [i] + left + right;
      OutsideKept(v0, v1, v2, i);
    }

    lemma LinkedByViews(i: nat, l: nat, r: nat)
      requires Laid() && IsInternal(nnodes, i) && l == 2 * i + 1 && r == l + 1
      requires Views()[i].left == nodes[l] && Views()[l].parent == nodes[i]
      requires Views()[i].right == nodes[r] && Views()[r].parent == nodes[i]
      ensures LinkedAt(i)
    {
      assert View(nodes[i]) == Views()[i] && View(nodes[l]) == Views()[l] && View(nodes[r]) == Views()[r];
    }

    method LinkLeft(node: Node, left: Node, ghost i: nat)
      requires Pointed() && IsInternal(nnodes, i) && node == nodes[i] && left == nodes[2 * i + 1]
      modifies node`left, left`parent
      ensures Pointed()
      ensures Views() == LinkedViews(old(Views()), i, old(Views())[i].(left := left), 2 * i + 1, node)
    {
      node.left := left;
      left.parent := node;
    }

    method LinkRight(node: Node, right: Node, ghost i: nat)
      requires Pointed() && IsInternal(nnodes, i) && node == nodes[i] && right == nodes[2 * i + 2]
      modifies node`right, right`parent
      ensures Pointed()
      ensures Views() == LinkedViews(old(Views()), i, old(Views())[i].(right := right), 2 * i + 2, node)
    {
      node.right := right;
      right.parent := node;
    }

    method AttachLeft(i: nat, iLeft: nat, depth: nat) returns (ghost visited: seq<nat>)
      requires Pointed() && IsInternal(nnodes, i) && depth == Depth(i) && iLeft == 2 * i + 1
      modifies nodes
      ensures Pointed() && BuiltBelow(pkg, fData[..], nodes, Views(), iLeft)
      ensures visited == Preorder(nnodes, iLeft)
      ensures Views()[i] == old(Views())[i].(left := nodes[iLeft])
      ensures Views()[iLeft].parent == nodes[i]
      ensures forall j | 0 <= j < nnodes && j != i && !Under(iLeft, j) :: Views()[j] == old(Views())[j]
      decreases nnodes - i, 0
    {
      ghost var v := Views();
      var left: Node?;
      DepthOfChild(i, iLeft);
      left, visited := FromLvlOrder(iLeft, depth + 1);
      ghost var built, bytes := Views(), fData[..];
      LinkLeft(nodes[i], left, i);
      assert fData[..] == bytes;
      Attached(pkg, bytes, nodes, v, built, Views(), i, built[i].(left := left), iLeft);
    }

    method AttachRight(i: nat, iRight: nat, depth: nat) returns (ghost visited: seq<nat>)
      requires Pointed() && IsInternal(nnodes, i) && depth == Depth(i) && iRight == 2 * i + 2
      modifies nodes
      ensures Pointed() && BuiltBelow(pkg, fData[..], nodes, Views(), iRight)
      ensures visited == Preorder(nnodes, iRight)
      ensures Views()[i] == old(Views())[i].(right := nodes[iRight])
      ensures Views()[iRight].parent == nodes[i]
      ensures forall j | 0 <= j < nnodes && j != i && !Under(iRight, j) :: Views()[j] == old(Views())[j]
      decreases nnodes - i, 0
    {
      ghost var v := Views();
      var right: Node?;
      DepthOfChild(i, iRight);
      right, visited := FromLvlOrder(iRight, depth + 1);
      ghost var built, bytes := Views(), fData[..];
      LinkRight(nodes[i], right, i);
      assert fData[..] == bytes;
      Attached(pkg, bytes, nodes, v, built, Views(), i, built[i].(right := right), iRight);
    }

    /** The metadata and the hash of an internal node whose children are built. */
    method FinishInternal(i: nat, depth: nat)
      requires Pointed() && IsInternal(nnodes, i) && LinkedAt(i) && depth == Depth(i)
      requires BuiltBelow(pkg, fData[..], nodes, Views(), 2 * i + 1)
      requires BuiltBelow(pkg, fData[..], nodes, Views(), 2 * i + 2)
      modifies nodes[i]
      ensures Pointed() && BuiltBelow(pkg, fData[..], nodes, Views(), i)
      ensures Views()[i].parent == old(Views())[i].parent
      ensures forall j | 0 <= j < nnodes && j != i :: Views()[j] == old(Views())[j]
    {
      var node := nodes[i];
      ghost var v, bytes := Views(), fData[..];
      SetMetadata(node, depth, i);
      ComputeInternalHash(node, i);
      assert fData[..] == bytes;
      BuiltFromChildren(pkg, bytes, nodes, v, Views(), i);
    }

    method SetMetadata(node: Node, depth: nat, ghost i: nat)
      requires Pointed() && IsInternal(nnodes, i) && LinkedAt(i) && node == nodes[i]
      modifies node`height, node`depth, node`key0, node`key1
      ensures Pointed() && LinkedAt(i)
      ensures node.height == 1 + Greater(nodes[2 * i + 1].height, nodes[2 * i + 2].height) && node.depth == depth
      ensures node.key0 ==
        if IsInternal(nnodes, 2 * i + 1) then nodes[2 * i + 1].key0 else pkg.ChunkOf(2 * i + 1).offset
      ensures node.key1 ==
        if IsInternal(nnodes, 2 * i + 1) then nodes[2 * i + 2].key1 else pkg.ChunkOf(2 * i + 2).offset
    {
      node.height := 1 + Greater(node.left.height, node.right.height);
      node.depth := depth;
      if node.left.isLeaf {
        node.key0, node.key1 := node.left.chunk.value.offset, node.right.chunk.value.offset;
      } else {
        node.key0, node.key1 := node.left.key0, node.right.key1;
      }
    }

    method FinishLeaf(i: nat)
      requires Pointed() && i < nnodes && !IsInternal(nnodes, i)
      modifies nodes[i]
      ensures Pointed() && BuiltBelow(pkg, fData[..], nodes, Views(), i)
      ensures Views()[i].parent == old(Views())[i].parent
      ensures forall j | 0 <= j < nnodes && j != i :: Views()[j] == old(Views())[j]
    {
      assert PointedAt(i);
      nodes[i].height := 0;
      ComputeChunkHash(nodes[i], i);
      forall j | 0 <= j < nnodes && Under(i, j) ensures BuiltAt(pkg, fData[..], nodes, Views(), j) {
        LeafAlone(nnodes, i, j);
      }
    }

    /**
     * mtree_build once the file is mapped: the pointers, then the nodes from the root down. The pointers
     * are refused only for a chunk node without a chunk.
     */
    method Build()
      requires Laid() && nodes[0].parent == null
      modifies this`root, nodes
      ensures Valid() && BuiltBelow(pkg, fData[..], nodes, Views(), 0)
      ensures Consistent(pkg, fData[..], Hashes())
      ensures forall i | 0 <= i < nnodes && IsInternal(nnodes, i) ::
        && nodes[i].left == nodes[2 * i + 1] && nodes[i].right == nodes[2 * i + 2]
        && var l: seq<byte>, r: seq<byte> := nodes[i].left.computed, nodes[i].right.computed;
          nodes[i].computed == HexDigest(l + r)
    {
      var _ := InitChunksData();
      var top, _ := FromLvlOrder(0, 0);
      ghost var v, bytes := Views(), fData[..];
      root := top;
      assert Views() == v && fData[..] == bytes;
      RootStaysAlone();
      BuiltIsLinked();
      BuiltIsConsistent();
      HashesOfChildren();
    }

    /** The program's hash is SHA-256, whose texts have no NUL. */
    lemma HashesAreText()
      requires Laid()
      ensures pkg.HexText()
    {
      forall m: seq<byte> ensures NoNul(pkg.digest(m)) {
        DigestNoNul(m);
      }
    }

    lemma HashesOfChildren()
      requires Linked() && Consistent(pkg, fData[..], Hashes())
      ensures forall i | 0 <= i < nnodes && IsInternal(nnodes, i) ::
        && nodes[i].left == nodes[2 * i + 1] && nodes[i].right == nodes[2 * i + 2]
        && var l: seq<byte>, r: seq<byte> := nodes[i].left.computed, nodes[i].right.computed;
          nodes[i].computed == HexDigest(l + r)
    {
      MerkleEquations(pkg, fData[..], Hashes());
      forall i | 0 <= i < nnodes && IsInternal(nnodes, i)
        ensures nodes[i].left == nodes[2 * i + 1] && nodes[i].right == nodes[2 * i + 2]
        ensures var l: seq<byte>, r: seq<byte> := nodes[i].left.computed, nodes[i].right.computed;
          nodes[i].computed == HexDigest(l + r)
      {
        assert LinkedAt(i);
      }
    }

    lemma RootStaysAlone()
      requires Laid() && Views()[0].parent == null
      ensures nodes[0].parent == null
    {}

    lemma BuiltIsLinked()
      requires Laid() && BuiltBelow(pkg, fData[..], nodes, Views(), 0)
      ensures Linked()
    {
      EverythingBuilt(pkg, fData[..], nodes, Views());
      forall i | 0 <= i < nnodes ensures LinkedAt(i) {
        assert BuiltAt(pkg, fData[..], nodes, Views(), i) && View(nodes[i]) == Views()[i];
        if IsInternal(nnodes, i) {
          assert View(nodes[2 * i + 1]) == Views()[2 * i + 1] && View(nodes[2 * i + 2]) == Views()[2 * i + 2];
        }
      }
    }

    lemma BuiltIsConsistent()
      requires Laid() && BuiltBelow(pkg, fData[..], nodes, Views(), 0)
      ensures Consistent(pkg, fData[..], Hashes())
    {
      EverythingBuilt(pkg, fData[..], nodes, Views());
      forall i | 0 <= i < nnodes ensures Hashes()[i] == Rebuild(pkg, fData[..], i) {
        assert BuiltAt(pkg, fData[..], nodes, Views(), i) && View(nodes[i]) == Views()[i];
      }
      ConsistentIsRebuilt(pkg, fData[..], Hashes());
    }
  }
}
