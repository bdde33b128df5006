/** What the hashes of a package's tree mean: the Merkle equations, the rebuild, the incremental update. */
module Merkle {
  import opened Bytes
  import opened Sha256Spec
  import opened Shape

  datatype Chunk = Chunk(offset: nat, size: nat)

  /**
   * A parsed package: the expected hash of every node in level order and the byte range of every chunk.
   * The digest is a parameter, so what is proved here holds for any hash function; the program's trees
   * use HexDigest.
   */
  datatype Package = Package(digest: seq<byte> -> Hash, expected: seq<Hash>, chunks: seq<Chunk>) {
    function Nodes(): nat { if chunks == [] then 0 else 2 * |chunks| - 1 }

    /** nnodes = nhashes + nchunks with nchunks = nhashes + 1, and every chunk lies in the file. */
    ghost predicate Valid(fileSize: nat) {
      && |chunks| >= 1 && |expected| == Nodes()
      && forall k | 0 <= k < |chunks| :: chunks[k].offset + chunks[k].size <= fileSize
    }

    /** Digests are texts without a NUL. */
    ghost predicate HexText() { forall m: seq<byte> :: NoNul(digest(m)) }

    /** The chunk of leaf i. */
    function ChunkOf(i: nat): Chunk
      requires i < Nodes() && !IsInternal(Nodes(), i)
    {
      chunks[i - (|chunks| - 1)]
    }

    ghost predicate DisjointChunks() {
      forall j, k | 0 <= j < |chunks| && 0 <= k < |chunks| && j != k ::
        chunks[j].offset + chunks[j].size <= chunks[k].offset || chunks[k].offset + chunks[k].size <= chunks[j].offset
    }
  }

  function ChunkBytes(p: Package, data: seq<byte>, i: nat): seq<byte>
    requires p.Valid(|data|) && i < p.Nodes() && !IsInternal(p.Nodes(), i)
  {
    var c := p.ChunkOf(i);
    data[c.offset..c.offset + c.size]
  }

  function Join(left: Hash, right: Hash): seq<byte> { left + right }

  /** The bytes node i hashes: its children's texts, or its chunk. */
  function Source(p: Package, data: seq<byte>, c: seq<Hash>, i: nat): seq<byte>
    requires p.Valid(|data|) && |c| == p.Nodes() && i < p.Nodes()
  {
    if IsInternal(p.Nodes(), i) then Join(c[2 * i + 1], c[2 * i + 2]) else ChunkBytes(p, data, i)
  }

  ghost predicate Clean(p: Package, data: seq<byte>, c: seq<Hash>, i: nat)
    requires p.Valid(|data|) && |c| == p.Nodes() && i < p.Nodes()
  {
    c[i] == p.digest(Source(p, data, c, i))
  }

  /** Every node satisfies its Merkle equation. */
  ghost predicate Consistent(p: Package, data: seq<byte>, c: seq<Hash>) {
    p.Valid(|data|) && |c| == p.Nodes() && forall i | 0 <= i < p.Nodes() :: Clean(p, data, c, i)
  }

  /**
   * The equations written out: an internal node has the digest of its left child's text followed by its right
   * child's, and the node of chunk k that of the bytes in the chunk's range.
   */
  lemma MerkleEquations(p: Package, data: seq<byte>, c: seq<Hash>)
    requires p.Valid(|data|) && |c| == p.Nodes()
    ensures Consistent(p, data, c) <==>
      && (forall i | 0 <= i && IsInternal(p.Nodes(), i) ::
        var l: seq<byte>, r: seq<byte> := c[2 * i + 1], c[2 * i + 2]; c[i] == p.digest(l + r))
      && (forall k | 0 <= k < |p.chunks| ::
        c[|p.chunks| - 1 + k] == p.digest(data[p.chunks[k].offset..p.chunks[k].offset + p.chunks[k].size]))
  {
    forall i | 0 <= i && IsInternal(p.Nodes(), i)
      ensures var l: seq<byte>, r: seq<byte> := c[2 * i + 1], c[2 * i + 2];
        Clean(p, data, c, i) <==> c[i] == p.digest(l + r)
    {}
    forall k | 0 <= k < |p.chunks|
      ensures !IsInternal(p.Nodes(), |p.chunks| - 1 + k)
      ensures Clean(p, data, c, |p.chunks| - 1 + k) <==>
        c[|p.chunks| - 1 + k] == p.digest(data[p.chunks[k].offset..p.chunks[k].offset + p.chunks[k].size])
    {}
    forall i | 0 <= i < p.Nodes() ensures IsInternal(p.Nodes(), i) || i == |p.chunks| - 1 + (i - (|p.chunks| - 1)) {}
  }

  /** The hash a build from scratch gives node i. */
  function Rebuild(p: Package, data: seq<byte>, i: nat): Hash
    requires p.Valid(|data|) && i < p.Nodes()
    decreases p.Nodes() - i
  {
    if IsInternal(p.Nodes(), i) then p.digest(Join(Rebuild(p, data, 2 * i + 1), Rebuild(p, data, 2 * i + 2)))
    else p.digest(ChunkBytes(p, data, i))
  }

  /** A tree satisfies every Merkle equation exactly when each hash is the one a rebuild gives. */
  lemma ConsistentIsRebuilt(p: Package, data: seq<byte>, c: seq<Hash>)
    requires p.Valid(|data|) && |c| == p.Nodes()
    ensures Consistent(p, data, c) <==> forall i | 0 <= i < p.Nodes() :: c[i] == Rebuild(p, data, i)
  {
    if Consistent(p, data, c) {
      forall i | 0 <= i < p.Nodes() ensures c[i] == Rebuild(p, data, i) {
        CleanBelowIsRebuilt(p, data, c, i);
      }
    }
    if forall i | 0 <= i < p.Nodes() :: c[i] == Rebuild(p, data, i) {
      forall i | 0 <= i < p.Nodes() ensures Clean(p, data, c, i) {
        if IsInternal(p.Nodes(), i) {
          assert c[2 * i + 1] == Rebuild(p, data, 2 * i + 1) && c[2 * i + 2] == Rebuild(p, data, 2 * i + 2);
        }
        assert c[i] == Rebuild(p, data, i);
      }
    }
  }

  lemma {:induction false} CleanBelowIsRebuilt(p: Package, data: seq<byte>, c: seq<Hash>, i: nat)
    requires Consistent(p, data, c) && i < p.Nodes()
    ensures c[i] == Rebuild(p, data, i)
    decreases p.Nodes() - i
  {
    assert Clean(p, data, c, i);
    if IsInternal(p.Nodes(), i) {
      CleanBelowIsRebuilt(p, data, c, 2 * i + 1);
      CleanBelowIsRebuilt(p, data, c, 2 * i + 2);
    }
  }

  // The incremental update.

  /** Node q rehashed from its children. */
  function Rehashed(p: Package, c: seq<Hash>, q: nat): (r: seq<Hash>)
    requires |c| == p.Nodes() && IsInternal(p.Nodes(), q)
    ensures |r| == |c|
  {
    c[q := p.digest(Join(c[2 * q + 1], c[2 * q + 2]))]
  }

  /** The node gets the digest of the left text and then the right one, and no other hash changes. */
  lemma RehashedIs(p: Package, c: seq<Hash>, q: nat)
    requires |c| == p.Nodes() && IsInternal(p.Nodes(), q)
    ensures var l: seq<byte>, r: seq<byte> := c[2 * q + 1], c[2 * q + 2]; Rehashed(p, c, q)[q] == p.digest(l + r)
    ensures forall j | 0 <= j < |c| && j != q :: Rehashed(p, c, q)[j] == c[j]
  {}

  /** Rehashing the proper ancestors of i from the bottom up. */
  function Climb(p: Package, c: seq<Hash>, i: nat): (r: seq<Hash>)
    requires |c| == p.Nodes() && i < p.Nodes() && p.Nodes() % 2 == 1
    ensures |r| == |c|
    decreases i
  {
    if i == 0 then c else Climb(p, Rehashed(p, c, Parent(i)), Parent(i))
  }

  lemma ChildUnder(j: nat, q: nat)
    requires q == 2 * j + 1 || q == 2 * j + 2
    ensures Under(j, q)
  {}

  /** Climbing repairs every equation when only proper ancestors of i were broken. */
  lemma {:induction false} ClimbHeals(p: Package, data: seq<byte>, c: seq<Hash>, i: nat)
    requires p.Valid(|data|) && |c| == p.Nodes() && i < p.Nodes()
    requires forall j | 0 <= j < p.Nodes() && !(j != i && Under(j, i)) :: Clean(p, data, c, j)
    ensures Consistent(p, data, Climb(p, c, i))
    decreases i
  {
    if i == 0 {
      forall j | 0 <= j < p.Nodes() ensures Clean(p, data, c, j) {}
    } else {
      var q := Parent(i);
      var d := Rehashed(p, c, q);
      forall j | 0 <= j < p.Nodes() && !(j != q && Under(j, q)) ensures Clean(p, data, d, j) {
        if j != q {
          assert Clean(p, data, c, j);
          if IsInternal(p.Nodes(), j) && (2 * j + 1 == q || 2 * j + 2 == q) {
            ChildUnder(j, q);
          }
        }
      }
      ClimbHeals(p, data, d, q);
    }
  }

  /** The state an update changes: the file's bytes and every node's computed hash. */
  datatype State = State(data: seq<byte>, computed: seq<Hash>)

  /** A write of new bytes at an offset: how much of it update_chunk_node copies for a leaf of the given size. */
  function CopySize(dataSize: nat, chunkSize: nat): nat { if dataSize < chunkSize then dataSize else chunkSize }

  predicate CanInstall(p: Package, s: State, leaf: nat, newdata: seq<byte>, dataSize: nat, offset: nat) {
    && 1 <= |p.chunks| && |s.computed| == p.Nodes() && leaf < p.Nodes() && !IsInternal(p.Nodes(), leaf)
    && CopySize(dataSize, p.ChunkOf(leaf).size) <= |newdata|
    && offset + CopySize(dataSize, p.ChunkOf(leaf).size) <= |s.data|
  }

  function Install(p: Package, s: State, leaf: nat, newdata: seq<byte>, dataSize: nat, offset: nat): (r: State)
    requires p.Valid(|s.data|) && CanInstall(p, s, leaf, newdata, dataSize, offset)
    ensures |r.data| == |s.data| && |r.computed| == |s.computed|
  {
    var data := Overlay(s.data, offset, newdata[..CopySize(dataSize, p.ChunkOf(leaf).size)]);
    State(data, Climb(p, s.computed[leaf := p.digest(ChunkBytes(p, data, leaf))], leaf))
  }

  /** Of a packet larger than the chunk only as many bytes as the chunk has are copied. */
  lemma InstalledBytes(p: Package, s: State, leaf: nat, newdata: seq<byte>, dataSize: nat, offset: nat, x: nat)
    requires p.Valid(|s.data|) && CanInstall(p, s, leaf, newdata, dataSize, offset) && x < |s.data|
    ensures Install(p, s, leaf, newdata, dataSize, offset).data[x] ==
      if offset <= x < offset + dataSize && x < offset + p.ChunkOf(leaf).size then newdata[x - offset] else s.data[x]
  {}

  /** Wherever the copy reaches into another leaf's chunk it writes the bytes that are there already. */
  ghost predicate KeepsOthers(p: Package, s: State, leaf: nat, newdata: seq<byte>, dataSize: nat, offset: nat)
    requires CanInstall(p, s, leaf, newdata, dataSize, offset)
  {
    forall j, k | 0 <= j < p.Nodes() && !IsInternal(p.Nodes(), j) && j != leaf
      && 0 <= k < CopySize(dataSize, p.ChunkOf(leaf).size) && InChunk(p.ChunkOf(j), offset + k) ::
      newdata[k] == s.data[offset + k]
  }

  predicate InChunk(c: Chunk, x: nat) { c.offset <= x < c.offset + c.size }

  /** No leaf but this one hashes other bytes than before. */
  ghost predicate OthersKept(p: Package, before: seq<byte>, after: seq<byte>, leaf: nat)
    requires p.Valid(|before|) && |after| == |before|
  {
    forall j | 0 <= j < p.Nodes() && !IsInternal(p.Nodes(), j) && j != leaf ::
      ChunkBytes(p, after, j) == ChunkBytes(p, before, j)
  }

  /** The call changes no other leaf's bytes exactly when it meets that condition beforehand. */
  lemma OthersKeptIff(p: Package, s: State, leaf: nat, newdata: seq<byte>, dataSize: nat, offset: nat)
    requires p.Valid(|s.data|) && CanInstall(p, s, leaf, newdata, dataSize, offset)
    ensures KeepsOthers(p, s, leaf, newdata, dataSize, offset) <==>
      OthersKept(p, s.data, Install(p, s, leaf, newdata, dataSize, offset).data, leaf)
  {
    var after := Install(p, s, leaf, newdata, dataSize, offset).data;
    var n := CopySize(dataSize, p.ChunkOf(leaf).size);
    if KeepsOthers(p, s, leaf, newdata, dataSize, offset) {
      forall j | 0 <= j < p.Nodes() && !IsInternal(p.Nodes(), j) && j != leaf
        ensures ChunkBytes(p, after, j) == ChunkBytes(p, s.data, j)
      {
        KeptBytes(p, s, leaf, newdata, dataSize, offset, j);
      }
    }
    if OthersKept(p, s.data, after, leaf) {
      forall j, k | 0 <= j < p.Nodes() && !IsInternal(p.Nodes(), j) && j != leaf
        && 0 <= k < n && InChunk(p.ChunkOf(j), offset + k)
        ensures newdata[k] == s.data[offset + k]
      {
        var c, x := p.ChunkOf(j), offset + k;
        assert ChunkBytes(p, after, j)[x - c.offset] == ChunkBytes(p, s.data, j)[x - c.offset];
        assert after[x] == newdata[..n][k];
      }
    }
  }

  lemma KeptBytes(p: Package, s: State, leaf: nat, newdata: seq<byte>, dataSize: nat, offset: nat, j: nat)
    requires p.Valid(|s.data|) && CanInstall(p, s, leaf, newdata, dataSize, offset)
    requires KeepsOthers(p, s, leaf, newdata, dataSize, offset)
    requires j < p.Nodes() && !IsInternal(p.Nodes(), j) && j != leaf
    ensures ChunkBytes(p, Install(p, s, leaf, newdata, dataSize, offset).data, j) == ChunkBytes(p, s.data, j)
  {
    var after, c := Install(p, s, leaf, newdata, dataSize, offset).data, p.ChunkOf(j);
    var n := CopySize(dataSize, p.ChunkOf(leaf).size);
    assert p.chunks[j - (|p.chunks| - 1)] == c;
    forall x | c.offset <= x < c.offset + c.size ensures after[x] == s.data[x] {
      if offset <= x < offset + n {
        var k := x - offset;
        assert InChunk(c, offset + k) && newdata[..n][k] == newdata[k];
      }
    }
  }

  /**
   * Incremental equals full rebuild: if the write changes no other chunk's bytes, rehashing the leaf
   * and its ancestors leaves every node as a rebuild on the new bytes would.
   */
  lemma InstallRebuilds(p: Package, s: State, leaf: nat, newdata: seq<byte>, dataSize: nat, offset: nat)
    requires Consistent(p, s.data, s.computed) && CanInstall(p, s, leaf, newdata, dataSize, offset)
    requires KeepsOthers(p, s, leaf, newdata, dataSize, offset)
    ensures var r := Install(p, s, leaf, newdata, dataSize, offset);
      && Consistent(p, r.data, r.computed)
      && forall i | 0 <= i < p.Nodes() :: r.computed[i] == Rebuild(p, r.data, i)
  {
    OthersKeptIff(p, s, leaf, newdata, dataSize, offset);
    var r := Install(p, s, leaf, newdata, dataSize, offset);
    var c := s.computed[leaf := p.digest(ChunkBytes(p, r.data, leaf))];
    forall j | 0 <= j < p.Nodes() && !(j != leaf && Under(j, leaf)) ensures Clean(p, r.data, c, j) {
      assert Clean(p, s.data, s.computed, j);
      if IsInternal(p.Nodes(), j) && (2 * j + 1 == leaf || 2 * j + 2 == leaf) {
        assert Under(j, leaf);
      }
    }
    ClimbHeals(p, r.data, c, leaf);
    ConsistentIsRebuilt(p, r.data, r.computed);
  }

  /** Climbing changes proper ancestors only. */
  lemma {:induction false} ClimbKeeps(p: Package, c: seq<Hash>, i: nat, j: nat)
    requires |c| == p.Nodes() && i < p.Nodes() && p.Nodes() % 2 == 1 && j < p.Nodes()
    requires j == i || !Under(j, i)
    ensures Climb(p, c, i)[j] == c[j]
    decreases i
  {
    if i != 0 {
      var q := Parent(i);
      if Under(j, q) {
        UnderAtLeast(j, q);
        assert false;
      } else {
        ClimbKeeps(p, Rehashed(p, c, q), q, j);
      }
    }
  }

  /**
   * The condition of InstallRebuilds is the exact one: if no two chunk contents collide, the tree equals a
   * rebuild after the update if and only if the bytes copied into other chunks were there already.
   */
  lemma InstallRebuildsExactly(p: Package, s: State, leaf: nat, newdata: seq<byte>, dataSize: nat, offset: nat)
    requires Consistent(p, s.data, s.computed) && CanInstall(p, s, leaf, newdata, dataSize, offset)
    requires var after := Install(p, s, leaf, newdata, dataSize, offset).data;
      forall j | 0 <= j < p.Nodes() && !IsInternal(p.Nodes(), j) ::
        p.digest(ChunkBytes(p, after, j)) == p.digest(ChunkBytes(p, s.data, j))
        ==> ChunkBytes(p, after, j) == ChunkBytes(p, s.data, j)
    ensures var r := Install(p, s, leaf, newdata, dataSize, offset);
      Consistent(p, r.data, r.computed) <==> KeepsOthers(p, s, leaf, newdata, dataSize, offset)
  {
    var r := Install(p, s, leaf, newdata, dataSize, offset);
    OthersKeptIff(p, s, leaf, newdata, dataSize, offset);
    if KeepsOthers(p, s, leaf, newdata, dataSize, offset) {
      InstallRebuilds(p, s, leaf, newdata, dataSize, offset);
    }
    if Consistent(p, r.data, r.computed) {
      forall j | 0 <= j < p.Nodes() && !IsInternal(p.Nodes(), j) && j != leaf
        ensures ChunkBytes(p, r.data, j) == ChunkBytes(p, s.data, j)
      {
        if Under(j, leaf) {
          AncestorIsInternal(p.Nodes(), j, leaf);
        }
        ClimbKeeps(p, s.computed[leaf := p.digest(ChunkBytes(p, r.data, leaf))], leaf, j);
        assert Clean(p, r.data, r.computed, j) && Clean(p, s.data, s.computed, j);
      }
    }
  }

  /** A fragment that stays inside its leaf's own range meets the condition when the ranges are disjoint. */
  lemma InsideOwnChunk(p: Package, s: State, leaf: nat, newdata: seq<byte>, dataSize: nat, offset: nat)
    requires p.Valid(|s.data|) && p.DisjointChunks() && CanInstall(p, s, leaf, newdata, dataSize, offset)
    requires var c := p.ChunkOf(leaf); c.offset <= offset && offset + CopySize(dataSize, c.size) <= c.offset + c.size
    ensures KeepsOthers(p, s, leaf, newdata, dataSize, offset)
  {
    var n, own := |p.chunks|, p.ChunkOf(leaf);
    assert own == p.chunks[leaf - (n - 1)];
    forall j | 0 <= j < p.Nodes() && !IsInternal(p.Nodes(), j) && j != leaf
      ensures var c := p.ChunkOf(j); c.offset + c.size <= own.offset || own.offset + own.size <= c.offset
    {
      assert p.ChunkOf(j) == p.chunks[j - (n - 1)];
    }
  }

  /** A write aimed past its leaf's range: of two one-byte chunks, chunk 1 is overwritten through leaf 1. */
  lemma StrayWriteLeavesStaleHash(p: Package, s: State)
    requires p.chunks == [Chunk(0, 1), Chunk(1, 1)] && s.data == [0, 0]
    requires Consistent(p, s.data, s.computed) && p.digest([1]) != p.digest([0])
    ensures CanInstall(p, s, 1, [1], 1, 1)
    ensures var r := Install(p, s, 1, [1], 1, 1);
      !Consistent(p, r.data, r.computed)
  {
    var r := Install(p, s, 1, [1], 1, 1);
    assert r.data == [0, 1];
    ClimbKeeps(p, s.computed[1 := p.digest(ChunkBytes(p, r.data, 1))], 1, 2);
    assert Clean(p, s.data, s.computed, 2);
    assert ChunkBytes(p, s.data, 2) == [0] && ChunkBytes(p, r.data, 2) == [1];
    assert !Clean(p, r.data, r.computed, 2);
  }

  // The verdict of check_chunk.

  predicate Passes(p: Package, c: seq<Hash>, i: nat)
    requires |p.expected| == p.Nodes() && |c| == p.Nodes() && i < p.Nodes()
  {
    StrnEqual(p.expected[i], c[i], 64)
  }

  /** A computed hash has no NUL, so the string comparison decides equality. */
  lemma PassesIsEqual(p: Package, data: seq<byte>, c: seq<Hash>, i: nat)
    requires p.HexText() && Consistent(p, data, c) && i < p.Nodes()
    ensures Passes(p, c, i) <==> p.expected[i] == c[i]
  {
    assert Clean(p, data, c, i);
    assert p.expected[i][..64] == p.expected[i] && c[i][..64] == c[i];
    StrnEqualDecides(p.expected[i], c[i], 64);
  }

  /** No collision between the strings whose hashes are compared: the internal texts of the two trees. */
  ghost predicate NoTextCollision(p: Package, c: seq<Hash>)
    requires |p.expected| == p.Nodes() && |c| == p.Nodes()
  {
    forall i | 0 <= i && IsInternal(p.Nodes(), i) :: TextsDoNotCollide(p, c, i)
  }

  ghost predicate TextsDoNotCollide(p: Package, c: seq<Hash>, i: nat)
    requires |p.expected| == p.Nodes() && |c| == p.Nodes() && IsInternal(p.Nodes(), i)
  {
    var e, d := Join(p.expected[2 * i + 1], p.expected[2 * i + 2]), Join(c[2 * i + 1], c[2 * i + 2]);
    p.digest(e) == p.digest(d) ==> e == d
  }

  /** A node passes if and only if every leaf below it does. */
  lemma {:induction false} PassesIffLeavesPass(p: Package, original: seq<byte>, data: seq<byte>, c: seq<Hash>, i: nat)
    requires Consistent(p, original, p.expected) && Consistent(p, data, c)
    requires p.HexText() && NoTextCollision(p, c)
    requires i < p.Nodes()
    ensures Passes(p, c, i) <==> forall x | x in Leaves(p.Nodes(), i) :: x < p.Nodes() && Passes(p, c, x)
    decreases p.Nodes() - i
  {
    if IsInternal(p.Nodes(), i) {
      var l, r := 2 * i + 1, 2 * i + 2;
      PassesIffLeavesPass(p, original, data, c, l);
      PassesIffLeavesPass(p, original, data, c, r);
      PassesIffChildrenPass(p, original, data, c, i);
      assert Leaves(p.Nodes(), i) == Leaves(p.Nodes(), l) + Leaves(p.Nodes(), r);
      assert forall x :: x in Leaves(p.Nodes(), i) <==> x in Leaves(p.Nodes(), l) || x in Leaves(p.Nodes(), r);
    } else {
      assert Leaves(p.Nodes(), i) == [i];
    }
  }

  lemma PassesIffChildrenPass(p: Package, original: seq<byte>, data: seq<byte>, c: seq<Hash>, i: nat)
    requires Consistent(p, original, p.expected) && Consistent(p, data, c)
    requires p.HexText() && NoTextCollision(p, c)
    requires IsInternal(p.Nodes(), i)
    ensures Passes(p, c, i) <==> Passes(p, c, 2 * i + 1) && Passes(p, c, 2 * i + 2)
  {
    var l, r := 2 * i + 1, 2 * i + 2;
    PassesIsEqual(p, data, c, i);
    PassesIsEqual(p, data, c, l);
    PassesIsEqual(p, data, c, r);
    assert Clean(p, original, p.expected, i) && Clean(p, data, c, i) && TextsDoNotCollide(p, c, i);
    if p.expected[i] == c[i] {
      JoinInjective(p.expected[l], p.expected[r], c[l], c[r]);
    }
  }

  lemma JoinInjective(a: Hash, b: Hash, c: Hash, d: Hash)
    requires Join(a, b) == Join(c, d)
    ensures a == c && b == d
  {
    assert a == Join(a, b)[..64] && b == Join(a, b)[64..] && c == Join(c, d)[..64] && d == Join(c, d)[64..];
  }

  /** With no collision between the chunk contents either, the root passes exactly on the genuine file. */
  lemma RootPassesIffGenuine(p: Package, original: seq<byte>, data: seq<byte>, c: seq<Hash>)
    requires Consistent(p, original, p.expected) && Consistent(p, data, c)
    requires p.HexText() && NoTextCollision(p, c)
    requires forall x | 0 <= x < p.Nodes() && !IsInternal(p.Nodes(), x) ::
      p.digest(ChunkBytes(p, data, x)) == p.digest(ChunkBytes(p, original, x))
      ==> ChunkBytes(p, data, x) == ChunkBytes(p, original, x)
    ensures Passes(p, c, 0) <==>
      forall x | 0 <= x < p.Nodes() && !IsInternal(p.Nodes(), x) :: ChunkBytes(p, data, x) == ChunkBytes(p, original, x)
  {
    var n := p.Nodes();
    PassesIffLeavesPass(p, original, data, c, 0);
    LeavesOnce(n, 0);
    forall x | 0 <= x < n && !IsInternal(n, x)
      ensures x in Leaves(n, 0) && (Passes(p, c, x) <==> ChunkBytes(p, data, x) == ChunkBytes(p, original, x))
    {
      RootAbove(x);
      assert IsLeafBelow(n, 0, x);
      PassesIsEqual(p, data, c, x);
      assert Clean(p, original, p.expected, x) && Clean(p, data, c, x);
    }
    assert forall x: nat | x in Leaves(n, 0) :: IsLeafBelow(n, 0, x);
  }
}
