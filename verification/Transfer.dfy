/** A chunk on its way from one peer's tree into another's. */
module Transfer {
  import opened Bytes
  import opened Sha256Spec
  import opened Shape
  import opened Merkle
  import opened MerkleTree
  import opened Packet
  import Channel
  import Concurrent
  import ConcurrentOrder
  import ConcurrentProgress

  /** The response packets for size bytes of the file from an offset on. */
  function Fragments(data: seq<byte>, offset: nat, size: nat, hash: Hash, ident: seq<byte>): seq<Pkt>
    requires offset + size <= |data|
    decreases size
  {
    if size == 0 then []
    else
      var n := Least(size, DATA_MAX);
      [ResPkt(0, offset, n, hash, ident, data[offset..offset + n])] + Fragments(data, offset + n, size - n, hash, ident)
  }

  /** What the peer answers when it cannot serve the chunk; the error -1 is cut to eight bits on the way. */
  function Refusal(): Pkt { ResPkt(255, 0, 0, [], [], []) }

  /** The loop of send_res_pkts. */
  method SendFragments(fData: array<byte>, chunk: Chunk, hash: Hash, ident: seq<byte>) returns (sent: seq<Pkt>)
    requires chunk.offset + chunk.size <= fData.Length < 0x1_0000_0000
    ensures sent == Fragments(fData[..], chunk.offset, chunk.size, hash, ident)
  {
    sent := [];
    var currOffset: nat, remainingSize: nat := chunk.offset, chunk.size;
    while remainingSize > 0
      invariant currOffset + remainingSize == chunk.offset + chunk.size
      invariant sent + Fragments(fData[..], currOffset, remainingSize, hash, ident)
        == Fragments(fData[..], chunk.offset, chunk.size, hash, ident)
    {
      var chunkSize := if remainingSize > DATA_MAX then DATA_MAX else remainingSize;
      var data := fData[currOffset..currOffset + chunkSize];
      var pkt := CreateRes(0, currOffset, chunkSize, hash, ident, data);
      NextFragment(fData[..], currOffset, remainingSize, hash, ident, sent, pkt, data);
      sent := sent + [pkt];
      currOffset := currOffset + chunkSize;
      remainingSize := remainingSize - chunkSize;
    }
  }

  lemma NextFragment(file: seq<byte>, offset: nat, size: nat, hash: Hash, ident: seq<byte>, sent: seq<Pkt>,
                     pkt: Pkt, data: seq<byte>)
    requires size > 0 && offset + size <= |file|
    requires var n := Least(size, DATA_MAX);
      data == file[offset..offset + n] && pkt == ResPkt(0, offset, n, hash, ident, data)
    ensures var n := Least(size, DATA_MAX);
      sent + Fragments(file, offset, size, hash, ident) ==
      (sent + [pkt]) + Fragments(file, offset + n, size - n, hash, ident)
  {}

  /** send_res_pkts once the node is found: a node that does not pass is refused. */
  method SendResPkts(tree: MTree, node: Node?, ident: seq<byte>, ghost i: nat) returns (sent: seq<Pkt>)
    requires tree.Valid() && tree.fData.Length < 0x1_0000_0000
    requires node != null ==> i < tree.nnodes && node == tree.nodes[i] && node.isLeaf
    ensures node == null || !Passes(tree.pkg, tree.Hashes(), i) ==> sent == [Refusal()]
    ensures node != null && Passes(tree.pkg, tree.Hashes(), i) ==>
      var c := tree.pkg.ChunkOf(i);
      && c.offset + c.size <= tree.fData.Length
      && sent == ChunkFragments(tree.pkg, tree.fData[..], i, ident)
  {
    if node == null {
      var refusal := CreateRes(255, 0, 0, [], [], []);
      return [refusal];
    }
    assert Carries(tree.pkg, node, i) && tree.pkg.Valid(tree.fData.Length);
    var valid := node.CheckChunk();
    if !valid {
      var refusal := CreateRes(255, 0, 0, [], [], []);
      return [refusal];
    }
    sent := SendFragments(tree.fData, node.chunk.value, node.expected, ident);
  }

  // What the fragments are.

  /** The bytes a packet carries. */
  function Payload(pkt: Pkt): seq<byte> { pkt.data[..Least(pkt.size, |pkt.data|)] }

  /** The bytes the packets carry, in order. */
  function Carried(packets: seq<Pkt>): seq<byte> {
    if packets == [] then [] else Payload(packets[0]) + Carried(packets[1..])
  }

  /** A packet that carries bytes of the file from inside the range from lo to hi, at their own offset. */
  predicate IsPiece(file: seq<byte>, lo: nat, hi: nat, pkt: Pkt) {
    && pkt.Valid() && 1 <= pkt.size <= DATA_MAX && lo <= pkt.offset && pkt.offset + pkt.size <= hi <= |file|
    && pkt.data[..pkt.size] == file[pkt.offset..pkt.offset + pkt.size]
  }

  predicate Within(pkt: Pkt, x: nat) { pkt.offset <= x < pkt.offset + pkt.size }

  function FirstFragment(file: seq<byte>, offset: nat, size: nat, hash: Hash, ident: seq<byte>): Pkt
    requires size > 0 && offset + size <= |file|
  {
    var n := Least(size, DATA_MAX);
    ResPkt(0, offset, n, hash, ident, file[offset..offset + n])
  }

  lemma FragmentsCons(file: seq<byte>, offset: nat, size: nat, n: nat, hash: Hash, ident: seq<byte>)
    requires size > 0 && offset + size <= |file| && n == Least(size, DATA_MAX)
    ensures var f := Fragments(file, offset, size, hash, ident);
      var rest := Fragments(file, offset + n, size - n, hash, ident);
      && f == [FirstFragment(file, offset, size, hash, ident)] + rest
      && f[0] == FirstFragment(file, offset, size, hash, ident)
      && f[1..] == rest && forall k | 0 <= k < |rest| :: f[k + 1] == rest[k]
  {}

  /** What a response says besides its bytes: code 7, no error, the expected hash and the identifier. */
  predicate Names(pkt: Pkt, hash: Hash, ident: seq<byte>) {
    && pkt.msgCode == 7 && pkt.error == 0
    && (NoNul(hash) ==> pkt.hash == hash) && (|Text(ident)| <= 1024 ==> Text(pkt.ident) == Text(ident))
  }

  lemma ResponseNames(offset: nat, size: nat, hash: Hash, ident: seq<byte>, data: seq<byte>)
    ensures Names(ResPkt(0, offset, size, hash, ident, data), hash, ident)
  {
    FieldText(hash, 64);
    FieldText(ident, 1024);
    if NoNul(hash) {
      TextStops(hash, hash);
    }
  }

  /** Fragment k starts 2998 * k bytes into the range and has 2998 bytes, the last one what is left. */
  lemma {:induction false} FragmentAt(file: seq<byte>, offset: nat, size: nat, hash: Hash, ident: seq<byte>, k: nat)
    requires offset + size <= |file|
    ensures var f := Fragments(file, offset, size, hash, ident);
      && |f| == (size + 2997) / 2998
      && (k < |f| ==>
        && f[k].offset == offset + 2998 * k && f[k].size == Least(2998, size - 2998 * k)
        && Names(f[k], hash, ident))
    decreases size
  {
    if size > 0 {
      var n := Least(size, DATA_MAX);
      var first := FirstFragment(file, offset, size, hash, ident);
      FragmentsCons(file, offset, size, n, hash, ident);
      if k == 0 {
        ResponseNames(offset, n, hash, ident, file[offset..offset + n]);
      }
      FragmentAt(file, offset + n, size - n, hash, ident, if k == 0 then 0 else k - 1);
      Rounding(size, n);
    }
  }

  lemma Rounding(size: nat, n: nat)
    requires size > 0 && n == Least(size, 2998)
    ensures (size + 2997) / 2998 == 1 + (size - n + 2997) / 2998
  {}

  /** A refusal is a response with error 255 and no bytes, and that is how its image starts. */
  lemma RefusalIs()
    ensures Refusal().msgCode == 7 && Refusal().error == 255 && Refusal().size == 0 && Payload(Refusal()) == []
    ensures HasHead(Refusal(), 7, 255)
  {
    HeadOf(Refusal());
  }

  ghost predicate ArePieces(file: seq<byte>, lo: nat, hi: nat, f: seq<Pkt>) {
    forall k | 0 <= k < |f| :: IsPiece(file, lo, hi, f[k])
  }

  lemma {:induction false} FragmentIsPiece(file: seq<byte>, offset: nat, size: nat, hash: Hash, ident: seq<byte>,
                                           f: seq<Pkt>, k: nat)
    requires offset + size <= |file| < 0x1_0000_0000
    requires f == Fragments(file, offset, size, hash, ident) && k < |f|
    ensures IsPiece(file, offset, offset + size, f[k])
    decreases size
  {
    var n := Least(size, DATA_MAX);
    var first, rest := FirstFragment(file, offset, size, hash, ident), f[1..];
    FragmentsCons(file, offset, size, n, hash, ident);
    PieceOfFile(file, offset, n, hash, ident);
    if k > 0 {
      FragmentIsPiece(file, offset + n, size - n, hash, ident, rest, k - 1);
    }
    PieceStep(file, offset, offset + n, offset + size, f, first, rest, k);
  }

  lemma PieceStep(file: seq<byte>, lo: nat, mid: nat, hi: nat, f: seq<Pkt>, first: Pkt, rest: seq<Pkt>, k: nat)
    requires k < |f| && f == [first] + rest && lo <= mid <= hi <= |file| && IsPiece(file, lo, mid, first)
    requires k > 0 ==> IsPiece(file, mid, hi, rest[k - 1])
    ensures IsPiece(file, lo, hi, f[k])
  {}

  /** Each fragment carries bytes of the range at their own offset, and they follow one another. */
  lemma FragmentsArePieces(file: seq<byte>, offset: nat, size: nat, hash: Hash, ident: seq<byte>)
    requires offset + size <= |file| < 0x1_0000_0000
    ensures var f := Fragments(file, offset, size, hash, ident);
      && ArePieces(file, offset, offset + size, f)
      && forall j, k | 0 <= j < k < |f| :: f[j].offset + f[j].size <= f[k].offset
  {
    var f := Fragments(file, offset, size, hash, ident);
    forall k | 0 <= k < |f| ensures IsPiece(file, offset, offset + size, f[k]) {
      FragmentIsPiece(file, offset, size, hash, ident, f, k);
    }
    forall j, k | 0 <= j < k < |f| ensures f[j].offset + f[j].size <= f[k].offset {
      FragmentAt(file, offset, size, hash, ident, j);
      FragmentAt(file, offset, size, hash, ident, k);
    }
  }

  /** The fragments cut the range without gap or overlap: together they carry exactly its bytes. */
  lemma {:induction false} FragmentsPartition(file: seq<byte>, offset: nat, size: nat, hash: Hash, ident: seq<byte>)
    requires offset + size <= |file| < 0x1_0000_0000
    ensures Carried(Fragments(file, offset, size, hash, ident)) == file[offset..offset + size]
    decreases size
  {
    if size > 0 {
      var n := Least(size, DATA_MAX);
      FragmentsPartition(file, offset + n, size - n, hash, ident);
      FragmentsCons(file, offset, size, n, hash, ident);
      FirstCarries(file, offset, size, n, hash, ident);
      SliceJoins(file, offset, offset + n, offset + size);
      CarriedCons(Fragments(file, offset, size, hash, ident), FirstFragment(file, offset, size, hash, ident),
                  Fragments(file, offset + n, size - n, hash, ident), file[offset..offset + n],
                  file[offset + n..offset + size], file[offset..offset + size]);
    } else {
      assert file[offset..offset] == [];
    }
  }

  lemma FirstCarries(file: seq<byte>, offset: nat, size: nat, n: nat, hash: Hash, ident: seq<byte>)
    requires size > 0 && offset + size <= |file| && n == Least(size, DATA_MAX)
    ensures Payload(FirstFragment(file, offset, size, hash, ident)) == file[offset..offset + n]
  {}

  lemma CarriedCons(f: seq<Pkt>, first: Pkt, rest: seq<Pkt>, a: seq<byte>, b: seq<byte>, whole: seq<byte>)
    requires f == [first] + rest && Payload(first) == a && Carried(rest) == b && whole == a + b
    ensures Carried(f) == whole
  {
    assert f[1..] == rest;
  }

  lemma SliceJoins(file: seq<byte>, lo: nat, mid: nat, hi: nat)
    requires lo <= mid <= hi <= |file|
    ensures file[lo..hi] == file[lo..mid] + file[mid..hi]
  {}

  lemma PieceOfFile(file: seq<byte>, offset: nat, n: nat, hash: Hash, ident: seq<byte>)
    requires 1 <= n <= DATA_MAX && offset + n <= |file| < 0x1_0000_0000
    ensures IsPiece(file, offset, offset + n, ResPkt(0, offset, n, hash, ident, file[offset..offset + n]))
  {}

  /** Every byte of the range lies in some fragment. */
  lemma {:induction false} FragmentsCover(file: seq<byte>, offset: nat, size: nat, hash: Hash, ident: seq<byte>, x: nat)
    requires offset + size <= |file| && offset <= x < offset + size
    ensures var f := Fragments(file, offset, size, hash, ident); exists k :: 0 <= k < |f| && Within(f[k], x)
    decreases size
  {
    var n := Least(size, DATA_MAX);
    var f, rest := Fragments(file, offset, size, hash, ident), Fragments(file, offset + n, size - n, hash, ident);
    FragmentsCons(file, offset, size, n, hash, ident);
    if x < offset + n {
      assert Within(f[0], x);
    } else {
      FragmentsCover(file, offset + n, size - n, hash, ident, x);
      var k :| 0 <= k < |rest| && Within(rest[k], x);
      assert f[k + 1] == rest[k] && Within(f[k + 1], x);
    }
  }

  // The receiver.

  /** A piece of the sender's chunk for this leaf. */
  predicate PieceFor(p: Package, leaf: nat, file: seq<byte>, pkt: Pkt) {
    && leaf < p.Nodes() && !IsInternal(p.Nodes(), leaf)
    && IsPiece(file, p.ChunkOf(leaf).offset, p.ChunkOf(leaf).offset + p.ChunkOf(leaf).size, pkt)
  }

  /** update_chunk_node for every packet, in the order of arrival. */
  function InstallAll(p: Package, st: State, leaf: nat, file: seq<byte>, arrivals: seq<Pkt>): (r: State)
    requires p.Valid(|st.data|) && |st.computed| == p.Nodes()
    requires forall k | 0 <= k < |arrivals| :: PieceFor(p, leaf, file, arrivals[k])
    ensures |r.data| == |st.data| && |r.computed| == |st.computed|
  {
    if arrivals == [] then st
    else
      var n := |arrivals| - 1;
      var before, pkt := InstallAll(p, st, leaf, file, arrivals[..n]), arrivals[n];
      PieceInstalls(p, before, leaf, file, pkt);
      Install(p, before, leaf, pkt.data, pkt.size, pkt.offset)
  }

  lemma PieceInstalls(p: Package, st: State, leaf: nat, file: seq<byte>, pkt: Pkt)
    requires p.Valid(|st.data|) && |st.computed| == p.Nodes() && PieceFor(p, leaf, file, pkt)
    ensures CopySize(pkt.size, p.ChunkOf(leaf).size) == pkt.size
    ensures CanInstall(p, st, leaf, pkt.data, pkt.size, pkt.offset)
    ensures pkt.offset + pkt.size <= |st.data|
    ensures Install(p, st, leaf, pkt.data, pkt.size, pkt.offset).data ==
      Overlay(st.data, pkt.offset, file[pkt.offset..pkt.offset + pkt.size])
  {
    var c := p.ChunkOf(leaf);
    assert p.chunks[leaf - (|p.chunks| - 1)] == c;
  }

  predicate Arrived(arrivals: seq<Pkt>, x: nat) { exists k :: 0 <= k < |arrivals| && Within(arrivals[k], x) }

  /** Byte x after the arrivals: the sender's where one arrived, the receiver's own elsewhere. */
  lemma {:induction false} InstalledByte(p: Package, st: State, leaf: nat, file: seq<byte>, arrivals: seq<Pkt>, x: nat)
    requires p.Valid(|st.data|) && |st.computed| == p.Nodes() && x < |st.data|
    requires forall k | 0 <= k < |arrivals| :: PieceFor(p, leaf, file, arrivals[k])
    ensures Arrived(arrivals, x) ==> x < |file| && InstallAll(p, st, leaf, file, arrivals).data[x] == file[x]
    ensures !Arrived(arrivals, x) ==> InstallAll(p, st, leaf, file, arrivals).data[x] == st.data[x]
    decreases |arrivals|
  {
    if arrivals != [] {
      var n := |arrivals| - 1;
      var before, pkt := InstallAll(p, st, leaf, file, arrivals[..n]), arrivals[n];
      InstalledByte(p, st, leaf, file, arrivals[..n], x);
      PieceInstalls(p, before, leaf, file, pkt);
      if Within(pkt, x) {
        assert file[pkt.offset..pkt.offset + pkt.size][x - pkt.offset] == file[x];
      } else {
        EarlierArrival(arrivals, x);
      }
    }
  }

  lemma EarlierArrival(arrivals: seq<Pkt>, x: nat)
    requires arrivals != [] && !Within(arrivals[|arrivals| - 1], x)
    ensures Arrived(arrivals, x) <==> Arrived(arrivals[..|arrivals| - 1], x)
  {
    var init := arrivals[..|arrivals| - 1];
    if k :| 0 <= k < |arrivals| && Within(arrivals[k], x) {
      assert Within(init[k], x);
    }
    if k :| 0 <= k < |init| && Within(init[k], x) {
      assert Within(arrivals[k], x);
    }
  }

  lemma {:induction false} ArrivalsKeepConsistent(p: Package, st: State, leaf: nat, file: seq<byte>, arrivals: seq<Pkt>)
    requires Consistent(p, st.data, st.computed) && p.DisjointChunks()
    requires forall k | 0 <= k < |arrivals| :: PieceFor(p, leaf, file, arrivals[k])
    ensures var r := InstallAll(p, st, leaf, file, arrivals); Consistent(p, r.data, r.computed)
    decreases |arrivals|
  {
    if arrivals != [] {
      var n := |arrivals| - 1;
      var before, pkt := InstallAll(p, st, leaf, file, arrivals[..n]), arrivals[n];
      ArrivalsKeepConsistent(p, st, leaf, file, arrivals[..n]);
      PieceInstalls(p, before, leaf, file, pkt);
      InsideOwnChunk(p, before, leaf, pkt.data, pkt.size, pkt.offset);
      InstallRebuilds(p, before, leaf, pkt.data, pkt.size, pkt.offset);
    }
  }

  /** What comes out of the wire: fragment order[k], packed by the sender and unpacked by the receiver. */
  function Arrivals(fragments: seq<Pkt>, order: seq<nat>): (r: seq<Pkt>)
    requires Channel.AllValid(fragments) && forall k | 0 <= k < |order| :: order[k] < |fragments|
    ensures |r| == |order|
  {
    seq(|order|, k requires 0 <= k < |order| => Parse(Channel.ImageBlock(fragments[order[k]])))
  }

  lemma ArrivalsAreFragments(fragments: seq<Pkt>, order: seq<nat>)
    requires Channel.AllValid(fragments) && forall k | 0 <= k < |order| :: order[k] < |fragments|
    ensures forall k | 0 <= k < |order| :: Arrivals(fragments, order)[k] == fragments[order[k]]
  {
    forall k | 0 <= k < |order| ensures Arrivals(fragments, order)[k] == fragments[order[k]] {
      ParseOfImage(fragments[order[k]]);
    }
  }

  /** The receiver has the sender's chunk and the expected hash for it, and nothing else changed. */
  ghost predicate Delivered(p: Package, file: seq<byte>, st: State, r: State, leaf: nat) {
    && Consistent(p, r.data, r.computed) && p.Valid(|file|) && |p.expected| == p.Nodes() && |r.data| == |st.data|
    && leaf < p.Nodes() && !IsInternal(p.Nodes(), leaf)
    && ChunkBytes(p, r.data, leaf) == ChunkBytes(p, file, leaf)
    && r.computed[leaf] == p.expected[leaf] && Passes(p, r.computed, leaf)
    && forall x | 0 <= x < |st.data| && !InChunk(p.ChunkOf(leaf), x) :: r.data[x] == st.data[x]
  }

  /** Once every byte of a chunk that passed the sender's check has arrived in some piece, it is delivered. */
  lemma InstallDelivers(p: Package, file: seq<byte>, sc: seq<Hash>, st: State, leaf: nat, arrivals: seq<Pkt>)
    requires Consistent(p, file, sc) && Consistent(p, st.data, st.computed) && p.HexText() && p.DisjointChunks()
    requires |p.expected| == p.Nodes() && leaf < p.Nodes() && !IsInternal(p.Nodes(), leaf) && Passes(p, sc, leaf)
    requires forall k | 0 <= k < |arrivals| :: PieceFor(p, leaf, file, arrivals[k])
    requires forall x: nat | InChunk(p.ChunkOf(leaf), x) :: Arrived(arrivals, x)
    ensures Delivered(p, file, st, InstallAll(p, st, leaf, file, arrivals), leaf)
  {
    var c, r := p.ChunkOf(leaf), InstallAll(p, st, leaf, file, arrivals);
    assert p.chunks[leaf - (|p.chunks| - 1)] == c;
    forall x: nat | InChunk(c, x) ensures x < |st.data| && x < |file| && r.data[x] == file[x] {
      InstalledByte(p, st, leaf, file, arrivals, x);
    }
    forall x | 0 <= x < |st.data| && !InChunk(c, x) ensures r.data[x] == st.data[x] {
      NotArrived(p, leaf, file, arrivals, x);
      InstalledByte(p, st, leaf, file, arrivals, x);
    }
    ArrivalsKeepConsistent(p, st, leaf, file, arrivals);
    LeafMatches(p, file, sc, r, leaf);
  }

  lemma NotArrived(p: Package, leaf: nat, file: seq<byte>, arrivals: seq<Pkt>, x: nat)
    requires leaf < p.Nodes() && !IsInternal(p.Nodes(), leaf) && !InChunk(p.ChunkOf(leaf), x)
    requires forall k | 0 <= k < |arrivals| :: PieceFor(p, leaf, file, arrivals[k])
    ensures !Arrived(arrivals, x)
  {}

  /** The packets for one chunk, as the sender cuts them. */
  function ChunkFragments(p: Package, file: seq<byte>, leaf: nat, ident: seq<byte>): seq<Pkt>
    requires |p.expected| == p.Nodes() && leaf < p.Nodes() && !IsInternal(p.Nodes(), leaf)
    requires p.ChunkOf(leaf).offset + p.ChunkOf(leaf).size <= |file|
  {
    Fragments(file, p.ChunkOf(leaf).offset, p.ChunkOf(leaf).size, p.expected[leaf], ident)
  }

  lemma ChunkFragmentsArePieces(p: Package, file: seq<byte>, leaf: nat, ident: seq<byte>)
    requires |p.expected| == p.Nodes() && leaf < p.Nodes() && !IsInternal(p.Nodes(), leaf)
    requires p.ChunkOf(leaf).offset + p.ChunkOf(leaf).size <= |file| < 0x1_0000_0000
    ensures var f := ChunkFragments(p, file, leaf, ident);
      Channel.AllValid(f) && forall k | 0 <= k < |f| :: PieceFor(p, leaf, file, f[k])
  {
    var c, f := p.ChunkOf(leaf), ChunkFragments(p, file, leaf, ident);
    FragmentsArePieces(file, c.offset, c.size, p.expected[leaf], ident);
    forall k | 0 <= k < |f| ensures f[k].Valid() && PieceFor(p, leaf, file, f[k]) {
      assert IsPiece(file, c.offset, c.offset + c.size, f[k]);
    }
  }

  /**
   * End to end: the fragments of a chunk that passed the sender's check, packed, unpacked and installed in
   * any order, each at least once, give the receiver the sender's bytes and the expected hash at that leaf;
   * no byte outside the chunk changes, and the receiver's tree is as a rebuild would leave it.
   */
  lemma TransferDelivers(p: Package, file: seq<byte>, sc: seq<Hash>, st: State, leaf: nat,
                         ident: seq<byte>, order: seq<nat>)
    requires Consistent(p, file, sc) && Consistent(p, st.data, st.computed) && p.HexText() && p.DisjointChunks()
    requires |p.expected| == p.Nodes() && leaf < p.Nodes() && !IsInternal(p.Nodes(), leaf) && Passes(p, sc, leaf)
    requires p.ChunkOf(leaf).offset + p.ChunkOf(leaf).size <= |file| < 0x1_0000_0000
    requires forall k | 0 <= k < |order| :: order[k] < |ChunkFragments(p, file, leaf, ident)|
    requires forall j | 0 <= j < |ChunkFragments(p, file, leaf, ident)| :: j in order
    ensures var f := ChunkFragments(p, file, leaf, ident);
      && Channel.AllValid(f) && (forall k | 0 <= k < |order| :: PieceFor(p, leaf, file, Arrivals(f, order)[k]))
      && Delivered(p, file, st, InstallAll(p, st, leaf, file, Arrivals(f, order)), leaf)
  {
    var f := ChunkFragments(p, file, leaf, ident);
    ChunkFragmentsArePieces(p, file, leaf, ident);
    ArrivalsAreFragments(f, order);
    var arrivals := Arrivals(f, order);
    forall k | 0 <= k < |order| ensures PieceFor(p, leaf, file, arrivals[k]) {
      assert arrivals[k] == f[order[k]];
    }
    forall x: nat | InChunk(p.ChunkOf(leaf), x) ensures Arrived(arrivals, x) {
      AllArrived(p, file, leaf, ident, f, order, arrivals, x);
    }
    InstallDelivers(p, file, sc, st, leaf, arrivals);
  }

  lemma AllArrived(p: Package, file: seq<byte>, leaf: nat, ident: seq<byte>, f: seq<Pkt>, order: seq<nat>,
                   arrivals: seq<Pkt>, x: nat)
    requires |p.expected| == p.Nodes() && leaf < p.Nodes() && !IsInternal(p.Nodes(), leaf)
    requires p.ChunkOf(leaf).offset + p.ChunkOf(leaf).size <= |file|
    requires InChunk(p.ChunkOf(leaf), x) && f == ChunkFragments(p, file, leaf, ident)
    requires |arrivals| == |order| && (forall k | 0 <= k < |order| :: order[k] < |f| && arrivals[k] == f[order[k]])
    requires forall j | 0 <= j < |f| :: j in order
    ensures Arrived(arrivals, x)
  {
    FragmentsCover(file, p.ChunkOf(leaf).offset, p.ChunkOf(leaf).size, p.expected[leaf], ident, x);
    var j :| 0 <= j < |f| && Within(f[j], x);
    assert j in order;
    var k :| 0 <= k < |order| && order[k] == j;
    assert Within(arrivals[k], x);
  }

  lemma LeafMatches(p: Package, file: seq<byte>, sc: seq<Hash>, r: State, leaf: nat)
    requires Consistent(p, file, sc) && Consistent(p, r.data, r.computed) && p.HexText()
    requires |p.expected| == p.Nodes() && leaf < p.Nodes() && !IsInternal(p.Nodes(), leaf) && Passes(p, sc, leaf)
    requires forall x: nat | InChunk(p.ChunkOf(leaf), x) :: x < |r.data| && x < |file| && r.data[x] == file[x]
    ensures ChunkBytes(p, r.data, leaf) == ChunkBytes(p, file, leaf)
    ensures r.computed[leaf] == p.expected[leaf] && Passes(p, r.computed, leaf)
  {
    var c := p.ChunkOf(leaf);
    assert p.chunks[leaf - (|p.chunks| - 1)] == c;
    forall k | 0 <= k < c.size ensures ChunkBytes(p, r.data, leaf)[k] == ChunkBytes(p, file, leaf)[k] {
      assert InChunk(c, c.offset + k);
    }
    assert ChunkBytes(p, r.data, leaf) == ChunkBytes(p, file, leaf);
    assert Clean(p, file, sc, leaf) && Clean(p, r.data, r.computed, leaf);
    PassesIsEqual(p, file, sc, leaf);
    PassesIsEqual(p, r.data, r.computed, leaf);
  }

  /** Every other chunk keeps its bytes and its leaf's hash. */
  lemma OtherChunksKept(p: Package, file: seq<byte>, st: State, r: State, leaf: nat, other: nat)
    requires Delivered(p, file, st, r, leaf) && Consistent(p, st.data, st.computed) && p.DisjointChunks()
    requires other < p.Nodes() && !IsInternal(p.Nodes(), other) && other != leaf
    ensures ChunkBytes(p, r.data, other) == ChunkBytes(p, st.data, other) && r.computed[other] == st.computed[other]
  {
    var n, c, d := |p.chunks|, p.ChunkOf(leaf), p.ChunkOf(other);
    assert p.chunks[leaf - (n - 1)] == c && p.chunks[other - (n - 1)] == d;
    forall k | 0 <= k < d.size ensures ChunkBytes(p, r.data, other)[k] == ChunkBytes(p, st.data, other)[k] {
      assert !InChunk(c, d.offset + k);
    }
    assert ChunkBytes(p, r.data, other) == ChunkBytes(p, st.data, other);
    assert Clean(p, r.data, r.computed, other) && Clean(p, st.data, st.computed, other);
  }

  /**
   * A fragment is a call the results on concurrent updates cover: it stays in its own chunk, and it is a
   * genuine one when the sender's chunk is genuine.
   */
  lemma FragmentIsGenuineCall(p: Package, original: seq<byte>, file: seq<byte>, leaf: nat, pkt: Pkt)
    requires PieceFor(p, leaf, file, pkt) && p.Valid(|original|) && p.Valid(|file|)
    requires ChunkBytes(p, file, leaf) == ChunkBytes(p, original, leaf)
    ensures var job := Concurrent.Job(leaf, pkt.data[..pkt.size], pkt.offset);
      && Concurrent.ValidJob(p, |original|, job) && ConcurrentOrder.InOwnChunk(p, job)
      && ConcurrentProgress.Genuine(original, job)
  {
    var c := p.ChunkOf(leaf);
    assert p.chunks[leaf - (|p.chunks| - 1)] == c;
    SliceOfChunk(original, c.offset, c.size, pkt.offset, pkt.size);
    SliceOfChunk(file, c.offset, c.size, pkt.offset, pkt.size);
  }

  lemma SliceOfChunk(data: seq<byte>, lo: nat, size: nat, at: nat, n: nat)
    requires lo <= at && at + n <= lo + size <= |data|
    ensures data[at..at + n] == data[lo..lo + size][at - lo..at - lo + n]
  {
    var a, chunk, d := data[at..at + n], data[lo..lo + size], at - lo;
    var b := chunk[d..d + n];
    forall k | 0 <= k < n ensures a[k] == b[k] {
      assert b[k] == chunk[d + k] == data[lo + (d + k)];
    }
  }
}
