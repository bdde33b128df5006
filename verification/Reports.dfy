/** The two completion reports and the lookup that expands the compact one. */
module Reports {
  import opened Bytes
  import opened Sha256Spec
  import opened Shape
  import opened Merkle
  import opened CompletedSubtrees
  import opened LeafOrder

  /** A query result: the array and the length, of which callers read only so much of the array. */
  datatype Query = Query(hashes: seq<Hash>, len: nat)

  /** bpkg_qry_create, whose parameter cuts the length to 16 bits. */
  function CreateQuery(hashes: seq<Hash>): (q: Query)
    ensures q.len <= |q.hashes|
  {
    Query(hashes, |hashes| % 0x1_0000)
  }

  /** The part of a list that survives the cut. */
  function Shown<T>(list: seq<T>): seq<T> { list[..|list| % 0x1_0000] }

  /** The positions of the chunk nodes in the level-order array. */
  function ChunkNodes(n: nat): (r: seq<nat>)
    ensures NodesOf(n, r)
  {
    Range(n / 2, n)
  }

  function Texts(p: Package, nodes: seq<nat>): (r: seq<Hash>)
    requires |p.expected| == p.Nodes() && NodesOf(p.Nodes(), nodes)
    ensures |r| == |nodes| && forall k | 0 <= k < |r| :: r[k] == p.expected[nodes[k]]
  {
    if nodes == [] then [] else [p.expected[nodes[0]]] + Texts(p, nodes[1..])
  }

  /** With distinct expected hashes a list of texts says which nodes it was made from. */
  lemma TextsDecide(p: Package, s: seq<nat>, t: seq<nat>)
    requires |p.expected| == p.Nodes() && NodesOf(p.Nodes(), s) && NodesOf(p.Nodes(), t) && Distinct(p.expected)
    ensures Texts(p, s) == Texts(p, t) <==> s == t
  {
    if Texts(p, s) == Texts(p, t) {
      assert |s| == |Texts(p, s)| == |t|;
      forall k | 0 <= k < |s| ensures s[k] == t[k] {
        assert p.expected[s[k]] == Texts(p, s)[k] == p.expected[t[k]];
      }
    }
  }

  lemma ChunkCount(p: Package)
    requires |p.chunks| >= 1
    ensures p.Nodes() % 2 == 1 && p.Nodes() / 2 + 1 == |p.chunks|
  {}

  /** Without the order of a power of two the expansion lists the completed chunks in rotated order. */
  lemma ExpansionIsRotated(p: Package, original: seq<byte>, data: seq<byte>, c: seq<Hash>, m: nat)
    requires Faithful(p, original, data, c) && Pow2(m) <= |p.chunks| < Pow2(m + 1)
    ensures var n := p.Nodes();
      && NodesOf(n, Frontier(p, c, 0)) && NodesOf(n, Rotated(ChunkNodes(n), Pow2(m + 1) - |p.chunks|))
      && Expand(n, Frontier(p, c, 0)) == Completed(p, c, Rotated(ChunkNodes(n), Pow2(m + 1) - |p.chunks|))
  {
    var n := p.Nodes();
    ChunkCount(p);
    RootOrder(n, m);
    assert Leaves(n, 0) == Rotated(ChunkNodes(n), Pow2(m + 1) - |p.chunks|);
    FrontierIsCompleted(p, original, data, c, 0);
  }

  /** For a power of two the compact report expands to exactly the plain report. */
  lemma ReportsAgree(p: Package, original: seq<byte>, data: seq<byte>, c: seq<Hash>)
    requires Faithful(p, original, data, c) && IsPow2(|p.chunks|)
    ensures NodesOf(p.Nodes(), Frontier(p, c, 0))
    ensures Expand(p.Nodes(), Frontier(p, c, 0)) == Completed(p, c, ChunkNodes(p.Nodes()))
  {
    ChunkCount(p);
    OrderKeptIffPowerOfTwo(p.Nodes());
    assert Leaves(p.Nodes(), 0) == ChunkNodes(p.Nodes());
    FrontierIsCompleted(p, original, data, c, 0);
  }

  /** If the root passes every chunk is complete. */
  lemma EverythingCompleted(p: Package, original: seq<byte>, data: seq<byte>, c: seq<Hash>)
    requires Faithful(p, original, data, c) && Passes(p, c, 0)
    ensures Completed(p, c, ChunkNodes(p.Nodes())) == ChunkNodes(p.Nodes())
  {
    var n := p.Nodes();
    PassesIffLeavesPass(p, original, data, c, 0);
    LeavesOnce(n, 0);
    forall x | x in ChunkNodes(n) ensures x < n && Passes(p, c, x) {
      RootAbove(x);
      assert IsLeafBelow(n, 0, x);
    }
    CompletedAll(p, c, ChunkNodes(n));
  }

  /** And only then: once everything is complete, any other number of chunks lists them in another order. */
  lemma CompleteReportsAgreeIff(p: Package, original: seq<byte>, data: seq<byte>, c: seq<Hash>)
    requires Faithful(p, original, data, c) && Passes(p, c, 0)
    ensures NodesOf(p.Nodes(), Frontier(p, c, 0))
    ensures Expand(p.Nodes(), Frontier(p, c, 0)) == Completed(p, c, ChunkNodes(p.Nodes())) <==> IsPow2(|p.chunks|)
  {
    FrontierIsCompleted(p, original, data, c, 0);
    PassesIffLeavesPass(p, original, data, c, 0);
    CompletedAll(p, c, Leaves(p.Nodes(), 0));
    EverythingCompleted(p, original, data, c);
    ChunkCount(p);
    OrderKeptIffPowerOfTwo(p.Nodes());
  }

  // When the two reports agree, on any tree.

  /** The chunk nodes the expansion lists last, and those it lists first; for a power of two the latter are none. */
  function Tail(p: Package, m: nat): (r: seq<nat>)
    requires 1 <= Pow2(m) <= |p.chunks| < Pow2(m + 1)
    ensures NodesOf(p.Nodes(), r)
  {
    ChunkNodes(p.Nodes())[..Pow2(m + 1) - |p.chunks|]
  }

  function Head(p: Package, m: nat): (r: seq<nat>)
    requires 1 <= Pow2(m) <= |p.chunks| < Pow2(m + 1)
    ensures NodesOf(p.Nodes(), r)
  {
    ChunkNodes(p.Nodes())[Pow2(m + 1) - |p.chunks|..]
  }

  predicate NonePasses(p: Package, c: seq<Hash>, nodes: seq<nat>)
    requires |p.expected| == p.Nodes() && |c| == p.Nodes() && NodesOf(p.Nodes(), nodes)
  {
    forall k | 0 <= k < |nodes| :: !Passes(p, c, nodes[k])
  }

  lemma {:induction false} CompletedEmptyIff(p: Package, c: seq<Hash>, nodes: seq<nat>)
    requires |p.expected| == p.Nodes() && |c| == p.Nodes() && NodesOf(p.Nodes(), nodes)
    ensures Completed(p, c, nodes) == [] <==> NonePasses(p, c, nodes)
  {
    if nodes != [] {
      CompletedEmptyIff(p, c, nodes[1..]);
      assert forall k | 0 < k < |nodes| :: nodes[k] == nodes[1..][k - 1];
    }
  }

  /** Two lists with no element in common can be swapped, or agree on a prefix when swapped, only when one is empty. */
  lemma SwapIff<T>(a: seq<T>, b: seq<T>, len: nat)
    requires Distinct(a + b) && len <= |a + b|
    ensures (a + b)[..len] == (b + a)[..len] <==> len == 0 || a == [] || b == []
  {
    if a == [] || b == [] {
      assert a + b == b + a;
    } else if len > 0 {
      assert (a + b)[..len][0] == (a + b)[0] && (b + a)[..len][0] == (b + a)[0] == (a + b)[|a|];
    }
  }

  lemma ChunksInParts(p: Package, m: nat)
    requires 1 <= Pow2(m) <= |p.chunks| < Pow2(m + 1)
    ensures ChunkNodes(p.Nodes()) == Tail(p, m) + Head(p, m) && Distinct(ChunkNodes(p.Nodes()))
    ensures Rotated(ChunkNodes(p.Nodes()), Pow2(m + 1) - |p.chunks|) == Head(p, m) + Tail(p, m)
  {}

  /** The plain list and the expansion, as the completed part of the tail before or after that of the head. */
  lemma ReportsInParts(p: Package, original: seq<byte>, data: seq<byte>, c: seq<Hash>, m: nat)
    requires Faithful(p, original, data, c) && Pow2(m) <= |p.chunks| < Pow2(m + 1)
    ensures var n, t, h := p.Nodes(), Completed(p, c, Tail(p, m)), Completed(p, c, Head(p, m));
      && NodesOf(n, Frontier(p, c, 0)) && Distinct(t + h)
      && Completed(p, c, ChunkNodes(n)) == t + h && Expand(n, Frontier(p, c, 0)) == h + t
  {
    var n, tail, head := p.Nodes(), Tail(p, m), Head(p, m);
    ExpansionIsRotated(p, original, data, c, m);
    ChunksInParts(p, m);
    CompletedCat(p, c, tail, head);
    CompletedCat(p, c, head, tail);
    CompletedDistinct(p, c, ChunkNodes(n));
  }

  /**
   * On any tree the expansion is the plain list exactly when no chunk of the tail is complete or none of the
   * head is; for a power of two the head is empty. These are lists of nodes: their texts agree then, and with
   * distinct expected hashes only then.
   */
  lemma ReportsAgreeIff(p: Package, original: seq<byte>, data: seq<byte>, c: seq<Hash>, m: nat)
    requires Faithful(p, original, data, c) && Pow2(m) <= |p.chunks| < Pow2(m + 1)
    ensures NodesOf(p.Nodes(), Frontier(p, c, 0))
    ensures Expand(p.Nodes(), Frontier(p, c, 0)) == Completed(p, c, ChunkNodes(p.Nodes())) <==>
      NonePasses(p, c, Tail(p, m)) || NonePasses(p, c, Head(p, m))
    ensures var n := p.Nodes();
      && NodesOf(n, Completed(p, c, ChunkNodes(n))) && NodesOf(n, Expand(n, Frontier(p, c, 0)))
      && (Distinct(p.expected) ==>
        (Texts(p, Expand(n, Frontier(p, c, 0))) == Texts(p, Completed(p, c, ChunkNodes(n))) <==>
        NonePasses(p, c, Tail(p, m)) || NonePasses(p, c, Head(p, m))))
  {
    var t, h := Completed(p, c, Tail(p, m)), Completed(p, c, Head(p, m));
    ReportsInParts(p, original, data, c, m);
    CompletedEmptyIff(p, c, Tail(p, m));
    CompletedEmptyIff(p, c, Head(p, m));
    SwapIff(t, h, |t + h|);
    assert (t + h)[..|t + h|] == t + h && (h + t)[..|t + h|] == h + t;
    CompletedInRange(p, c, ChunkNodes(p.Nodes()));
    CompletedInRange(p, c, Tail(p, m));
    CompletedInRange(p, c, Head(p, m));
    if Distinct(p.expected) {
      TextsDecide(p, h + t, t + h);
    }
  }

  // What callers see of the two reports: both lengths are cut to 16 bits.

  lemma QueryShows(p: Package, nodes: seq<nat>)
    requires |p.expected| == p.Nodes() && NodesOf(p.Nodes(), nodes)
    ensures NodesOf(p.Nodes(), Shown(nodes))
    ensures var q := CreateQuery(Texts(p, nodes));
      q.len == |Shown(nodes)| && q.hashes[..q.len] == Texts(p, Shown(nodes))
  {}

  /** Expanding the first nodes of a list gives a prefix of expanding them all. */
  lemma ExpandPrefix(n: nat, nodes: seq<nat>, k: nat)
    requires NodesOf(n, nodes) && k <= |nodes|
    ensures |Expand(n, nodes[..k])| <= |Expand(n, nodes)|
    ensures Expand(n, nodes[..k]) == Expand(n, nodes)[..|Expand(n, nodes[..k])|]
  {
    ExpandCat(n, nodes[..k], nodes[k..]);
    assert nodes[..k] + nodes[k..] == nodes;
  }

  /** A prefix of one order against the shown part of the other. */
  lemma ShownIff<T>(t: seq<T>, h: seq<T>, e: seq<T>)
    requires Distinct(t + h) && |e| <= |h + t| && e == (h + t)[..|e|]
    ensures e == Shown(t + h) <==>
      |e| == |t + h| % 0x1_0000 && (|t + h| % 0x1_0000 == 0 || t == [] || h == [])
  {
    SwapIff(t, h, |t + h| % 0x1_0000);
  }

  lemma CutLength(n: nat)
    ensures n % 0x1_0000 == n <==> n < 0x1_0000
  {}

  lemma ShownWhole<T>(list: seq<T>)
    requires |list| < 0x1_0000
    ensures Shown(list) == list
  {
    CutLength(|list|);
  }

  lemma ShownWholeIff<T>(t: seq<T>, h: seq<T>)
    requires Distinct(t + h)
    ensures h + t == Shown(t + h) <==> |t + h| < 0x1_0000 && (t == [] || h == [])
  {
    CutLength(|t + h|);
    assert h + t == (h + t)[..|h + t|];
    ShownIff(t, h, h + t);
  }

  /** The nodes behind both lists, and behind the expansion of what the compact query shows, lie in the tree. */
  lemma ReportsInRange(p: Package, c: seq<Hash>, k: nat)
    requires |p.expected| == p.Nodes() && |c| == p.Nodes() && |p.chunks| >= 1 && k <= |Frontier(p, c, 0)|
    ensures var n, f := p.Nodes(), Frontier(p, c, 0);
      && NodesOf(n, f) && NodesOf(n, Completed(p, c, ChunkNodes(n))) && NodesOf(n, f[..k])
      && NodesOf(n, Expand(n, f[..k]))
  {
    FrontierInRange(p, c, 0);
    CompletedInRange(p, c, ChunkNodes(p.Nodes()));
    ExpandInRange(p.Nodes(), Frontier(p, c, 0)[..k]);
  }

  lemma {:induction false} ExpandInRange(n: nat, nodes: seq<nat>)
    requires NodesOf(n, nodes)
    ensures NodesOf(n, Expand(n, nodes)) && |nodes| <= |Expand(n, nodes)|
  {
    if nodes != [] {
      LeavesInRange(n, nodes[0]);
      ExpandInRange(n, nodes[1..]);
    }
  }

  /** What a caller compares: the hashes the plain query shows and the chunks below those the compact one shows. */
  ghost predicate QueriesAgree(p: Package, c: seq<Hash>)
    requires |p.expected| == p.Nodes() && |c| == p.Nodes() && |p.chunks| >= 1
  {
    var n, f := p.Nodes(), Frontier(p, c, 0);
    ReportsInRange(p, c, |f|);
    var compact, plain := CreateQuery(Texts(p, f)), CreateQuery(Texts(p, Completed(p, c, ChunkNodes(n))));
    ReportsInRange(p, c, compact.len);
    Texts(p, Expand(n, f[..compact.len])) == plain.hashes[..plain.len]
  }

  /**
   * What callers see of the two queries agrees exactly when the nodes the compact one still shows stand above as
   * many chunks as the plain one still shows, and either that is none, or the lists agree as a whole; of the
   * texts instead of the nodes that is so if the expected hashes are distinct.
   */
  lemma ShownReportsAgreeIff(p: Package, original: seq<byte>, data: seq<byte>, c: seq<Hash>, m: nat)
    requires Faithful(p, original, data, c) && Pow2(m) <= |p.chunks| < Pow2(m + 1)
    ensures var n, f, done := p.Nodes(), Frontier(p, c, 0), Completed(p, c, ChunkNodes(p.Nodes()));
      && NodesOf(n, f) && NodesOf(n, done)
      && var compact, plain := CreateQuery(Texts(p, f)), CreateQuery(Texts(p, done));
      var agree := |Expand(n, f[..compact.len])| == plain.len
        && (plain.len == 0 || NonePasses(p, c, Tail(p, m)) || NonePasses(p, c, Head(p, m)));
      && (Expand(n, f[..compact.len]) == done[..plain.len] <==> agree)
      && (agree ==> QueriesAgree(p, c)) && (Distinct(p.expected) && QueriesAgree(p, c) ==> agree)
  {
    var n, f := p.Nodes(), Frontier(p, c, 0);
    var plain := Completed(p, c, ChunkNodes(n));
    ReportsInParts(p, original, data, c, m);
    CompletedEmptyIff(p, c, Tail(p, m));
    CompletedEmptyIff(p, c, Head(p, m));
    ReportsInRange(p, c, |f| % 0x1_0000);
    QueryShows(p, f);
    QueryShows(p, plain);
    ExpandPrefix(n, f, |f| % 0x1_0000);
    ShownIff(Completed(p, c, Tail(p, m)), Completed(p, c, Head(p, m)), Expand(n, Shown(f)));
    if Distinct(p.expected) {
      TextsDecide(p, Expand(n, Shown(f)), Shown(plain));
    }
  }

  /**
   * While the compact report has fewer than 65536 nodes, what callers see agrees exactly when fewer than 65536
   * chunks are complete and no chunk of the tail, or none of the head, is.
   */
  lemma VisibleReportsAgreeIff(p: Package, original: seq<byte>, data: seq<byte>, c: seq<Hash>, m: nat)
    requires Faithful(p, original, data, c) && Pow2(m) <= |p.chunks| < Pow2(m + 1)
    requires |Frontier(p, c, 0)| < 0x1_0000
    ensures var n, f, done := p.Nodes(), Frontier(p, c, 0), Completed(p, c, ChunkNodes(p.Nodes()));
      && NodesOf(n, f) && NodesOf(n, done)
      && var compact, plain := CreateQuery(Texts(p, f)), CreateQuery(Texts(p, done));
      var agree := |done| < 0x1_0000 && (NonePasses(p, c, Tail(p, m)) || NonePasses(p, c, Head(p, m)));
      && compact.len == |f| && (Expand(n, f) == done[..plain.len] <==> agree)
      && (agree ==> QueriesAgree(p, c)) && (Distinct(p.expected) && QueriesAgree(p, c) ==> agree)
  {
    var n, f, t, h := p.Nodes(), Frontier(p, c, 0), Completed(p, c, Tail(p, m)), Completed(p, c, Head(p, m));
    ReportsInParts(p, original, data, c, m);
    CompletedEmptyIff(p, c, Tail(p, m));
    CompletedEmptyIff(p, c, Head(p, m));
    ReportsInRange(p, c, |f|);
    QueryShows(p, f);
    QueryShows(p, t + h);
    ShownWhole(f);
    ShownWholeIff(t, h);
    if Distinct(p.expected) {
      TextsDecide(p, h + t, Shown(t + h));
    }
  }

  /** With 65536 complete chunks the plain report shows nothing and the compact one its single hash. */
  lemma FullPlainReportIsEmpty(p: Package, original: seq<byte>, data: seq<byte>, c: seq<Hash>)
    requires Faithful(p, original, data, c) && |p.chunks| == 0x1_0000 && Passes(p, c, 0)
    ensures var n := p.Nodes();
      && NodesOf(n, Frontier(p, c, 0)) && NodesOf(n, Completed(p, c, ChunkNodes(n)))
      && CreateQuery(Texts(p, Completed(p, c, ChunkNodes(n)))).len == 0
      && CreateQuery(Texts(p, Frontier(p, c, 0))).len == 1
  {
    EverythingCompleted(p, original, data, c);
    assert Frontier(p, c, 0) == [0];
  }

  // Expansion through the lookup by hash.

  /** The first node from k on, below limit, whose expected hash is the query. */
  function Lookup(p: Package, query: Hash, k: nat, limit: nat): Option<nat>
    requires limit <= |p.expected|
    decreases limit - k
  {
    if k >= limit then None
    else if StrnEqual(p.expected[k], query, 64) then Some(k)
    else Lookup(p, query, k + 1, limit)
  }

  datatype SearchMode = InternalMode | ChunkMode | AllMode

  /** How many nodes of the combined array a search looks at; the program holds the count in 16 bits. */
  function SearchCount(p: Package, mode: SearchMode): (limit: nat)
    requires |p.expected| == p.Nodes() && |p.chunks| >= 1
    ensures limit <= |p.expected|
    ensures mode == AllMode && |p.expected| < 0x1_0000 ==> limit == |p.expected|
  {
    match mode
    case AllMode => |p.expected| % 0x1_0000
    case InternalMode => (|p.expected| - |p.chunks|) % 0x1_0000
    case ChunkMode => |p.chunks| % 0x1_0000
  }

  ghost predicate TextsWithoutNul(p: Package) { forall k | 0 <= k < |p.expected| :: NoNul(p.expected[k]) }

  lemma MatchIsEquality(p: Package, k: nat, query: Hash)
    requires TextsWithoutNul(p) && k < |p.expected|
    ensures StrnEqual(p.expected[k], query, 64) <==> p.expected[k] == query
  {
    assert p.expected[k][..64] == p.expected[k] && query[..64] == query;
    StrnEqualDecides(p.expected[k], query, 64);
  }

  lemma {:induction false} LookupLeast(p: Package, query: Hash, k: nat, limit: nat)
    requires k <= limit <= |p.expected|
    ensures match Lookup(p, query, k, limit)
      case None => forall j | k <= j < limit :: !StrnEqual(p.expected[j], query, 64)
      case Some(i) =>
        && k <= i < limit && StrnEqual(p.expected[i], query, 64)
        && forall j | k <= j < i :: !StrnEqual(p.expected[j], query, 64)
    decreases limit - k
  {
    if k < limit && !StrnEqual(p.expected[k], query, 64) {
      LookupLeast(p, query, k + 1, limit);
    }
  }

  /**
   * For any hashes and any query: the node found is the first in the array with the hash, among as many nodes as
   * the mode counts in 16 bits, and none is found exactly when none of those has it.
   */
  lemma LookupIs(p: Package, mode: SearchMode, query: Hash)
    requires |p.expected| == p.Nodes() && |p.chunks| >= 1 && TextsWithoutNul(p)
    ensures var limit := (match mode
        case AllMode => 2 * |p.chunks| - 1
        case InternalMode => |p.chunks| - 1
        case ChunkMode => |p.chunks|) % 0x1_0000;
      && limit <= |p.expected|
      && match Lookup(p, query, 0, SearchCount(p, mode))
        case None => forall j | 0 <= j < limit :: p.expected[j] != query
        case Some(i) => i < limit && p.expected[i] == query && forall j | 0 <= j < i :: p.expected[j] != query
  {
    LookupLeast(p, query, 0, SearchCount(p, mode));
    forall j | 0 <= j < |p.expected| ensures StrnEqual(p.expected[j], query, 64) <==> p.expected[j] == query {
      MatchIsEquality(p, j, query);
    }
  }

  /** A hash the package does not have gives an empty query. */
  lemma UnknownHashIsEmpty(p: Package, query: Hash)
    requires |p.expected| == p.Nodes() && |p.chunks| >= 1 && TextsWithoutNul(p) && query !in p.expected
    ensures CreateQuery(ChunkTexts(p, query)) == Query([], 0)
  {
    LookupIs(p, AllMode, query);
  }

  /** A hash it has within the 16-bit count gives the chunk hashes below the first node that has it. */
  lemma KnownHashListsChunks(p: Package, i: nat)
    requires |p.expected| == p.Nodes() < 0x1_0000 && |p.chunks| >= 1 && TextsWithoutNul(p) && i < p.Nodes()
    requires forall j | 0 <= j < i :: p.expected[j] != p.expected[i]
    ensures var s := Leaves(p.Nodes(), i);
      && |ChunkTexts(p, p.expected[i])| == |s|
      && forall k | 0 <= k < |s| :: s[k] < |p.expected| && ChunkTexts(p, p.expected[i])[k] == p.expected[s[k]]
  {
    LookupIs(p, AllMode, p.expected[i]);
    assert Lookup(p, p.expected[i], 0, SearchCount(p, AllMode)) == Some(i);
    LeavesInRange(p.Nodes(), i);
  }

  /** With distinct expected hashes the search finds node i if and only if the 16-bit count reaches it. */
  lemma LookupFindsIff(p: Package, mode: SearchMode, i: nat)
    requires |p.expected| == p.Nodes() && |p.chunks| >= 1
    requires TextsWithoutNul(p) && Distinct(p.expected) && i < |p.expected|
    ensures Lookup(p, p.expected[i], 0, SearchCount(p, mode)) == if i < SearchCount(p, mode) then Some(i) else None
  {
    LookupFrom(p, i, 0, SearchCount(p, mode));
  }

  /**
   * The search among the chunks looks at the first nodes of the array, where the hash nodes are: of all chunk
   * nodes it finds exactly the first, and that only below 65536 chunks.
   */
  lemma ChunkModeFindsIff(p: Package, k: nat)
    requires |p.expected| == p.Nodes() && TextsWithoutNul(p) && Distinct(p.expected) && k < |p.chunks|
    ensures var i := |p.chunks| - 1 + k;
      Lookup(p, p.expected[i], 0, SearchCount(p, ChunkMode)) ==
        if k == 0 && |p.chunks| < 0x1_0000 then Some(i) else None
  {
    LookupFindsIff(p, ChunkMode, |p.chunks| - 1 + k);
    CutLength(|p.chunks|);
  }

  lemma {:induction false} LookupFrom(p: Package, i: nat, k: nat, limit: nat)
    requires TextsWithoutNul(p) && Distinct(p.expected) && i < |p.expected| && limit <= |p.expected|
    ensures Lookup(p, p.expected[i], k, limit) == if k <= i < limit then Some(i) else None
    decreases limit - k
  {
    if k < limit {
      MatchIsEquality(p, k, p.expected[i]);
      if k != i {
        LookupFrom(p, i, k + 1, limit);
      }
    }
  }

  /** What bpkg_get_all_chunk_hashes_from_hash lists for one hash. */
  function ChunkTexts(p: Package, query: Hash): seq<Hash>
    requires |p.expected| == p.Nodes() && |p.chunks| >= 1
  {
    match Lookup(p, query, 0, SearchCount(p, AllMode))
    case None => []
    case Some(i) =>
      LookupInRange(p, query, 0, SearchCount(p, AllMode));
      LeavesInRange(p.Nodes(), i);
      Texts(p, Leaves(p.Nodes(), i))
  }

  lemma {:induction false} LookupInRange(p: Package, query: Hash, k: nat, limit: nat)
    requires limit <= |p.expected|
    ensures Lookup(p, query, k, limit).Some? ==> Lookup(p, query, k, limit).value < limit
    decreases limit - k
  {
    if k < limit {
      LookupInRange(p, query, k + 1, limit);
    }
  }

  function ExpandTexts(p: Package, hashes: seq<Hash>): seq<Hash>
    requires |p.expected| == p.Nodes() && |p.chunks| >= 1
  {
    if hashes == [] then [] else ChunkTexts(p, hashes[0]) + ExpandTexts(p, hashes[1..])
  }

  lemma TextsCat(p: Package, s: seq<nat>, t: seq<nat>)
    requires |p.expected| == p.Nodes() && NodesOf(p.Nodes(), s) && NodesOf(p.Nodes(), t)
    ensures Texts(p, s + t) == Texts(p, s) + Texts(p, t)
  {}

  lemma {:induction false} ExpandedTexts(p: Package, nodes: seq<nat>)
    requires |p.expected| == p.Nodes() < 0x1_0000 && |p.chunks| >= 1 && TextsWithoutNul(p) && Distinct(p.expected)
    requires NodesOf(p.Nodes(), nodes)
    ensures NodesOf(p.Nodes(), Expand(p.Nodes(), nodes))
    ensures ExpandTexts(p, Texts(p, nodes)) == Texts(p, Expand(p.Nodes(), nodes))
  {
    if nodes != [] {
      var i, rest := nodes[0], nodes[1..];
      ExpandedTexts(p, rest);
      LookupFindsIff(p, AllMode, i);
      LeavesInRange(p.Nodes(), i);
      TextsCat(p, Leaves(p.Nodes(), i), Expand(p.Nodes(), rest));
      assert Texts(p, nodes)[1..] == Texts(p, rest);
    }
  }

  /**
   * The whole loop over what the queries show: the compact report, each hash looked up and expanded, is the
   * plain report.
   */
  lemma ReportsAgreeByHash(p: Package, original: seq<byte>, data: seq<byte>, c: seq<Hash>)
    requires Faithful(p, original, data, c) && IsPow2(|p.chunks|)
    requires p.Nodes() < 0x1_0000 && Distinct(p.expected)
    ensures var n := p.Nodes();
      && NodesOf(n, Frontier(p, c, 0)) && NodesOf(n, Completed(p, c, ChunkNodes(n)))
      && var compact := CreateQuery(Texts(p, Frontier(p, c, 0)));
      var plain := CreateQuery(Texts(p, Completed(p, c, ChunkNodes(n))));
      && compact.len == |compact.hashes| && plain.len == |plain.hashes|
      && ExpandTexts(p, compact.hashes) == plain.hashes
  {
    var n := p.Nodes();
    ReportsAgree(p, original, data, c);
    ExpectedWithoutNul(p, original);
    ExpandedTexts(p, Frontier(p, c, 0));
    CompletedInRange(p, c, ChunkNodes(n));
    ExpandInRange(n, Frontier(p, c, 0));
    CutLength(|Frontier(p, c, 0)|);
    CutLength(|Completed(p, c, ChunkNodes(n))|);
  }

  lemma ExpectedWithoutNul(p: Package, original: seq<byte>)
    requires Consistent(p, original, p.expected) && p.HexText()
    ensures TextsWithoutNul(p)
  {
    forall k | 0 <= k < |p.expected| ensures NoNul(p.expected[k]) {
      assert Clean(p, original, p.expected, k);
    }
  }
}
