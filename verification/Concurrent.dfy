/**
 * update_chunk_node run by any number of threads on one tree. A step is one lock or unlock, one byte
 * copied into the file, one byte fed to the hash, or one character of a hash stored; the steps of
 * different threads interleave freely.
 */
module Concurrent {
  import opened Bytes
  import opened Sha256Spec
  import opened Shape
  import opened Merkle

  /** One call: the bytes to copy to an offset of the file, through a leaf. */
  datatype Job = Job(leaf: nat, bytes: seq<byte>, at: nat)

  /** Where a thread stands. Copying, Reading and Writing hold the lock of their node, and no other lock. */
  datatype Thread =
    | Waiting(job: Job, node: nat)
    | Copying(job: Job, copied: nat)
    | Reading(job: Job, node: nat, text: seq<byte>)
    | Writing(job: Job, node: nat, digest: Hash, written: nat)
    | Done(job: Job)

  datatype Config = Config(data: seq<byte>, computed: seq<Hash>, threads: seq<Thread>)

  predicate Holds(th: Thread, q: nat) {
    match th
    case Waiting(_, _) => false
    case Copying(job, _) => job.leaf == q
    case Reading(_, node, _) => node == q
    case Writing(_, node, _, _) => node == q
    case Done(_) => false
  }

  function SourceLength(p: Package, q: nat): nat
    requires q < p.Nodes()
  {
    if IsInternal(p.Nodes(), q) then 128 else p.ChunkOf(q).size
  }

  /** A call through a leaf, no longer than its chunk, to any offset of the file: the program checks no more. */
  predicate ValidJob(p: Package, fileSize: nat, job: Job) {
    && job.leaf < p.Nodes() && !IsInternal(p.Nodes(), job.leaf)
    && |job.bytes| <= p.ChunkOf(job.leaf).size && job.at + |job.bytes| <= fileSize
  }

  /** The call writes no byte that another leaf q hashes. */
  predicate Apart(p: Package, job: Job, q: nat)
    requires q < p.Nodes()
  {
    IsInternal(p.Nodes(), q) || job.leaf == q || job.bytes == []
    || var c := p.ChunkOf(q); job.at + |job.bytes| <= c.offset || c.offset + c.size <= job.at
  }

  predicate ValidThread(p: Package, fileSize: nat, th: Thread) {
    && ValidJob(p, fileSize, th.job)
    && match th
    case Waiting(_, node) => node < p.Nodes()
    case Copying(job, copied) => copied <= |job.bytes|
    case Reading(_, node, text) => node < p.Nodes() && |text| <= SourceLength(p, node)
    case Writing(_, node, _, written) => node < p.Nodes() && written <= 64
    case Done(_) => true
  }

  ghost predicate WellFormed(p: Package, s: Config) {
    && p.Valid(|s.data|) && |s.computed| == p.Nodes()
    && forall t | 0 <= t < |s.threads| :: ValidThread(p, |s.data|, s.threads[t])
  }

  /** A lock is free or held by one thread. */
  ghost predicate Exclusive(s: Config) {
    forall t, u, q: nat | 0 <= t < |s.threads| && 0 <= u < |s.threads| && t != u ::
      !(Holds(s.threads[t], q) && Holds(s.threads[u], q))
  }

  /** A thread moves unless it is done or waits for a lock that another holds. */
  predicate CanMove(s: Config, t: nat) {
    && t < |s.threads| && !s.threads[t].Done?
    && (s.threads[t].Waiting? ==> forall u | 0 <= u < |s.threads| :: !Holds(s.threads[u], s.threads[t].node))
  }

  function Locked(job: Job, q: nat): Thread { if q == job.leaf then Copying(job, 0) else Reading(job, q, []) }

  function Unlocked(job: Job, q: nat): Thread { if q == 0 then Done(job) else Waiting(job, Parent(q)) }

  function Moved(p: Package, s: Config, t: nat): Thread
    requires WellFormed(p, s) && t < |s.threads|
  {
    match s.threads[t]
    case Waiting(job, q) => Locked(job, q)
    case Copying(job, k) => if k < |job.bytes| then Copying(job, k + 1) else Reading(job, job.leaf, [])
    case Reading(job, q, text) =>
      var source := Source(p, s.data, s.computed, q);
      if |text| < |source| then Reading(job, q, text + [source[|text|]]) else Writing(job, q, p.digest(text), 0)
    case Writing(job, q, d, k) => if k < 64 then Writing(job, q, d, k + 1) else Unlocked(job, q)
    case Done(job) => Done(job)
  }

  function MovedData(p: Package, s: Config, t: nat): (data: seq<byte>)
    requires WellFormed(p, s) && t < |s.threads|
    ensures |data| == |s.data|
  {
    match s.threads[t]
    case Copying(job, k) =>
      assert ValidThread(p, |s.data|, s.threads[t]);
      if k < |job.bytes| then s.data[job.at + k := job.bytes[k]] else s.data
    case _ => s.data
  }

  function MovedHashes(p: Package, s: Config, t: nat): (c: seq<Hash>)
    requires WellFormed(p, s) && t < |s.threads|
    ensures |c| == |s.computed|
  {
    match s.threads[t]
    case Writing(job, q, d, k) => if k < 64 then s.computed[q := s.computed[q][k := d[k]]] else s.computed
    case _ => s.computed
  }

  /** One step of thread t. */
  function Move(p: Package, s: Config, t: nat): (r: Config)
    requires WellFormed(p, s) && t < |s.threads|
  {
    Config(MovedData(p, s, t), MovedHashes(p, s, t), s.threads[t := Moved(p, s, t)])
  }

  lemma SourceHasLength(p: Package, data: seq<byte>, c: seq<Hash>, q: nat)
    requires p.Valid(|data|) && |c| == p.Nodes() && q < p.Nodes()
    ensures |Source(p, data, c, q)| == SourceLength(p, q)
  {}

  lemma MoveIsWellFormed(p: Package, s: Config, t: nat)
    requires WellFormed(p, s) && t < |s.threads|
    ensures WellFormed(p, Move(p, s, t))
  {
    var th := s.threads[t];
    assert ValidThread(p, |s.data|, th);
    if th.Reading? {
      SourceHasLength(p, s.data, s.computed, th.node);
    }
    assert ValidThread(p, |s.data|, Moved(p, s, t));
  }

  lemma MoveIsExclusive(p: Package, s: Config, t: nat)
    requires WellFormed(p, s) && CanMove(s, t) && Exclusive(s)
    ensures Exclusive(Move(p, s, t))
  {
    var r, th := Move(p, s, t), s.threads[t];
    forall u, q: nat | 0 <= u < |r.threads| && u != t && Holds(r.threads[t], q) ensures !Holds(s.threads[u], q) {
      if !th.Waiting? {
        assert Holds(th, q);
      }
    }
  }

  // What the threads still owe the tree.

  /**
   * Thread th will bring node q up to date: it has yet to lock it, or it is in the middle of the rehash
   * and nothing it has read or stored is out of date.
   */
  predicate Owes(p: Package, th: Thread, q: nat, source: seq<byte>, hash: Hash) {
    match th
    case Waiting(_, node) => Under(q, node)
    case Copying(job, _) => Under(q, job.leaf)
    case Reading(_, node, text) => Under(q, node) && (q == node ==> text <= source)
    case Writing(_, node, d, k) =>
      Under(q, node) && (q == node ==> d == p.digest(source) && k <= 64 && d[..k] == hash[..k])
    case Done(_) => false
  }

  predicate Rehashes(th: Thread, q: nat) { (th.Reading? || th.Writing?) && th.node == q }

  ghost predicate OwedAt(p: Package, threads: seq<Thread>, q: nat, source: seq<byte>, hash: Hash) {
    exists t :: 0 <= t < |threads| && Owes(p, threads[t], q, source, hash)
  }

  /** The hash is right and nobody is about to overwrite it. */
  ghost predicate SettledAt(p: Package, threads: seq<Thread>, q: nat, source: seq<byte>, hash: Hash) {
    hash == p.digest(source) && forall t | 0 <= t < |threads| :: !Rehashes(threads[t], q)
  }

  ghost predicate Covered(p: Package, s: Config, q: nat)
    requires p.Valid(|s.data|) && |s.computed| == p.Nodes() && q < p.Nodes()
  {
    var source, hash := Source(p, s.data, s.computed, q), s.computed[q];
    OwedAt(p, s.threads, q, source, hash) || SettledAt(p, s.threads, q, source, hash)
  }

  /** No call so far writes bytes that q hashes unless it goes through q; always so for an internal node. */
  predicate Untouched(p: Package, s: Config, q: nat)
    requires q < p.Nodes()
  {
    forall t | 0 <= t < |s.threads| :: Apart(p, s.threads[t].job, q)
  }

  /**
   * In every reachable state each internal node is right or some thread in flight owes it a rehash,
   * wherever in the file the calls write; so is each leaf that no call through another leaf has written to.
   */
  ghost predicate Invariant(p: Package, s: Config) {
    && WellFormed(p, s) && Exclusive(s)
    && forall q | 0 <= q < p.Nodes() && Untouched(p, s, q) :: Covered(p, s, q)
  }

  /** A step that changes neither a node's source nor its hash keeps the node covered. */
  lemma StaysCovered(p: Package, threads: seq<Thread>, t: nat, th: Thread, q: nat, source: seq<byte>, hash: Hash)
    requires t < |threads|
    requires OwedAt(p, threads, q, source, hash) || SettledAt(p, threads, q, source, hash)
    requires Owes(p, threads[t], q, source, hash) ==>
      Owes(p, th, q, source, hash) || (hash == p.digest(source) && !Rehashes(th, q)
        && forall u | 0 <= u < |threads| && u != t :: !Rehashes(threads[u], q))
    requires Rehashes(th, q) ==> Rehashes(threads[t], q) || Owes(p, th, q, source, hash)
    ensures var after := threads[t := th];
      OwedAt(p, after, q, source, hash) || SettledAt(p, after, q, source, hash)
  {
    var after := threads[t := th];
    if OwedAt(p, threads, q, source, hash) {
      var u :| 0 <= u < |threads| && Owes(p, threads[u], q, source, hash);
      if u != t || Owes(p, th, q, source, hash) {
        assert Owes(p, after[u], q, source, hash);
      }
    } else if Owes(p, th, q, source, hash) {
      assert Owes(p, after[t], q, source, hash);
    }
  }

  /** A thread about to unlock q after an up-to-date rehash leaves it right, and nobody else is at work on it. */
  lemma UnlockSettles(p: Package, s: Config, t: nat, q: nat, source: seq<byte>, hash: Hash)
    requires Exclusive(s) && t < |s.threads| && s.threads[t].Writing? && s.threads[t].written == 64
    requires s.threads[t].node == q && Owes(p, s.threads[t], q, source, hash)
    ensures hash == p.digest(source)
    ensures forall u | 0 <= u < |s.threads| && u != t :: !Rehashes(s.threads[u], q)
  {
    var th := s.threads[t];
    assert th.digest[..64] == th.digest && hash[..64] == hash;
    forall u | 0 <= u < |s.threads| && u != t ensures !Rehashes(s.threads[u], q) {
      assert Holds(th, q);
    }
  }

  lemma SilentMoveCovers(p: Package, s: Config, t: nat, q: nat)
    requires WellFormed(p, s) && Exclusive(s) && CanMove(s, t) && q < p.Nodes() && Covered(p, s, q)
    requires MovedData(p, s, t) == s.data && MovedHashes(p, s, t) == s.computed
    requires s.threads[t].Writing? ==> s.threads[t].written == 64
    requires s.threads[t].Copying? ==> s.threads[t].copied == |s.threads[t].job.bytes|
    ensures Covered(p, Move(p, s, t), q)
  {
    var th, after := s.threads[t], Moved(p, s, t);
    var source, hash := Source(p, s.data, s.computed, q), s.computed[q];
    assert ValidThread(p, |s.data|, th);
    if th.Writing? && th.node == q && Owes(p, th, q, source, hash) {
      UnlockSettles(p, s, t, q, source, hash);
    }
    if th.Reading? && th.node == q && Owes(p, th, q, source, hash) {
      assert source[..|th.text|] == th.text && source[..|source|] == source;
    }
    StaysCovered(p, s.threads, t, after, q, source, hash);
  }

  /** A byte written outside the chunk of q leaves its source alone. */
  lemma SourceKept(p: Package, data: seq<byte>, c: seq<Hash>, at: nat, b: byte, q: nat)
    requires p.Valid(|data|) && |c| == p.Nodes() && q < p.Nodes() && at < |data|
    requires IsInternal(p.Nodes(), q) || !(p.ChunkOf(q).offset <= at < p.ChunkOf(q).offset + p.ChunkOf(q).size)
    ensures Source(p, data[at := b], c, q) == Source(p, data, c, q)
  {
    if !IsInternal(p.Nodes(), q) {
      assert p.chunks[q - (|p.chunks| - 1)] == p.ChunkOf(q);
      assert ChunkBytes(p, data[at := b], q) == ChunkBytes(p, data, q);
    }
  }

  lemma CopyMoveCovers(p: Package, s: Config, t: nat, q: nat)
    requires WellFormed(p, s) && CanMove(s, t) && q < p.Nodes() && Covered(p, s, q) && Apart(p, s.threads[t].job, q)
    requires s.threads[t].Copying? && s.threads[t].copied < |s.threads[t].job.bytes|
    ensures Covered(p, Move(p, s, t), q)
  {
    var r, th := Move(p, s, t), s.threads[t];
    assert ValidThread(p, |s.data|, th);
    var source, hash := Source(p, r.data, r.computed, q), r.computed[q];
    if q == th.job.leaf {
      assert Owes(p, r.threads[t], q, source, hash);
    } else {
      SourceKept(p, s.data, s.computed, th.job.at + th.copied, th.job.bytes[th.copied], q);
      StaysCovered(p, s.threads, t, Moved(p, s, t), q, source, hash);
    }
  }

  /** A thread in another part of the tree owes node q whatever its source and hash are now. */
  lemma OwesRegardless(p: Package, th: Thread, q: nat, source: seq<byte>, hash: Hash, source1: seq<byte>, hash1: Hash)
    requires Owes(p, th, q, source, hash) && !Rehashes(th, q)
    ensures Owes(p, th, q, source1, hash1)
  {}

  lemma WriteMoveCovers(p: Package, s: Config, t: nat, q: nat)
    requires WellFormed(p, s) && Exclusive(s) && CanMove(s, t) && q < p.Nodes() && Covered(p, s, q)
    requires s.threads[t].Writing? && s.threads[t].written < 64
    ensures Covered(p, Move(p, s, t), q)
  {
    var r, th := Move(p, s, t), s.threads[t];
    var w, k := th.node, th.written;
    assert ValidThread(p, |s.data|, th);
    var source, hash := Source(p, r.data, r.computed, q), r.computed[q];
    if q == w {
      assert Source(p, s.data, s.computed, q) == source;
      WrittenNodeCovered(p, s, t);
    } else if w > 0 && q == Parent(w) {
      assert Under(q, q) && Under(q, w);
      assert Owes(p, r.threads[t], q, source, hash);
    } else {
      assert Source(p, s.data, s.computed, q) == source;
      StaysCovered(p, s.threads, t, Moved(p, s, t), q, source, hash);
    }
  }

  lemma WrittenNodeCovered(p: Package, s: Config, t: nat)
    requires WellFormed(p, s) && Exclusive(s) && CanMove(s, t) && s.threads[t].Writing? && s.threads[t].written < 64
    requires s.threads[t].node < p.Nodes() && Covered(p, s, s.threads[t].node)
    requires var w := s.threads[t].node;
      Source(p, s.data, MovedHashes(p, s, t), w) == Source(p, s.data, s.computed, w)
    ensures Covered(p, Move(p, s, t), s.threads[t].node)
  {
    var r, th := Move(p, s, t), s.threads[t];
    var w, k := th.node, th.written;
    var source, hash, hash1 := Source(p, s.data, s.computed, w), s.computed[w], r.computed[w];
    assert Rehashes(th, w);
    var u :| 0 <= u < |s.threads| && Owes(p, s.threads[u], w, source, hash);
    if u == t {
      assert th.digest[..k + 1] == th.digest[..k] + [th.digest[k]];
      assert hash1[..k + 1] == hash[..k] + [th.digest[k]];
      assert Owes(p, r.threads[t], w, source, hash1);
    } else {
      assert Holds(th, w) && !Holds(s.threads[u], w);
      OwesRegardless(p, s.threads[u], w, source, hash, source, hash1);
      assert Owes(p, r.threads[u], w, source, hash1);
    }
  }

  /** One node through one step: a call that does not write what q hashes keeps q covered. */
  lemma MoveKeepsCovered(p: Package, s: Config, t: nat, q: nat)
    requires WellFormed(p, s) && Exclusive(s) && CanMove(s, t) && q < p.Nodes()
    requires Covered(p, s, q) && Apart(p, s.threads[t].job, q)
    ensures p.Valid(|Move(p, s, t).data|) && Covered(p, Move(p, s, t), q)
  {
    var th := s.threads[t];
    assert ValidThread(p, |s.data|, th);
    if th.Copying? && th.copied < |th.job.bytes| {
      CopyMoveCovers(p, s, t, q);
    } else if th.Writing? && th.written < 64 {
      WriteMoveCovers(p, s, t, q);
    } else {
      SilentMoveCovers(p, s, t, q);
    }
  }

  lemma MoveKeepsInvariant(p: Package, s: Config, t: nat)
    requires Invariant(p, s) && CanMove(s, t)
    ensures Invariant(p, Move(p, s, t))
  {
    MoveIsWellFormed(p, s, t);
    MoveIsExclusive(p, s, t);
    var r := Move(p, s, t);
    forall q | 0 <= q < p.Nodes() && Untouched(p, r, q) ensures Covered(p, r, q) {
      SameJobs(p, s, t, q);
      MoveKeepsCovered(p, s, t, q);
    }
  }

  lemma SameJobs(p: Package, s: Config, t: nat, q: nat)
    requires WellFormed(p, s) && t < |s.threads| && q < p.Nodes()
    ensures Untouched(p, Move(p, s, t), q) <==> Untouched(p, s, q)
  {
    var r := Move(p, s, t);
    assert forall u | 0 <= u < |s.threads| :: r.threads[u].job == s.threads[u].job;
  }
}
