/** What a reader that takes a node's lock, as check_chunk does, sees while updates are running. */
module ConcurrentReaders {
  import opened Bytes
  import opened Sha256Spec
  import opened Shape
  import opened Merkle
  import opened Concurrent
  import opened ConcurrentRuns
  import opened ConcurrentOrder

  /** A thread in the critical section of q works on q's present source; what it copies is not hashed yet. */
  predicate UpToDate(p: Package, th: Thread, q: nat, source: seq<byte>, hash: Hash) {
    Rehashes(th, q) ==> Owes(p, th, q, source, hash)
  }

  predicate Free(s: Config, q: nat) { forall t | 0 <= t < |s.threads| :: !Holds(s.threads[t], q) }

  /** A leaf whose lock is free has the hash of its present bytes. */
  ghost predicate LeafTrue(p: Package, s: Config, q: nat)
    requires p.Valid(|s.data|) && |s.computed| == p.Nodes() && q < p.Nodes() && !IsInternal(p.Nodes(), q)
  {
    var source, hash := ChunkBytes(p, s.data, q), s.computed[q];
    && (forall t | 0 <= t < |s.threads| :: UpToDate(p, s.threads[t], q, source, hash))
    && (Free(s, q) ==> hash == p.digest(source))
  }

  /** A step of a thread outside the critical section of q, which may enter it. */
  lemma OutsideStepKeepsLeaf(p: Package, s: Config, t: nat, q: nat)
    requires WellFormed(p, s) && CanMove(s, t) && q < p.Nodes() && !IsInternal(p.Nodes(), q)
    requires LeafTrue(p, s, q) && !Holds(s.threads[t], q) && Apart(p, s.threads[t].job, q)
    ensures LeafTrue(p, Move(p, s, t), q)
  {
    var r, th := Move(p, s, t), s.threads[t];
    assert ValidThread(p, |s.data|, th);
    if th.Copying? && th.copied < |th.job.bytes| {
      SourceKept(p, s.data, s.computed, th.job.at + th.copied, th.job.bytes[th.copied], q);
    }
    assert Source(p, r.data, s.computed, q) == Source(p, s.data, s.computed, q);
    assert ChunkBytes(p, r.data, q) == ChunkBytes(p, s.data, q) && r.computed[q] == s.computed[q];
    var source, hash := ChunkBytes(p, s.data, q), s.computed[q];
    forall u | 0 <= u < |r.threads| ensures UpToDate(p, r.threads[u], q, source, hash) {
      assert UpToDate(p, s.threads[u], q, source, hash);
    }
    if Free(r, q) {
      forall u | 0 <= u < |s.threads| ensures !Holds(s.threads[u], q) {
        assert u != t ==> r.threads[u] == s.threads[u];
        assert !Holds(r.threads[u], q);
      }
    }
  }

  /** A step of the one thread inside it. */
  lemma InsideStepKeepsLeaf(p: Package, s: Config, t: nat, q: nat)
    requires WellFormed(p, s) && Exclusive(s) && CanMove(s, t) && q < p.Nodes() && !IsInternal(p.Nodes(), q)
    requires LeafTrue(p, s, q) && Holds(s.threads[t], q)
    ensures LeafTrue(p, Move(p, s, t), q)
  {
    var r, th := Move(p, s, t), s.threads[t];
    assert ValidThread(p, |s.data|, th) && UpToDate(p, th, q, ChunkBytes(p, s.data, q), s.computed[q]);
    var source, hash := ChunkBytes(p, r.data, q), r.computed[q];
    InsideStep(p, s, t, q);
    forall u | 0 <= u < |r.threads| ensures UpToDate(p, r.threads[u], q, source, hash) {
      if u != t {
        assert !Holds(s.threads[u], q);
      }
    }
    if Free(r, q) {
      assert !Holds(r.threads[t], q);
    }
  }

  /** What the thread inside knows after its step, and what it leaves behind when it unlocks. */
  lemma InsideStep(p: Package, s: Config, t: nat, q: nat)
    requires WellFormed(p, s) && CanMove(s, t) && q < p.Nodes() && !IsInternal(p.Nodes(), q) && Holds(s.threads[t], q)
    requires UpToDate(p, s.threads[t], q, ChunkBytes(p, s.data, q), s.computed[q])
    ensures var r := Move(p, s, t);
      && UpToDate(p, r.threads[t], q, ChunkBytes(p, r.data, q), r.computed[q])
      && (!Holds(r.threads[t], q) ==> r.computed[q] == p.digest(ChunkBytes(p, r.data, q)))
  {
    var th, source, hash := s.threads[t], ChunkBytes(p, s.data, q), s.computed[q];
    assert ValidThread(p, |s.data|, th) && Source(p, s.data, s.computed, q) == source;
    match th
    case Waiting(_, _) =>
    case Copying(_, _) =>
    case Reading(_, _, text) =>
      assert source[..|text|] == text && source[..|source|] == source;
    case Writing(job, _, d, k) =>
      if k < 64 {
        WrittenPrefix(d, hash, k);
      } else {
        assert d[..64] == d && hash[..64] == hash;
        if q > 0 {
          ParentIsNotLeaf(p.Nodes(), q);
        }
      }
    case Done(_) =>
  }

  lemma WrittenPrefix(d: Hash, hash: Hash, k: nat)
    requires k < 64 && d[..k] == hash[..k]
    ensures d[..k + 1] == hash[k := d[k]][..k + 1]
  {
    assert d[..k + 1] == d[..k] + [d[k]];
    assert hash[k := d[k]][..k + 1] == hash[..k] + [d[k]];
  }

  lemma SpawnKeepsLeaf(p: Package, s: Config, job: Job, q: nat)
    requires WellFormed(p, s) && ValidJob(p, |s.data|, job)
    requires q < p.Nodes() && !IsInternal(p.Nodes(), q) && LeafTrue(p, s, q)
    ensures LeafTrue(p, Follow(p, s, Spawn(job)), q)
  {
    var r := Follow(p, s, Spawn(job));
    forall u | 0 <= u < |r.threads|
      ensures UpToDate(p, r.threads[u], q, ChunkBytes(p, r.data, q), r.computed[q])
    {
      if u < |s.threads| {
        assert UpToDate(p, s.threads[u], q, ChunkBytes(p, s.data, q), s.computed[q]);
      }
    }
    if Free(r, q) {
      forall u | 0 <= u < |s.threads| ensures !Holds(s.threads[u], q) {
        assert !Holds(r.threads[u], q);
      }
    }
  }

  lemma EventKeepsLeaf(p: Package, s: Config, e: Event, q: nat)
    requires WellFormed(p, s) && Exclusive(s) && Allowed(p, s, e)
    requires q < p.Nodes() && !IsInternal(p.Nodes(), q) && LeafTrue(p, s, q) && Untouched(p, s, q)
    ensures LeafTrue(p, Follow(p, s, e), q)
  {
    match e
    case Step(t) =>
      if Holds(s.threads[t], q) {
        InsideStepKeepsLeaf(p, s, t, q);
      } else {
        OutsideStepKeepsLeaf(p, s, t, q);
      }
    case Spawn(job) => SpawnKeepsLeaf(p, s, job, q);
  }

  lemma EventIsExclusive(p: Package, s: Config, e: Event)
    requires WellFormed(p, s) && Exclusive(s) && Allowed(p, s, e)
    ensures Exclusive(Follow(p, s, e))
  {
    match e
    case Step(t) => MoveIsExclusive(p, s, t);
    case Spawn(job) =>
      var r := Follow(p, s, e);
      assert forall q: nat :: !Holds(r.threads[|s.threads|], q);
      assert forall t | 0 <= t < |s.threads| :: r.threads[t] == s.threads[t];
  }

  lemma {:induction false} RunKeepsLeaf(p: Package, s: Config, events: seq<Event>, q: nat)
    requires WellFormed(p, s) && Exclusive(s) && Run(p, s, events)
    requires q < p.Nodes() && !IsInternal(p.Nodes(), q) && LeafTrue(p, s, q) && Untouched(p, End(p, s, events), q)
    ensures LeafTrue(p, End(p, s, events), q)
    decreases |events|
  {
    if events != [] {
      JobsPersist(p, s, events);
      assert forall t | 0 <= t < |s.threads| :: End(p, s, events).threads[t].job == s.threads[t].job;
      EventIsExclusive(p, s, events[0]);
      EventKeepsLeaf(p, s, events[0], q);
      RunKeepsLeaf(p, Follow(p, s, events[0]), events[1..], q);
    }
  }

  /**
   * In any interleaving, at any moment its lock can be taken, check_chunk on a leaf that no call through
   * another leaf writes to answers exactly whether the leaf's present bytes have the expected hash.
   */
  lemma LeafVerdictIsTrue(p: Package, s: Config, events: seq<Event>, q: nat)
    requires Consistent(p, s.data, s.computed) && s.threads == [] && p.HexText()
    requires Run(p, s, events) && |p.expected| == p.Nodes() && q < p.Nodes() && !IsInternal(p.Nodes(), q)
    requires Free(End(p, s, events), q) && Untouched(p, End(p, s, events), q)
    ensures var r := End(p, s, events);
      Passes(p, r.computed, q) <==> p.expected[q] == p.digest(ChunkBytes(p, r.data, q))
  {
    assert Clean(p, s.data, s.computed, q);
    RunKeepsLeaf(p, s, events, q);
    var r := End(p, s, events);
    assert p.expected[q][..64] == p.expected[q] && r.computed[q][..64] == r.computed[q];
    StrnEqualDecides(p.expected[q], r.computed[q], 64);
  }

  // No reader sees a torn text.

  /** The text is the digest of some bytes as long as what the node hashes. */
  ghost predicate DigestOfSome(p: Package, q: nat, hash: Hash)
    requires q < p.Nodes()
  {
    exists m: seq<byte> :: |m| == SourceLength(p, q) && hash == p.digest(m)
  }

  predicate Writes(th: Thread, q: nat) { th.Writing? && th.node == q }

  /** A thread storing a hash at q has one whole digest in hand and its first characters stored. */
  ghost predicate PartWritten(p: Package, th: Thread, q: nat, hash: Hash)
    requires q < p.Nodes()
  {
    Writes(th, q) ==> DigestOfSome(p, q, th.digest) && th.written <= 64 && th.digest[..th.written] == hash[..th.written]
  }

  ghost predicate Whole(p: Package, s: Config, q: nat)
    requires q < p.Nodes() == |s.computed|
  {
    && (forall t | 0 <= t < |s.threads| :: PartWritten(p, s.threads[t], q, s.computed[q]))
    && ((forall t | 0 <= t < |s.threads| :: !Writes(s.threads[t], q)) ==> DigestOfSome(p, q, s.computed[q]))
  }

  /** The step of the thread itself: it starts from a whole digest, stores one more character, or has stored all. */
  lemma OwnStepStaysWhole(p: Package, s: Config, t: nat, q: nat)
    requires WellFormed(p, s) && CanMove(s, t) && q < p.Nodes() && PartWritten(p, s.threads[t], q, s.computed[q])
    ensures PartWritten(p, Moved(p, s, t), q, MovedHashes(p, s, t)[q])
    ensures Writes(s.threads[t], q) && !Writes(Moved(p, s, t), q) ==> DigestOfSome(p, q, MovedHashes(p, s, t)[q])
    ensures !Writes(s.threads[t], q) ==> MovedHashes(p, s, t)[q] == s.computed[q]
  {
    var th, hash := s.threads[t], s.computed[q];
    assert ValidThread(p, |s.data|, th);
    if th.Reading? && th.node == q {
      SourceHasLength(p, s.data, s.computed, q);
      assert |th.text| == SourceLength(p, q) ==> DigestOfSome(p, q, p.digest(th.text));
    }
    if Writes(th, q) {
      if th.written < 64 {
        WrittenPrefix(th.digest, hash, th.written);
      } else {
        assert th.digest[..64] == th.digest && hash[..64] == hash;
      }
    }
  }

  lemma MoveStaysWhole(p: Package, s: Config, t: nat, q: nat)
    requires WellFormed(p, s) && Exclusive(s) && CanMove(s, t) && q < p.Nodes() && Whole(p, s, q)
    ensures Whole(p, Move(p, s, t), q)
  {
    var r := Move(p, s, t);
    OwnStepStaysWhole(p, s, t, q);
    forall u | 0 <= u < |r.threads| ensures PartWritten(p, r.threads[u], q, r.computed[q]) {
      if u != t && Writes(s.threads[t], q) {
        assert Holds(s.threads[t], q) && !Holds(s.threads[u], q);
      }
    }
    if forall u | 0 <= u < |r.threads| :: !Writes(r.threads[u], q) {
      assert !Writes(r.threads[t], q);
      if !Writes(s.threads[t], q) {
        forall u | 0 <= u < |s.threads| ensures !Writes(s.threads[u], q) {
          assert u != t ==> r.threads[u] == s.threads[u];
        }
      }
    }
  }

  lemma {:induction false} RunStaysWhole(p: Package, s: Config, events: seq<Event>, q: nat)
    requires WellFormed(p, s) && Exclusive(s) && Run(p, s, events) && q < p.Nodes() && Whole(p, s, q)
    ensures Whole(p, End(p, s, events), q)
    decreases |events|
  {
    if events != [] {
      var r := Follow(p, s, events[0]);
      EventIsExclusive(p, s, events[0]);
      match events[0] {
        case Step(t) => MoveStaysWhole(p, s, t, q);
        case Spawn(job) =>
          assert forall t | 0 <= t < |s.threads| :: r.threads[t] == s.threads[t];
      }
      RunStaysWhole(p, r, events[1..], q);
    }
  }

  /**
   * In any interleaving and wherever the calls write, a node whose lock is free holds one whole digest of some
   * text of the right length, never parts of two: for an internal node, of some 128 characters.
   */
  lemma FreeNodeIsWhole(p: Package, s: Config, events: seq<Event>, q: nat)
    requires Consistent(p, s.data, s.computed) && s.threads == [] && Run(p, s, events) && q < p.Nodes()
    requires Free(End(p, s, events), q)
    ensures DigestOfSome(p, q, End(p, s, events).computed[q])
  {
    assert Clean(p, s.data, s.computed, q);
    SourceHasLength(p, s.data, s.computed, q);
    RunStaysWhole(p, s, events, q);
    var r := End(p, s, events);
    forall t | 0 <= t < |r.threads| ensures !Writes(r.threads[t], q) {
      assert !Holds(r.threads[t], q);
    }
  }
}
