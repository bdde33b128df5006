/** Downloads make progress: with genuine fragments nothing right is ever lost, and full cover means done. */
module ConcurrentProgress {
  import opened Bytes
  import opened Shape
  import opened Merkle
  import opened Concurrent
  import opened ConcurrentRuns
  import opened ConcurrentOrder
  import opened ConcurrentReaders

  /** The call carries the bytes of the original file. */
  predicate Genuine(original: seq<byte>, job: Job) { JobOnTop(original, job) }

  predicate GenuineThreads(original: seq<byte>, s: Config) {
    forall t | 0 <= t < |s.threads| :: Genuine(original, s.threads[t].job)
  }

  predicate GenuineCalls(original: seq<byte>, events: seq<Event>) {
    forall k | 0 <= k < |events| && events[k].Spawn? :: Genuine(original, events[k].job)
  }

  lemma EventStaysGenuine(p: Package, original: seq<byte>, s: Config, e: Event)
    requires WellFormed(p, s) && Allowed(p, s, e) && GenuineThreads(original, s)
    requires e.Spawn? ==> Genuine(original, e.job)
    ensures GenuineThreads(original, Follow(p, s, e))
  {}

  /** A step writes only bytes of the original. */
  lemma EventKeepsAgreement(p: Package, original: seq<byte>, s: Config, e: Event, x: nat)
    requires WellFormed(p, s) && Allowed(p, s, e) && GenuineThreads(original, s) && |original| == |s.data|
    requires x < |s.data| && s.data[x] == original[x]
    ensures Follow(p, s, e).data[x] == original[x]
  {
    if e.Step? && s.threads[e.thread].Copying? {
      var job, k := s.threads[e.thread].job, s.threads[e.thread].copied;
      assert ValidThread(p, |s.data|, s.threads[e.thread]) && Genuine(original, job);
      if k < |job.bytes| {
        assert job.bytes[k] == original[job.at..job.at + |job.bytes|][k];
      }
    }
  }

  /** The positions that agree with the original never shrink. */
  lemma {:induction false} AgreementNeverShrinks(p: Package, original: seq<byte>, s: Config, events: seq<Event>, x: nat)
    requires WellFormed(p, s) && Run(p, s, events) && GenuineThreads(original, s) && GenuineCalls(original, events)
    requires |original| == |s.data| && x < |s.data| && s.data[x] == original[x]
    ensures End(p, s, events).data[x] == original[x]
    decreases |events|
  {
    if events != [] {
      EventStaysGenuine(p, original, s, events[0]);
      EventKeepsAgreement(p, original, s, events[0], x);
      RestStaysGenuine(original, events);
      AgreementNeverShrinks(p, original, Follow(p, s, events[0]), events[1..], x);
    }
  }

  lemma RestStaysGenuine(original: seq<byte>, events: seq<Event>)
    requires events != [] && GenuineCalls(original, events)
    ensures GenuineCalls(original, events[1..])
  {
    var rest := events[1..];
    assert forall k | 0 <= k < |rest| :: rest[k] == events[k + 1];
  }

  /** No correct chunk is lost. */
  lemma CorrectChunksStay(p: Package, original: seq<byte>, s: Config, events: seq<Event>, i: nat)
    requires WellFormed(p, s) && Run(p, s, events) && GenuineThreads(original, s) && GenuineCalls(original, events)
    requires |original| == |s.data| && i < p.Nodes() && !IsInternal(p.Nodes(), i)
    requires ChunkBytes(p, s.data, i) == ChunkBytes(p, original, i)
    ensures ChunkBytes(p, End(p, s, events).data, i) == ChunkBytes(p, original, i)
  {
    var r, c := End(p, s, events), p.ChunkOf(i);
    forall k | 0 <= k < c.size ensures ChunkBytes(p, r.data, i)[k] == ChunkBytes(p, original, i)[k] {
      assert ChunkBytes(p, s.data, i)[k] == s.data[c.offset + k];
      assert ChunkBytes(p, original, i)[k] == original[c.offset + k];
      AgreementNeverShrinks(p, original, s, events, c.offset + k);
    }
  }

  /** Thread th has already written byte x. */
  predicate Landed(th: Thread, x: nat) {
    && Started(th) && th.job.at <= x
    && x < th.job.at + (if th.Copying? then th.copied else |th.job.bytes|)
  }

  ghost predicate LandedAgrees(original: seq<byte>, s: Config) {
    |original| == |s.data| && forall t, x | 0 <= t < |s.threads| && 0 <= x < |original| && Landed(s.threads[t], x) ::
      s.data[x] == original[x]
  }

  lemma EventKeepsLanded(p: Package, original: seq<byte>, s: Config, e: Event)
    requires WellFormed(p, s) && Allowed(p, s, e) && GenuineThreads(original, s) && LandedAgrees(original, s)
    ensures LandedAgrees(original, Follow(p, s, e))
  {
    var r := Follow(p, s, e);
    forall t, x | 0 <= t < |r.threads| && 0 <= x < |original| && Landed(r.threads[t], x)
      ensures r.data[x] == original[x]
    {
      if t < |s.threads| && Landed(s.threads[t], x) {
        EventKeepsAgreement(p, original, s, e, x);
      } else {
        JustLanded(p, original, s, e, t, x);
      }
    }
  }

  lemma JustLanded(p: Package, original: seq<byte>, s: Config, e: Event, t: nat, x: nat)
    requires WellFormed(p, s) && Allowed(p, s, e) && GenuineThreads(original, s) && |original| == |s.data|
    requires var r := Follow(p, s, e); t < |r.threads| && x < |original| && Landed(r.threads[t], x)
    requires t < |s.threads| ==> !Landed(s.threads[t], x)
    ensures Follow(p, s, e).data[x] == original[x]
  {
    var th := s.threads[t];
    assert e == Step(t) && ValidThread(p, |s.data|, th) && Genuine(original, th.job);
    StaysStarted(p, s, t);
    assert th.Copying? && x == th.job.at + th.copied;
    assert th.job.bytes[th.copied] == original[th.job.at..th.job.at + |th.job.bytes|][th.copied];
  }

  lemma {:induction false} RunKeepsLanded(p: Package, original: seq<byte>, s: Config, events: seq<Event>)
    requires WellFormed(p, s) && Run(p, s, events) && GenuineThreads(original, s) && GenuineCalls(original, events)
    requires LandedAgrees(original, s)
    ensures LandedAgrees(original, End(p, s, events))
    decreases |events|
  {
    if events != [] {
      EventStaysGenuine(p, original, s, events[0]);
      EventKeepsLanded(p, original, s, events[0]);
      RestStaysGenuine(original, events);
      RunKeepsLanded(p, original, Follow(p, s, events[0]), events[1..]);
    }
  }

  /** Byte x was right from the start or some call has already written it. */
  predicate Arrived(original: seq<byte>, s: Config, r: Config, x: nat)
    requires x < |original| == |s.data|
  {
    s.data[x] == original[x] || exists t :: 0 <= t < |r.threads| && Landed(r.threads[t], x)
  }

  lemma ArrivedIsRight(p: Package, original: seq<byte>, s: Config, events: seq<Event>, x: nat)
    requires WellFormed(p, s) && s.threads == [] && Run(p, s, events) && GenuineCalls(original, events)
    requires x < |original| == |s.data| && Arrived(original, s, End(p, s, events), x)
    ensures |End(p, s, events).data| == |s.data| && End(p, s, events).data[x] == original[x]
  {
    RunKeepsLanded(p, original, s, events);
    if s.data[x] == original[x] {
      AgreementNeverShrinks(p, original, s, events, x);
    }
  }

  /** Byte x was right from the start or lies in some call's fragment. */
  predicate Covers(original: seq<byte>, s: Config, r: Config, x: nat)
    requires x < |original| == |s.data|
  {
    s.data[x] == original[x]
    || exists t :: 0 <= t < |r.threads| && r.threads[t].job.at <= x < r.threads[t].job.at + |r.threads[t].job.bytes|
  }

  /**
   * Once the fragments cover the file and no call is in flight, the file is the original, every computed
   * hash is the expected one, and every node passes.
   */
  lemma FullCoverCompletes(p: Package, original: seq<byte>, s: Config, events: seq<Event>)
    requires Consistent(p, original, p.expected) && p.HexText()
    requires Consistent(p, s.data, s.computed) && s.threads == [] && |original| == |s.data|
    requires Run(p, s, events) && Quiet(End(p, s, events)) && GenuineCalls(original, events)
    requires forall q | 0 <= q < p.Nodes() :: Untouched(p, End(p, s, events), q)
    requires forall x | 0 <= x < |original| :: Covers(original, s, End(p, s, events), x)
    ensures var r := End(p, s, events);
      && r.data == original && r.computed == p.expected
      && forall i | 0 <= i < p.Nodes() :: Passes(p, r.computed, i)
  {
    var r := End(p, s, events);
    RestIsInvariant(p, s);
    RunKeepsInvariant(p, s, events);
    QuietIsConsistent(p, r);
    forall x | 0 <= x < |original| ensures r.data[x] == original[x] {
      assert Covers(original, s, r, x);
      if s.data[x] != original[x] {
        var t :| 0 <= t < |r.threads| && r.threads[t].job.at <= x < r.threads[t].job.at + |r.threads[t].job.bytes|;
        assert Landed(r.threads[t], x);
      }
      ArrivedIsRight(p, original, s, events, x);
    }
    assert r.data == original;
    SameDataSameHashes(p, original, r.computed, p.expected);
    forall i | 0 <= i < p.Nodes() ensures Passes(p, r.computed, i) {
      PassesIsEqual(p, r.data, r.computed, i);
    }
  }

  /**
   * Completion chunk by chunk: in any interleaving, once genuine bytes have landed on all of leaf q's chunk and
   * q's lock is free, the chunk is the original one and q passes, whatever the calls on other leaves are doing.
   */
  lemma CoveredChunkPasses(p: Package, original: seq<byte>, s: Config, events: seq<Event>, q: nat)
    requires Consistent(p, original, p.expected) && p.HexText()
    requires Consistent(p, s.data, s.computed) && s.threads == [] && |original| == |s.data|
    requires Run(p, s, events) && GenuineCalls(original, events)
    requires q < p.Nodes() && !IsInternal(p.Nodes(), q)
    requires Free(End(p, s, events), q) && Untouched(p, End(p, s, events), q)
    requires forall x | p.ChunkOf(q).offset <= x < p.ChunkOf(q).offset + p.ChunkOf(q).size ::
      Arrived(original, s, End(p, s, events), x)
    ensures var r := End(p, s, events);
      ChunkBytes(p, r.data, q) == ChunkBytes(p, original, q) && Passes(p, r.computed, q)
  {
    var r, c := End(p, s, events), p.ChunkOf(q);
    forall x | c.offset <= x < c.offset + c.size ensures r.data[x] == original[x] {
      ArrivedIsRight(p, original, s, events, x);
    }
    assert ChunkBytes(p, r.data, q) == ChunkBytes(p, original, q);
    LeafVerdictIsTrue(p, s, events, q);
    assert Clean(p, original, p.expected, q);
  }
}
