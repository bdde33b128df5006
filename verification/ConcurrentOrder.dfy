/** Concurrent calls have the effect of the same calls made one after another. */
module ConcurrentOrder {
  import opened Bytes
  import opened Sha256Spec
  import opened Shape
  import opened Merkle
  import opened Concurrent
  import opened ConcurrentRuns

  /** A thread took the lock of its leaf. */
  datatype Entry = Entry(thread: nat, job: Job)

  predicate Started(th: Thread) { !(th.Waiting? && th.node == th.job.leaf) }

  function Entered(s: Config, e: Event): seq<Entry> {
    if e.Step? && e.thread < |s.threads| && !Started(s.threads[e.thread])
    then [Entry(e.thread, s.threads[e.thread].job)] else []
  }

  /** The calls of a run in the order in which they took their leaf's lock. */
  ghost function Log(p: Package, s: Config, events: seq<Event>): seq<Entry>
    requires WellFormed(p, s) && Run(p, s, events)
    decreases |events|
  {
    if events == [] then [] else Entered(s, events[0]) + Log(p, Follow(p, s, events[0]), events[1..])
  }

  predicate Fits(p: Package, fileSize: nat, log: seq<Entry>) {
    forall k | 0 <= k < |log| :: ValidJob(p, fileSize, log[k].job)
  }

  /** The bytes after the calls of a log, each as a whole. */
  function Applied(p: Package, data: seq<byte>, log: seq<Entry>): (r: seq<byte>)
    requires p.Valid(|data|) && Fits(p, |data|, log)
    ensures |r| == |data|
  {
    if log == [] then data
    else
      var n := |log| - 1;
      assert ValidJob(p, |data|, log[n].job);
      Overlay(Applied(p, data, log[..n]), log[n].job.at, log[n].job.bytes)
  }

  predicate Pending(th: Thread, x: nat) {
    th.Copying? && th.job.at + th.copied <= x < th.job.at + |th.job.bytes|
  }

  /** Byte x is the logged one or a thread that holds its leaf's lock has yet to write it. */
  ghost predicate ByteInOrder(p: Package, applied: seq<byte>, s: Config, x: nat)
    requires x < |s.data| == |applied|
  {
    s.data[x] == applied[x] || exists t :: 0 <= t < |s.threads| && Pending(s.threads[t], x)
  }

  predicate JobOnTop(applied: seq<byte>, job: Job) {
    job.at + |job.bytes| <= |applied| && applied[job.at..job.at + |job.bytes|] == job.bytes
  }

  ghost predicate LogMatches(s: Config, log: seq<Entry>) {
    && (forall k | 0 <= k < |log| :: log[k].thread < |s.threads| && log[k].job == s.threads[log[k].thread].job)
    && (forall j, k | 0 <= j < k < |log| :: log[j].thread != log[k].thread)
    && (forall t | 0 <= t < |s.threads| :: Started(s.threads[t]) <==> exists k :: 0 <= k < |log| && log[k].thread == t)
  }

  ghost predicate Ordered(p: Package, data: seq<byte>, s: Config, log: seq<Entry>) {
    && WellFormed(p, s) && |s.data| == |data| && Fits(p, |data|, log) && LogMatches(s, log)
    && (forall x | 0 <= x < |data| :: ByteInOrder(p, Applied(p, data, log), s, x))
    && (forall t | 0 <= t < |s.threads| && s.threads[t].Copying? :: JobOnTop(Applied(p, data, log), s.threads[t].job))
  }

  predicate JobsDisjoint(a: Job, b: Job) {
    a.bytes == [] || b.bytes == [] || a.at + |a.bytes| <= b.at || b.at + |b.bytes| <= a.at
  }

  /** Calls through different leaves write different bytes, and none writes a byte that another leaf hashes. */
  ghost predicate Separate(p: Package, threads: seq<Thread>) {
    && (forall t, q | 0 <= t < |threads| && 0 <= q < p.Nodes() :: Apart(p, threads[t].job, q))
    && (forall t, u | 0 <= t < |threads| && 0 <= u < |threads| && threads[t].job.leaf != threads[u].job.leaf ::
      JobsDisjoint(threads[t].job, threads[u].job))
  }

  /** The call stays inside the range of its own chunk. */
  predicate InOwnChunk(p: Package, job: Job)
    requires job.leaf < p.Nodes() && !IsInternal(p.Nodes(), job.leaf)
  {
    var c := p.ChunkOf(job.leaf);
    c.offset <= job.at && job.at + |job.bytes| <= c.offset + c.size
  }

  /** Calls that stay in their own chunks are separate when the chunks are disjoint. */
  lemma OwnChunksSeparate(p: Package, s: Config)
    requires WellFormed(p, s) && p.DisjointChunks()
    requires forall t | 0 <= t < |s.threads| ::
      ValidThread(p, |s.data|, s.threads[t]) && InOwnChunk(p, s.threads[t].job)
    ensures Separate(p, s.threads)
  {
    var n := |p.chunks|;
    forall t, q | 0 <= t < |s.threads| && 0 <= q < p.Nodes() ensures Apart(p, s.threads[t].job, q) {
      var job := s.threads[t].job;
      assert ValidThread(p, |s.data|, s.threads[t]) && p.ChunkOf(job.leaf) == p.chunks[job.leaf - (n - 1)];
      assert !IsInternal(p.Nodes(), q) ==> p.ChunkOf(q) == p.chunks[q - (n - 1)];
    }
    forall t, u | 0 <= t < |s.threads| && 0 <= u < |s.threads| && s.threads[t].job.leaf != s.threads[u].job.leaf
      ensures JobsDisjoint(s.threads[t].job, s.threads[u].job)
    {
      var a, b := s.threads[t].job, s.threads[u].job;
      assert ValidThread(p, |s.data|, s.threads[t]) && ValidThread(p, |s.data|, s.threads[u]);
      assert p.ChunkOf(a.leaf) == p.chunks[a.leaf - (n - 1)] && p.ChunkOf(b.leaf) == p.chunks[b.leaf - (n - 1)];
    }
  }

  /** A run keeps the calls it has and only adds new ones. */
  lemma {:induction false} JobsPersist(p: Package, s: Config, events: seq<Event>)
    requires WellFormed(p, s) && Run(p, s, events)
    ensures var r := End(p, s, events);
      |s.threads| <= |r.threads| && forall t | 0 <= t < |s.threads| :: r.threads[t].job == s.threads[t].job
    decreases |events|
  {
    if events != [] {
      var s1 := Follow(p, s, events[0]);
      assert forall t | 0 <= t < |s.threads| :: s1.threads[t].job == s.threads[t].job;
      JobsPersist(p, s1, events[1..]);
    }
  }

  lemma SeparateFromStart(p: Package, s: Config, events: seq<Event>)
    requires WellFormed(p, s) && Run(p, s, events) && Separate(p, End(p, s, events).threads)
    ensures Separate(p, s.threads)
  {
    JobsPersist(p, s, events);
    var r := End(p, s, events);
    assert forall t | 0 <= t < |s.threads| :: r.threads[t].job == s.threads[t].job;
  }

  lemma StaysStarted(p: Package, s: Config, t: nat)
    requires WellFormed(p, s) && CanMove(s, t)
    ensures Started(Moved(p, s, t)) && Moved(p, s, t).job == s.threads[t].job
  {
    var th := s.threads[t];
    assert ValidThread(p, |s.data|, th);
    if th.Writing? && th.node > 0 {
      ParentIsNotLeaf(p.Nodes(), th.node);
    }
  }

  lemma LogAfterStep(p: Package, s: Config, t: nat, log: seq<Entry>)
    requires WellFormed(p, s) && CanMove(s, t) && LogMatches(s, log)
    ensures LogMatches(Move(p, s, t), log + Entered(s, Step(t)))
  {
    StaysStarted(p, s, t);
    var r, after := Move(p, s, t), log + Entered(s, Step(t));
    forall u | 0 <= u < |r.threads|
      ensures Started(r.threads[u]) <==> exists k :: 0 <= k < |after| && after[k].thread == u
    {
      if k :| 0 <= k < |log| && log[k].thread == u {
        assert after[k].thread == u;
      }
      if u == t && !Started(s.threads[t]) {
        assert after[|log|].thread == u;
      }
      if k :| 0 <= k < |after| && after[k].thread == u {
        assert k < |log| ==> log[k].thread == u;
      }
    }
  }

  lemma LogAfterSpawn(p: Package, s: Config, job: Job, log: seq<Entry>)
    requires WellFormed(p, s) && ValidJob(p, |s.data|, job) && LogMatches(s, log)
    ensures LogMatches(Follow(p, s, Spawn(job)), log)
  {}

  lemma AppliedSnoc(p: Package, data: seq<byte>, log: seq<Entry>, e: Entry)
    requires p.Valid(|data|) && Fits(p, |data|, log) && ValidJob(p, |data|, e.job)
    ensures Fits(p, |data|, log + [e]) && e.job.at + |e.job.bytes| <= |data|
    ensures Applied(p, data, log + [e]) == Overlay(Applied(p, data, log), e.job.at, e.job.bytes)
  {
    assert (log + [e])[..|log|] == log;
  }

  lemma EnterKeepsByte(p: Package, s: Config, t: nat, before: seq<byte>, after: seq<byte>, x: nat)
    requires WellFormed(p, s) && CanMove(s, t) && !Started(s.threads[t]) && x < |before| == |s.data|
    requires var job := s.threads[t].job;
      job.at + |job.bytes| <= |before| && after == Overlay(before, job.at, job.bytes)
    requires ByteInOrder(p, before, s, x)
    ensures ByteInOrder(p, after, Move(p, s, t), x)
  {
    var job, r := s.threads[t].job, Move(p, s, t);
    if job.at <= x < job.at + |job.bytes| {
      assert Pending(r.threads[t], x);
    } else if u :| 0 <= u < |s.threads| && Pending(s.threads[u], x) {
      assert Pending(r.threads[u], x);
    }
  }

  lemma EnterKeepsJob(p: Package, s: Config, t: nat, before: seq<byte>, u: nat)
    requires WellFormed(p, s) && CanMove(s, t) && !Started(s.threads[t])
    requires u < |s.threads| && u != t && s.threads[u].Copying? && JobOnTop(before, s.threads[u].job)
    requires s.threads[t].job.at + |s.threads[t].job.bytes| <= |before| && Separate(p, s.threads)
    ensures JobOnTop(Overlay(before, s.threads[t].job.at, s.threads[t].job.bytes), s.threads[u].job)
  {
    var job, other := s.threads[t].job, s.threads[u].job;
    assert ValidThread(p, |s.data|, s.threads[t]) && ValidThread(p, |s.data|, s.threads[u]);
    assert Holds(s.threads[u], other.leaf) && JobsDisjoint(job, other);
    OverlayApart(before, job.at, job.bytes, other.at, |other.bytes|);
  }

  lemma EnterKeepsOrder(p: Package, data: seq<byte>, s: Config, log: seq<Entry>, t: nat)
    requires Ordered(p, data, s, log) && CanMove(s, t) && !Started(s.threads[t]) && Separate(p, s.threads)
    ensures Ordered(p, data, Move(p, s, t), log + Entered(s, Step(t)))
  {
    var job, r := s.threads[t].job, Move(p, s, t);
    assert ValidThread(p, |s.data|, s.threads[t]);
    MoveIsWellFormed(p, s, t);
    LogAfterStep(p, s, t, log);
    AppliedSnoc(p, data, log, Entry(t, job));
    var before, after := Applied(p, data, log), Applied(p, data, log + [Entry(t, job)]);
    forall x | 0 <= x < |data| ensures ByteInOrder(p, after, r, x) {
      EnterKeepsByte(p, s, t, before, after, x);
    }
    forall u | 0 <= u < |r.threads| && r.threads[u].Copying? ensures JobOnTop(after, r.threads[u].job) {
      if u != t {
        assert r.threads[u] == s.threads[u];
        EnterKeepsJob(p, s, t, before, u);
      } else {
        assert after[job.at..job.at + |job.bytes|] == job.bytes;
      }
    }
  }

  lemma OverlayApart(d: seq<byte>, at: nat, src: seq<byte>, from: nat, n: nat)
    requires at + |src| <= |d| && from + n <= |d| && (at + |src| <= from || from + n <= at || src == [] || n == 0)
    ensures Overlay(d, at, src)[from..from + n] == d[from..from + n]
  {}

  lemma CopyKeepsByte(p: Package, s: Config, t: nat, applied: seq<byte>, x: nat)
    requires WellFormed(p, s) && CanMove(s, t) && x < |applied| == |s.data|
    requires s.threads[t].Copying? && s.threads[t].copied < |s.threads[t].job.bytes|
    requires JobOnTop(applied, s.threads[t].job) && ByteInOrder(p, applied, s, x)
    ensures ByteInOrder(p, applied, Move(p, s, t), x)
  {
    var job, k, r := s.threads[t].job, s.threads[t].copied, Move(p, s, t);
    assert ValidThread(p, |s.data|, s.threads[t]);
    if x == job.at + k {
      assert applied[x] == applied[job.at..job.at + |job.bytes|][k];
    } else if u :| 0 <= u < |s.threads| && Pending(s.threads[u], x) {
      assert Pending(r.threads[u], x);
    }
  }

  lemma CopyKeepsOrder(p: Package, data: seq<byte>, s: Config, log: seq<Entry>, t: nat)
    requires Ordered(p, data, s, log) && CanMove(s, t)
    requires s.threads[t].Copying? && s.threads[t].copied < |s.threads[t].job.bytes|
    ensures Ordered(p, data, Move(p, s, t), log)
  {
    var r, applied := Move(p, s, t), Applied(p, data, log);
    MoveIsWellFormed(p, s, t);
    LogAfterStep(p, s, t, log);
    assert log + [] == log;
    forall x | 0 <= x < |data| ensures ByteInOrder(p, applied, r, x) {
      CopyKeepsByte(p, s, t, applied, x);
    }
    forall u | 0 <= u < |r.threads| && r.threads[u].Copying? ensures JobOnTop(applied, r.threads[u].job) {
      assert s.threads[u].Copying? && r.threads[u].job == s.threads[u].job;
    }
  }

  lemma OtherMoveKeepsOrder(p: Package, data: seq<byte>, s: Config, log: seq<Entry>, t: nat)
    requires Ordered(p, data, s, log) && CanMove(s, t) && Started(s.threads[t])
    requires s.threads[t].Copying? ==> s.threads[t].copied == |s.threads[t].job.bytes|
    ensures Ordered(p, data, Move(p, s, t), log)
  {
    var r, applied := Move(p, s, t), Applied(p, data, log);
    MoveIsWellFormed(p, s, t);
    StaysStarted(p, s, t);
    LogAfterStep(p, s, t, log);
    assert log + [] == log;
    assert !r.threads[t].Copying?;
    forall x | 0 <= x < |data| ensures ByteInOrder(p, applied, r, x) {
      assert ByteInOrder(p, applied, s, x);
      if u :| 0 <= u < |s.threads| && Pending(s.threads[u], x) {
        assert Pending(r.threads[u], x);
      }
    }
  }

  lemma SpawnKeepsOrder(p: Package, data: seq<byte>, s: Config, log: seq<Entry>, job: Job)
    requires Ordered(p, data, s, log) && ValidJob(p, |s.data|, job)
    ensures Ordered(p, data, Follow(p, s, Spawn(job)), log)
  {
    var r, applied := Follow(p, s, Spawn(job)), Applied(p, data, log);
    LogAfterSpawn(p, s, job, log);
    forall x | 0 <= x < |data| ensures ByteInOrder(p, applied, r, x) {
      assert ByteInOrder(p, applied, s, x);
      if u :| 0 <= u < |s.threads| && Pending(s.threads[u], x) {
        assert Pending(r.threads[u], x);
      }
    }
  }

  lemma EventKeepsOrder(p: Package, data: seq<byte>, s: Config, log: seq<Entry>, e: Event)
    requires Ordered(p, data, s, log) && Allowed(p, s, e) && Separate(p, s.threads)
    ensures Ordered(p, data, Follow(p, s, e), log + Entered(s, e))
  {
    assert log + [] == log;
    match e
    case Spawn(job) => SpawnKeepsOrder(p, data, s, log, job);
    case Step(t) =>
      var th := s.threads[t];
      assert ValidThread(p, |s.data|, th);
      if !Started(th) {
        EnterKeepsOrder(p, data, s, log, t);
      } else if th.Copying? && th.copied < |th.job.bytes| {
        CopyKeepsOrder(p, data, s, log, t);
      } else {
        OtherMoveKeepsOrder(p, data, s, log, t);
      }
  }

  lemma {:induction false} RunKeepsOrder(p: Package, data: seq<byte>, s: Config, log: seq<Entry>, events: seq<Event>)
    requires Ordered(p, data, s, log) && Run(p, s, events) && Separate(p, End(p, s, events).threads)
    ensures Ordered(p, data, End(p, s, events), log + Log(p, s, events))
    decreases |events|
  {
    if events == [] {
      assert log + [] == log;
    } else {
      var s1, entered, rest := Follow(p, s, events[0]), Entered(s, events[0]), events[1..];
      SeparateFromStart(p, s, events);
      EventKeepsOrder(p, data, s, log, events[0]);
      RunKeepsOrder(p, data, s1, log + entered, rest);
      LogUnfolds(p, s, events, log);
    }
  }

  lemma LogUnfolds(p: Package, s: Config, events: seq<Event>, log: seq<Entry>)
    requires WellFormed(p, s) && events != [] && Run(p, s, events)
    ensures var s1, rest := Follow(p, s, events[0]), events[1..];
      && Run(p, s1, rest) && End(p, s, events) == End(p, s1, rest)
      && log + Log(p, s, events) == (log + Entered(s, events[0])) + Log(p, s1, rest)
  {
    var s1, entered, rest := Follow(p, s, events[0]), Entered(s, events[0]), events[1..];
    assert Log(p, s, events) == entered + Log(p, s1, rest);
    Associative(log, entered, Log(p, s1, rest));
  }

  /** The calls of a log made one after another with update_chunk_node. */
  function Serial(p: Package, st: State, log: seq<Entry>): (r: State)
    requires p.Valid(|st.data|) && |st.computed| == p.Nodes() && Fits(p, |st.data|, log)
    ensures |r.data| == |st.data| && |r.computed| == |st.computed|
  {
    if log == [] then st
    else
      var n := |log| - 1;
      var before, job := Serial(p, st, log[..n]), log[n].job;
      InstallsJob(p, before, job);
      Install(p, before, job.leaf, job.bytes, |job.bytes|, job.at)
  }

  lemma InstallsJob(p: Package, st: State, job: Job)
    requires p.Valid(|st.data|) && |st.computed| == p.Nodes() && ValidJob(p, |st.data|, job)
    ensures CopySize(|job.bytes|, p.ChunkOf(job.leaf).size) == |job.bytes|
    ensures CanInstall(p, st, job.leaf, job.bytes, |job.bytes|, job.at)
    ensures Install(p, st, job.leaf, job.bytes, |job.bytes|, job.at).data == Overlay(st.data, job.at, job.bytes)
  {
    assert job.bytes[..CopySize(|job.bytes|, p.ChunkOf(job.leaf).size)] == job.bytes;
  }

  lemma ApartKeepsOthers(p: Package, st: State, job: Job)
    requires p.Valid(|st.data|) && |st.computed| == p.Nodes() && ValidJob(p, |st.data|, job)
    requires forall q | 0 <= q < p.Nodes() :: Apart(p, job, q)
    ensures CanInstall(p, st, job.leaf, job.bytes, |job.bytes|, job.at)
    ensures KeepsOthers(p, st, job.leaf, job.bytes, |job.bytes|, job.at)
  {
    InstallsJob(p, st, job);
    forall j | 0 <= j < p.Nodes() && !IsInternal(p.Nodes(), j) && j != job.leaf && job.bytes != []
      ensures var c := p.ChunkOf(j); job.at + |job.bytes| <= c.offset || c.offset + c.size <= job.at
    {
      assert Apart(p, job, j);
    }
  }

  /** No call of the log writes a byte that another leaf hashes. */
  ghost predicate AllApart(p: Package, log: seq<Entry>) {
    forall k, q | 0 <= k < |log| && 0 <= q < p.Nodes() :: Apart(p, log[k].job, q)
  }

  lemma {:induction false} SerialIsApplied(p: Package, st: State, log: seq<Entry>)
    requires Consistent(p, st.data, st.computed) && Fits(p, |st.data|, log) && AllApart(p, log)
    ensures var r := Serial(p, st, log); r.data == Applied(p, st.data, log) && Consistent(p, r.data, r.computed)
  {
    if log != [] {
      var n := |log| - 1;
      var before, job := Serial(p, st, log[..n]), log[n].job;
      SerialIsApplied(p, st, log[..n]);
      InstallsJob(p, before, job);
      ApartKeepsOthers(p, before, job);
      InstallRebuilds(p, before, job.leaf, job.bytes, |job.bytes|, job.at);
    }
  }

  lemma SameDataSameHashes(p: Package, data: seq<byte>, c: seq<Hash>, d: seq<Hash>)
    requires Consistent(p, data, c) && Consistent(p, data, d)
    ensures c == d
  {
    ConsistentIsRebuilt(p, data, c);
    ConsistentIsRebuilt(p, data, d);
  }

  lemma StartsOrdered(p: Package, s: Config)
    requires WellFormed(p, s) && s.threads == []
    ensures Ordered(p, s.data, s, [])
  {
    forall x | 0 <= x < |s.data| ensures ByteInOrder(p, Applied(p, s.data, []), s, x) {}
  }

  /** A finished run has the bytes of its log. */
  lemma FinishedBytes(p: Package, s: Config, events: seq<Event>)
    requires WellFormed(p, s) && s.threads == [] && Run(p, s, events)
    requires Quiet(End(p, s, events)) && Separate(p, End(p, s, events).threads)
    ensures var log, r := Log(p, s, events), End(p, s, events);
      Fits(p, |s.data|, log) && LogMatches(r, log) && r.data == Applied(p, s.data, log)
  {
    var log, r := Log(p, s, events), End(p, s, events);
    StartsOrdered(p, s);
    RunKeepsOrder(p, s.data, s, [], events);
    assert [] + log == log;
    forall x | 0 <= x < |s.data| ensures r.data[x] == Applied(p, s.data, log)[x] {
      assert ByteInOrder(p, Applied(p, s.data, log), r, x);
    }
  }

  /**
   * Every run of separate calls from a tree at rest that ends with no call in flight leaves the bytes and all
   * hashes exactly as the same calls made one at a time, in the order they took their leaf's lock: each once.
   */
  lemma FinishedRunIsSerial(p: Package, s: Config, events: seq<Event>)
    requires Consistent(p, s.data, s.computed) && s.threads == []
    requires Run(p, s, events) && Quiet(End(p, s, events)) && Separate(p, End(p, s, events).threads)
    ensures var log, r := Log(p, s, events), End(p, s, events);
      && Fits(p, |s.data|, log) && LogMatches(r, log)
      && State(r.data, r.computed) == Serial(p, State(s.data, s.computed), log)
      && forall i | 0 <= i < p.Nodes() :: r.computed[i] == Rebuild(p, r.data, i)
  {
    var log, r, st := Log(p, s, events), End(p, s, events), State(s.data, s.computed);
    FinishedBytes(p, s, events);
    SerialIsApplied(p, st, log);
    RestIsInvariant(p, s);
    RunKeepsInvariant(p, s, events);
    QuietIsConsistent(p, r);
    SameDataSameHashes(p, r.data, r.computed, Serial(p, st, log).computed);
    ConsistentIsRebuilt(p, r.data, r.computed);
  }
}
