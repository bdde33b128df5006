/** Whole runs of the concurrent update: safety at every moment, the final state, progress and termination. */
module ConcurrentRuns {
  import opened Shape
  import opened Merkle
  import opened Concurrent

  /** A thread takes a step, or a new call arrives. */
  datatype Event = Step(thread: nat) | Spawn(job: Job)

  predicate Allowed(p: Package, s: Config, e: Event) {
    match e
    case Step(t) => CanMove(s, t)
    case Spawn(job) => ValidJob(p, |s.data|, job)
  }

  function Follow(p: Package, s: Config, e: Event): (r: Config)
    requires WellFormed(p, s) && Allowed(p, s, e)
    ensures WellFormed(p, r) && |r.data| == |s.data|
  {
    match e
    case Step(t) => MoveIsWellFormed(p, s, t); Move(p, s, t)
    case Spawn(job) => s.(threads := s.threads + [Waiting(job, job.leaf)])
  }

  ghost predicate Run(p: Package, s: Config, events: seq<Event>)
    requires WellFormed(p, s)
    decreases |events|
  {
    events == [] || (Allowed(p, s, events[0]) && Run(p, Follow(p, s, events[0]), events[1..]))
  }

  ghost function End(p: Package, s: Config, events: seq<Event>): (r: Config)
    requires WellFormed(p, s) && Run(p, s, events)
    ensures WellFormed(p, r) && |r.data| == |s.data|
    decreases |events|
  {
    if events == [] then s else End(p, Follow(p, s, events[0]), events[1..])
  }

  lemma SpawnKeepsInvariant(p: Package, s: Config, job: Job)
    requires Invariant(p, s) && ValidJob(p, |s.data|, job)
    ensures Invariant(p, Follow(p, s, Spawn(job)))
  {
    var r := Follow(p, s, Spawn(job));
    forall q | 0 <= q < p.Nodes() && Untouched(p, r, q) ensures Covered(p, r, q) {
      assert forall t | 0 <= t < |s.threads| :: r.threads[t] == s.threads[t];
      assert Untouched(p, s, q) && Covered(p, s, q);
      var source, hash := Source(p, s.data, s.computed, q), s.computed[q];
      if t :| 0 <= t < |s.threads| && Owes(p, s.threads[t], q, source, hash) {
        assert Owes(p, r.threads[t], q, source, hash);
      }
    }
  }

  /** The invariant holds in every state of every run. */
  lemma {:induction false} RunKeepsInvariant(p: Package, s: Config, events: seq<Event>)
    requires Invariant(p, s) && Run(p, s, events)
    ensures Invariant(p, End(p, s, events))
    decreases |events|
  {
    if events != [] {
      match events[0] {
        case Step(t) => MoveKeepsInvariant(p, s, t);
        case Spawn(job) => SpawnKeepsInvariant(p, s, job);
      }
      RunKeepsInvariant(p, Follow(p, s, events[0]), events[1..]);
    }
  }

  /** No call in flight. */
  predicate Quiet(s: Config) { forall t | 0 <= t < |s.threads| :: s.threads[t].Done? }

  /**
   * When no call is in flight every internal node is the hash of its children, wherever the calls wrote, and
   * every leaf that no call through another leaf wrote to is the hash of its chunk.
   */
  lemma QuietIsClean(p: Package, s: Config, q: nat)
    requires Invariant(p, s) && Quiet(s) && q < p.Nodes() && Untouched(p, s, q)
    ensures Clean(p, s.data, s.computed, q)
  {
    assert Covered(p, s, q);
  }

  /** If no call wrote to another leaf's chunk every node is right. */
  lemma QuietIsConsistent(p: Package, s: Config)
    requires Invariant(p, s) && Quiet(s) && forall q | 0 <= q < p.Nodes() :: Untouched(p, s, q)
    ensures Consistent(p, s.data, s.computed)
  {
    forall q | 0 <= q < p.Nodes() ensures Clean(p, s.data, s.computed, q) {
      QuietIsClean(p, s, q);
    }
  }

  /** A tree at rest satisfies the invariant before the first call. */
  lemma RestIsInvariant(p: Package, s: Config)
    requires Consistent(p, s.data, s.computed) && s.threads == []
    ensures Invariant(p, s)
  {
    forall q | 0 <= q < p.Nodes() ensures Covered(p, s, q) {
      assert Clean(p, s.data, s.computed, q);
    }
  }

  // Progress.

  /** No deadlock: while a call is in flight some thread can take a step. */
  lemma NeverStuck(s: Config)
    requires !Quiet(s)
    ensures exists t :: CanMove(s, t)
  {
    if t, q: nat :| 0 <= t < |s.threads| && Holds(s.threads[t], q) {
      assert CanMove(s, t);
    } else {
      var t :| 0 <= t < |s.threads| && !s.threads[t].Done?;
      assert CanMove(s, t);
    }
  }

  /** The steps left once q is unlocked. */
  function AfterUnlock(p: Package, q: nat): nat
    requires q < p.Nodes()
    decreases q, 0
  {
    if q == 0 then 0 else 1 + WhileLocked(p, Parent(q))
  }

  /** The steps left once q is locked for a rehash. */
  function WhileLocked(p: Package, q: nat): nat
    requires q < p.Nodes()
    decreases q, 1
  {
    SourceLength(p, q) + 1 + 64 + 1 + AfterUnlock(p, q)
  }

  function ThreadWork(p: Package, fileSize: nat, th: Thread): nat
    requires ValidThread(p, fileSize, th)
  {
    match th
    case Waiting(job, q) => (if q == job.leaf then |job.bytes| + 2 else 1) + WhileLocked(p, q)
    case Copying(job, k) => |job.bytes| - k + 1 + WhileLocked(p, job.leaf)
    case Reading(_, q, text) => SourceLength(p, q) - |text| + 1 + 64 + 1 + AfterUnlock(p, q)
    case Writing(_, q, _, k) => 64 - k + 1 + AfterUnlock(p, q)
    case Done(_) => 0
  }

  function Work(p: Package, fileSize: nat, threads: seq<Thread>): nat
    requires forall t | 0 <= t < |threads| :: ValidThread(p, fileSize, threads[t])
  {
    if threads == [] then 0 else ThreadWork(p, fileSize, threads[0]) + Work(p, fileSize, threads[1..])
  }

  lemma ParentIsNotLeaf(n: nat, q: nat)
    requires n % 2 == 1 && 0 < q < n
    ensures IsInternal(n, Parent(q))
  {
    assert Under(Parent(q), q);
    AncestorIsInternal(n, Parent(q), q);
  }

  lemma ThreadWorkShrinks(p: Package, s: Config, t: nat)
    requires WellFormed(p, s) && CanMove(s, t)
    ensures ValidThread(p, |s.data|, s.threads[t]) && ValidThread(p, |s.data|, Moved(p, s, t))
    ensures ThreadWork(p, |s.data|, Moved(p, s, t)) == ThreadWork(p, |s.data|, s.threads[t]) - 1
  {
    MoveIsWellFormed(p, s, t);
    var th := s.threads[t];
    assert ValidThread(p, |s.data|, th) && Move(p, s, t).threads[t] == Moved(p, s, t);
    if th.Reading? {
      SourceHasLength(p, s.data, s.computed, th.node);
    }
    if th.Writing? && th.node > 0 {
      ParentIsNotLeaf(p.Nodes(), th.node);
    }
  }

  lemma {:induction false} WorkOfUpdate(p: Package, size: nat, threads: seq<Thread>, t: nat, th: Thread)
    requires t < |threads| && ValidThread(p, size, th)
    requires forall u | 0 <= u < |threads| :: ValidThread(p, size, threads[u])
    ensures Work(p, size, threads[t := th]) ==
      Work(p, size, threads) - ThreadWork(p, size, threads[t]) + ThreadWork(p, size, th)
  {
    var after := threads[t := th];
    if t == 0 {
      assert after[1..] == threads[1..];
    } else {
      assert after[1..] == threads[1..][t - 1 := th];
      WorkOfUpdate(p, size, threads[1..], t - 1, th);
    }
  }

  /** Every step of every thread lowers the total work by exactly one. */
  lemma MoveDoesWork(p: Package, s: Config, t: nat)
    requires WellFormed(p, s) && CanMove(s, t)
    ensures WellFormed(p, Move(p, s, t)) && Work(p, |s.data|, Move(p, s, t).threads) == Work(p, |s.data|, s.threads) - 1
  {
    MoveIsWellFormed(p, s, t);
    ThreadWorkShrinks(p, s, t);
    WorkOfUpdate(p, |s.data|, s.threads, t, Moved(p, s, t));
  }

  lemma {:induction false} NoWorkIsQuiet(p: Package, size: nat, threads: seq<Thread>)
    requires forall t | 0 <= t < |threads| :: ValidThread(p, size, threads[t])
    ensures Work(p, size, threads) == 0 <==> forall t | 0 <= t < |threads| :: threads[t].Done?
  {
    if threads != [] {
      NoWorkIsQuiet(p, size, threads[1..]);
      assert forall t | 0 < t < |threads| :: threads[t] == threads[1..][t - 1];
    }
  }

  /**
   * Termination: without new calls a run takes exactly as many steps as the work it completes, so no
   * schedule runs longer than Work(s), and one that long has finished every call.
   */
  lemma {:induction false} RunDoesWork(p: Package, s: Config, events: seq<Event>)
    requires WellFormed(p, s) && Run(p, s, events) && forall e | e in events :: e.Step?
    ensures Work(p, |s.data|, End(p, s, events).threads) == Work(p, |s.data|, s.threads) - |events|
    ensures Quiet(End(p, s, events)) <==> |events| == Work(p, |s.data|, s.threads)
    decreases |events|
  {
    NoWorkIsQuiet(p, |s.data|, End(p, s, events).threads);
    if events != [] {
      MoveDoesWork(p, s, events[0].thread);
      RunDoesWork(p, Follow(p, s, events[0]), events[1..]);
    }
  }

  /** From any reachable state some schedule finishes all calls. */
  lemma {:induction false} CanFinish(p: Package, s: Config) returns (events: seq<Event>)
    requires WellFormed(p, s)
    ensures Run(p, s, events) && Quiet(End(p, s, events))
    decreases Work(p, |s.data|, s.threads)
  {
    events := [];
    if !Quiet(s) {
      NeverStuck(s);
      var t: nat :| CanMove(s, t);
      MoveDoesWork(p, s, t);
      var rest := CanFinish(p, Move(p, s, t));
      events := [Step(t)] + rest;
      assert events[1..] == rest && Follow(p, s, events[0]) == Move(p, s, t);
    }
  }
}
