/** What interleavings there are: the critical sections of any two calls can overlap anywhere. */
module ConcurrentOverlap {
  import opened Shape
  import opened Merkle
  import opened Concurrent
  import opened ConcurrentRuns

  /** The node a thread is at. */
  function NodeOf(th: Thread): nat {
    match th
    case Waiting(_, node) => node
    case Copying(job, _) => job.leaf
    case Reading(_, node, _) => node
    case Writing(_, node, _, _) => node
    case Done(_) => 0
  }

  /** The steps from the locking of q to its unlocking. */
  function SectionLength(p: Package, job: Job, q: nat): nat
    requires q < p.Nodes()
  {
    (if q == job.leaf then |job.bytes| + 1 else 0) + SourceLength(p, q) + 66
  }

  /** The thread holds q's lock and has so many steps left until it has unlocked it. */
  predicate Inside(p: Package, fileSize: nat, th: Thread, q: nat, left: nat) {
    && ValidThread(p, fileSize, th) && q < p.Nodes() && Holds(th, q)
    && ThreadWork(p, fileSize, th) == AfterUnlock(p, q) + left
  }

  lemma {:induction false} RunCat(p: Package, s: Config, first: seq<Event>, rest: seq<Event>)
    requires WellFormed(p, s) && Run(p, s, first) && Run(p, End(p, s, first), rest)
    ensures Run(p, s, first + rest) && End(p, s, first + rest) == End(p, End(p, s, first), rest)
    decreases |first|
  {
    if first == [] {
      assert first + rest == rest;
    } else {
      RunCat(p, Follow(p, s, first[0]), first[1..], rest);
      assert (first + rest)[1..] == first[1..] + rest;
    }
  }

  /** Below b there is more work to do than b's section takes. */
  lemma {:induction false} MoreWorkBelow(p: Package, b: nat, i: nat)
    requires b < i < p.Nodes() && Under(b, i)
    ensures AfterUnlock(p, i) >= 1 + WhileLocked(p, b)
    decreases i
  {
    if Parent(i) != b {
      MoreWorkBelow(p, b, Parent(i));
    }
  }

  /** Thread t alone moves on until it has so much work left, from below b or at b to inside b's section. */
  lemma {:induction false} RunAlone(p: Package, s: Config, t: nat, b: nat, left: nat) returns (events: seq<Event>)
    requires WellFormed(p, s) && t < |s.threads| && b < p.Nodes()
    requires ValidThread(p, |s.data|, s.threads[t]) && !s.threads[t].Done?
    requires Under(b, NodeOf(s.threads[t])) && Under(NodeOf(s.threads[t]), s.threads[t].job.leaf)
    requires 1 <= left && AfterUnlock(p, b) + left <= ThreadWork(p, |s.data|, s.threads[t])
    requires forall u, q: nat | 0 <= u < |s.threads| && u != t && Under(b, q) && Under(q, s.threads[t].job.leaf) ::
      !Holds(s.threads[u], q)
    ensures Run(p, s, events)
    ensures var e := End(p, s, events);
      && |e.threads| == |s.threads| && |e.data| == |s.data|
      && (forall u | 0 <= u < |s.threads| && u != t :: e.threads[u] == s.threads[u])
      && e.threads[t].job == s.threads[t].job && !e.threads[t].Done?
      && Under(b, NodeOf(e.threads[t])) && ValidThread(p, |s.data|, e.threads[t])
      && ThreadWork(p, |s.data|, e.threads[t]) == AfterUnlock(p, b) + left
    decreases ThreadWork(p, |s.data|, s.threads[t])
  {
    events := [];
    if ThreadWork(p, |s.data|, s.threads[t]) > AfterUnlock(p, b) + left {
      StepAlone(p, s, t, b, left);
      var r := Move(p, s, t);
      var rest := RunAlone(p, r, t, b, left);
      events := [Step(t)] + rest;
      assert events[1..] == rest && Follow(p, s, events[0]) == r;
    }
  }

  lemma StepAlone(p: Package, s: Config, t: nat, b: nat, left: nat)
    requires WellFormed(p, s) && t < |s.threads| && b < p.Nodes()
    requires ValidThread(p, |s.data|, s.threads[t]) && !s.threads[t].Done?
    requires Under(b, NodeOf(s.threads[t])) && Under(NodeOf(s.threads[t]), s.threads[t].job.leaf)
    requires 1 <= left && AfterUnlock(p, b) + left < ThreadWork(p, |s.data|, s.threads[t])
    requires forall u, q: nat | 0 <= u < |s.threads| && u != t && Under(b, q) && Under(q, s.threads[t].job.leaf) ::
      !Holds(s.threads[u], q)
    ensures CanMove(s, t) && WellFormed(p, Move(p, s, t))
    ensures var th := Moved(p, s, t);
      && !th.Done? && th.job == s.threads[t].job && Under(b, NodeOf(th)) && Under(NodeOf(th), th.job.leaf)
      && ValidThread(p, |s.data|, th)
      && ThreadWork(p, |s.data|, th) == ThreadWork(p, |s.data|, s.threads[t]) - 1
  {
    assert CanMove(s, t) by {
      if s.threads[t].Waiting? {
        forall u | 0 <= u < |s.threads| ensures !Holds(s.threads[u], s.threads[t].node) {}
      }
    }
    MoveIsWellFormed(p, s, t);
    ThreadWorkShrinks(p, s, t);
    var th := s.threads[t];
    if th.Writing? && th.written == 64 {
      assert th.node != b;
      UnderTransitive(Parent(th.node), th.node, th.job.leaf);
    }
  }

  /** So much work left means inside b's section. */
  lemma WorkTellsSection(p: Package, fileSize: nat, th: Thread, b: nat, left: nat)
    requires ValidThread(p, fileSize, th) && !th.Done? && b < p.Nodes() && Under(b, NodeOf(th))
    requires NodeOf(th) < p.Nodes() && 1 <= left <= SectionLength(p, th.job, b)
    requires ThreadWork(p, fileSize, th) == AfterUnlock(p, b) + left
    requires !IsInternal(p.Nodes(), th.job.leaf) && p.Nodes() % 2 == 1
    ensures Inside(p, fileSize, th, b, left)
  {
    if NodeOf(th) != b {
      MoreWorkBelow(p, b, NodeOf(th));
      if b == th.job.leaf {
        LeafAlone(p.Nodes(), b, NodeOf(th));
      }
    }
  }

  /** A call that waits for its leaf has the whole section of every node above the leaf before it. */
  lemma EnoughWork(p: Package, fileSize: nat, job: Job, b: nat)
    requires ValidJob(p, fileSize, job) && Under(b, job.leaf)
    ensures b < p.Nodes()
    ensures ThreadWork(p, fileSize, Waiting(job, job.leaf)) >= AfterUnlock(p, b) + SectionLength(p, job, b)
  {
    UnderAtLeast(b, job.leaf);
    if b != job.leaf {
      MoreWorkBelow(p, b, job.leaf);
    }
  }

  /** Thread t, which waits for its leaf, runs alone into the section of b; the others stay as they are. */
  lemma Enter(p: Package, s: Config, t: nat, job: Job, b: nat, left: nat) returns (events: seq<Event>)
    requires WellFormed(p, s) && t < |s.threads| && s.threads[t] == Waiting(job, job.leaf)
    requires ValidJob(p, |s.data|, job) && Under(b, job.leaf)
    requires b < p.Nodes() && 1 <= left <= SectionLength(p, job, b)
    requires forall u, q: nat | 0 <= u < |s.threads| && u != t && Under(b, q) && Under(q, job.leaf) ::
      !Holds(s.threads[u], q)
    ensures Run(p, s, events)
    ensures var e := End(p, s, events);
      && |e.threads| == |s.threads| && |e.data| == |s.data|
      && (forall u | 0 <= u < |s.threads| && u != t :: e.threads[u] == s.threads[u])
      && e.threads[t].job == job && Inside(p, |s.data|, e.threads[t], b, left)
  {
    EnoughWork(p, |s.data|, job, b);
    events := RunAlone(p, s, t, b, left);
    var th := End(p, s, events).threads[t];
    WorkTellsSection(p, |s.data|, th, b, left);
  }

  lemma OneEvent(p: Package, s: Config, e: Event)
    requires WellFormed(p, s) && Allowed(p, s, e)
    ensures Run(p, s, [e]) && End(p, s, [e]) == Follow(p, s, e)
  {
    assert [e][1..] == [];
  }

  lemma Arrive(p: Package, s: Config, job0: Job, job1: Job) returns (r: Config)
    requires WellFormed(p, s) && ValidJob(p, |s.data|, job0) && ValidJob(p, |s.data|, job1)
    ensures WellFormed(p, r) && |r.data| == |s.data|
    ensures r.threads == s.threads + [Waiting(job0, job0.leaf), Waiting(job1, job1.leaf)]
    ensures Run(p, s, [Spawn(job0), Spawn(job1)]) && End(p, s, [Spawn(job0), Spawn(job1)]) == r
  {
    var s1 := Follow(p, s, Spawn(job0));
    r := Follow(p, s1, Spawn(job1));
    OneEvent(p, s, Spawn(job0));
    OneEvent(p, s1, Spawn(job1));
    RunCat(p, s, [Spawn(job0)], [Spawn(job1)]);
    assert [Spawn(job0)] + [Spawn(job1)] == [Spawn(job0), Spawn(job1)];
  }

  /** Nobody holds a lock on the way from the leaf up to q. */
  ghost predicate WayFree(threads: seq<Thread>, leaf: nat, q: nat) {
    forall u, x: nat | 0 <= u < |threads| && Under(q, x) && Under(x, leaf) :: !Holds(threads[u], x)
  }

  /**
   * In any state two new calls, through leaves below different nodes a and b, can get inside the sections of a and
   * b at the same time, each as far as one likes, if nobody holds a lock on their ways there; all other threads
   * stay where they are. So no lock keeps a thread from any node but its own, and any number of threads can be
   * inside different nodes.
   */
  lemma AnySectionsOverlap(p: Package, s: Config, job0: Job, job1: Job, a: nat, b: nat, left0: nat, left1: nat)
    returns (events: seq<Event>)
    requires WellFormed(p, s) && ValidJob(p, |s.data|, job0) && ValidJob(p, |s.data|, job1)
    requires Under(a, job0.leaf) && Under(b, job1.leaf) && a != b && a < p.Nodes() && b < p.Nodes()
    requires WayFree(s.threads, job0.leaf, a) && WayFree(s.threads, job1.leaf, b)
    requires 1 <= left0 <= SectionLength(p, job0, a) && 1 <= left1 <= SectionLength(p, job1, b)
    ensures Run(p, s, events)
    ensures var e, n := End(p, s, events), |s.threads|;
      && |e.threads| == n + 2 && e.threads[..n] == s.threads
      && e.threads[n].job == job0 && Inside(p, |s.data|, e.threads[n], a, left0)
      && e.threads[n + 1].job == job1 && Inside(p, |s.data|, e.threads[n + 1], b, left1)
  {
    var start := [Spawn(job0), Spawn(job1)];
    var r := Arrive(p, s, job0, job1);
    var rest := EnterBoth(p, s.threads, r, job0, job1, a, b, left0, left1);
    RunCat(p, s, start, rest);
    events := start + rest;
  }

  lemma EnterBoth(p: Package, others: seq<Thread>, r: Config, job0: Job, job1: Job, a: nat, b: nat,
                  left0: nat, left1: nat)
    returns (events: seq<Event>)
    requires WellFormed(p, r) && ValidJob(p, |r.data|, job0) && ValidJob(p, |r.data|, job1)
    requires r.threads == others + [Waiting(job0, job0.leaf), Waiting(job1, job1.leaf)]
    requires Under(a, job0.leaf) && Under(b, job1.leaf) && a != b && a < p.Nodes() && b < p.Nodes()
    requires WayFree(others, job0.leaf, a) && WayFree(others, job1.leaf, b)
    requires 1 <= left0 <= SectionLength(p, job0, a) && 1 <= left1 <= SectionLength(p, job1, b)
    ensures Run(p, r, events)
    ensures var e, n := End(p, r, events), |others|;
      && |e.threads| == n + 2 && e.threads[..n] == others
      && e.threads[n].job == job0 && Inside(p, |r.data|, e.threads[n], a, left0)
      && e.threads[n + 1].job == job1 && Inside(p, |r.data|, e.threads[n + 1], b, left1)
  {
    var n := |others|;
    assert r.threads[n] == Waiting(job0, job0.leaf) && r.threads[n + 1] == Waiting(job1, job1.leaf);
    assert forall u | 0 <= u < n :: r.threads[u] == others[u];
    if Under(a, b) {
      assert !Under(b, a);
      events := EnterInTurn(p, r, n, n + 1, job0, job1, a, b, left0, left1);
    } else {
      events := EnterInTurn(p, r, n + 1, n, job1, job0, b, a, left1, left0);
    }
  }

  /** First thread t into the section of a, then u into that of b, whose way there does not lead through a. */
  lemma EnterInTurn(p: Package, r: Config, t: nat, u: nat, job0: Job, job1: Job, a: nat, b: nat,
                    left0: nat, left1: nat)
    returns (events: seq<Event>)
    requires WellFormed(p, r) && ValidJob(p, |r.data|, job0) && ValidJob(p, |r.data|, job1)
    requires t < |r.threads| && u < |r.threads| && t != u
    requires r.threads[t] == Waiting(job0, job0.leaf) && r.threads[u] == Waiting(job1, job1.leaf)
    requires Under(a, job0.leaf) && Under(b, job1.leaf) && a < p.Nodes() && b < p.Nodes() && !Under(b, a)
    requires WayFree(r.threads, job0.leaf, a) && WayFree(r.threads, job1.leaf, b)
    requires 1 <= left0 <= SectionLength(p, job0, a) && 1 <= left1 <= SectionLength(p, job1, b)
    ensures Run(p, r, events)
    ensures var e := End(p, r, events);
      && |e.threads| == |r.threads|
      && (forall v | 0 <= v < |r.threads| && v != t && v != u :: e.threads[v] == r.threads[v])
      && e.threads[t].job == job0 && Inside(p, |r.data|, e.threads[t], a, left0)
      && e.threads[u].job == job1 && Inside(p, |r.data|, e.threads[u], b, left1)
  {
    var first := Enter(p, r, t, job0, a, left0);
    var m := End(p, r, first);
    HoldsOne(m.threads[t], a);
    var second := Enter(p, m, u, job1, b, left1);
    RunCat(p, r, first, second);
    events := first + second;
  }

  lemma HoldsOne(th: Thread, q: nat)
    requires Holds(th, q)
    ensures forall x: nat :: Holds(th, x) ==> x == q
  {}

  /**
   * The case with the unlocked read: for any internal q and child w of it, one thread has read any number of q's
   * 128 characters while another has stored any number of w's 64.
   */
  lemma ChildWrittenWhileParentRead(p: Package, s: Config, job0: Job, job1: Job, q: nat, w: nat, read: nat, stored: nat)
    returns (events: seq<Event>)
    requires WellFormed(p, s) && s.threads == [] && ValidJob(p, |s.data|, job0) && ValidJob(p, |s.data|, job1)
    requires IsInternal(p.Nodes(), q) && (w == 2 * q + 1 || w == 2 * q + 2)
    requires Under(q, job0.leaf) && Under(w, job1.leaf) && read <= 128 && stored <= 64
    ensures Run(p, s, events)
    ensures var e := End(p, s, events);
      && |e.threads| == 2 && e.threads[0].job == job0 && e.threads[1].job == job1
      && e.threads[0].Reading? && e.threads[0].node == q && |e.threads[0].text| == read
      && e.threads[1].Writing? && e.threads[1].node == w && e.threads[1].written == stored
  {
    assert q != job0.leaf;
    events := AnySectionsOverlap(p, s, job0, job1, q, w, 128 - read + 66, 64 - stored + 1);
  }

  /** Two leaf locks held at once, both calls about to copy their first byte. */
  lemma TwoLeavesLocked(p: Package, s: Config, job0: Job, job1: Job) returns (events: seq<Event>)
    requires WellFormed(p, s) && s.threads == [] && ValidJob(p, |s.data|, job0) && ValidJob(p, |s.data|, job1)
    requires job0.leaf != job1.leaf
    ensures Run(p, s, events) && End(p, s, events).threads == [Copying(job0, 0), Copying(job1, 0)]
  {
    events := AnySectionsOverlap(p, s, job0, job1, job0.leaf, job1.leaf,
                                 SectionLength(p, job0, job0.leaf), SectionLength(p, job1, job1.leaf));
  }
}
