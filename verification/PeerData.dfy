/** The table of connected peers and the queue of requests each peer serves. */
module PeerData {
  import opened Bytes
  import Queue

  class Peer {
    const ip: seq<byte> // the address's characters, without its NUL
    const port: nat

    constructor (ip: seq<byte>, port: nat)
      ensures this.ip == ip && this.port == port
    {
      this.ip, this.port := ip, port;
    }
  }

  function Occupied(slots: seq<Peer?>): (n: nat)
    ensures n <= |slots|
  {
    if slots == [] then 0 else (if slots[0] != null then 1 else 0) + Occupied(slots[1..])
  }

  predicate At(slot: Peer?, ip: seq<byte>, port: nat) { slot != null && slot.ip == ip && slot.port == port }

  /** The first slot of the kind looked for, or the number of slots. */
  function FirstFree(slots: seq<Peer?>): (k: nat)
    ensures k <= |slots| && (k < |slots| ==> slots[k] == null)
    ensures forall j | 0 <= j < k :: slots[j] != null
  {
    if slots == [] || slots[0] == null then 0 else 1 + FirstFree(slots[1..])
  }

  function FirstAt(slots: seq<Peer?>, ip: seq<byte>, port: nat): (k: nat)
    ensures k <= |slots| && (k < |slots| ==> At(slots[k], ip, port))
    ensures forall j | 0 <= j < k :: !At(slots[j], ip, port)
  {
    if slots == [] || At(slots[0], ip, port) then 0 else 1 + FirstAt(slots[1..], ip, port)
  }

  /** In terms of the peers' fields: the first slot whose peer has both the address and the port, if any has. */
  lemma FirstAtIs(slots: seq<Peer?>, ip: seq<byte>, port: nat, k: nat)
    requires k <= |slots|
    ensures k == FirstAt(slots, ip, port) <==>
      && (k < |slots| ==> slots[k] != null && slots[k].ip == ip && slots[k].port == port)
      && forall j | 0 <= j < k :: slots[j] == null || slots[j].ip != ip || slots[j].port != port
  {
    var f := FirstAt(slots, ip, port);
    if k != f && k < |slots| && slots[k] != null && slots[k].ip == ip && slots[k].port == port {
      assert At(slots[k], ip, port);
      assert f < k ==> At(slots[f], ip, port);
    } else if f < k {
      assert At(slots[f], ip, port);
    }
  }

  lemma {:induction false} OccupiedAfter(slots: seq<Peer?>, k: nat, peer: Peer?)
    requires k < |slots|
    ensures Occupied(slots[k := peer]) ==
      Occupied(slots) - (if slots[k] != null then 1 else 0) + (if peer != null then 1 else 0)
  {
    var after := slots[k := peer];
    if k == 0 {
      assert after[1..] == slots[1..];
    } else {
      assert after[1..] == slots[1..][k - 1 := peer];
      OccupiedAfter(slots[1..], k - 1, peer);
    }
  }

  /** Fewer peers than slots leave a free slot, and a free slot means fewer peers than slots. */
  lemma {:induction false} FreeIffBelowCapacity(slots: seq<Peer?>)
    ensures Occupied(slots) < |slots| <==> FirstFree(slots) < |slots|
  {
    if slots != [] {
      FreeIffBelowCapacity(slots[1..]);
    }
  }

  class Peers {
    const list: array<Peer?>
    var npeersCur: nat

    ghost predicate Valid()
      reads this, list
    {
      npeersCur == Occupied(list[..])
    }

    /** peer_list_create. */
    constructor (npeersMax: nat)
      ensures Valid() && fresh(list) && list.Length == npeersMax && npeersCur == 0
      ensures forall k | 0 <= k < npeersMax :: list[k] == null
    {
      list := new Peer?[npeersMax](_ => null);
      npeersCur := 0;
      new;
      AllFree(list[..]);
    }

    /** peers_add: below capacity the first free slot takes the peer; a full table stays as it is. */
    method Add(newPeer: Peer?)
      requires Valid()
      modifies this, list
      ensures Valid()
      ensures newPeer == null || old(npeersCur) >= list.Length ==> list[..] == old(list[..])
      ensures newPeer != null && old(npeersCur) < list.Length ==>
        var k := FirstFree(old(list[..]));
        && k < list.Length && list[..] == old(list[..])[k := newPeer] && npeersCur == old(npeersCur) + 1
    {
      if newPeer == null || npeersCur >= list.Length {
        return;
      }
      ghost var slots := list[..];
      FreeIffBelowCapacity(slots);
      var i := 0;
      while i < list.Length
        invariant 0 <= i <= FirstFree(slots) && list[..] == slots && npeersCur == old(npeersCur) && Valid()
      {
        if list[i] == null {
          assert i == FirstFree(slots);
          OccupiedAfter(slots, i, newPeer);
          list[i] := newPeer;
          assert list[..] == slots[i := newPeer];
          npeersCur := npeersCur + 1;
          return;
        }
        i := i + 1;
      }
    }

    /** peers_remove: the first slot with this address and port is freed. */
    method Remove(ip: seq<byte>, port: nat)
      requires Valid()
      modifies this, list
      ensures Valid()
      ensures var k := FirstAt(old(list[..]), ip, port);
        && (k < list.Length ==> list[..] == old(list[..])[k := null] && npeersCur == old(npeersCur) - 1)
        && (k >= list.Length ==> list[..] == old(list[..]) && npeersCur == old(npeersCur))
      ensures var slots, k := old(list[..]), FirstAt(old(list[..]), ip, port);
        && (k < |slots| ==> slots[k] != null && slots[k].ip == ip && slots[k].port == port)
        && forall j | 0 <= j < k :: slots[j] == null || slots[j].ip != ip || slots[j].port != port
    {
      ghost var slots := list[..];
      var i := 0;
      while i < list.Length
        invariant 0 <= i <= FirstAt(slots, ip, port) && i <= list.Length
        invariant list[..] == slots && npeersCur == old(npeersCur) && Valid()
      {
        if At(list[i], ip, port) {
          assert i == FirstAt(slots, ip, port);
          OccupiedAfter(slots, i, null);
          list[i] := null;
          assert list[..] == slots[i := null];
          npeersCur := npeersCur - 1;
          return;
        }
        i := i + 1;
      }
    }

    /** peers_find, whose parameter cuts the port to 16 bits. */
    method Find(ip: seq<byte>, port: nat) returns (target: Peer?)
      ensures var k := FirstAt(list[..], ip, port % 0x1_0000);
        target == if k < list.Length then list[k] else null
      ensures target != null ==> target.ip == ip && target.port == port % 0x1_0000
      ensures target == null ==>
        forall k | 0 <= k < list.Length :: list[k] == null || list[k].ip != ip || list[k].port != port % 0x1_0000
    {
      var port16 := port % 0x1_0000;
      var i := 0;
      while i < list.Length
        invariant 0 <= i <= FirstAt(list[..], ip, port16) && i <= list.Length
      {
        if At(list[i], ip, port16) {
          assert i == FirstAt(list[..], ip, port16);
          return list[i];
        }
        i := i + 1;
      }
      return null;
    }
  }

  // What search and removal do with one address and port, as the disconnect command uses them.

  /** They take the same slot, or neither takes any, exactly when the port fits 16 bits or nobody is at either port. */
  lemma SearchAndRemovalAgreeIff(slots: seq<Peer?>, ip: seq<byte>, port: nat)
    ensures FirstAt(slots, ip, port) == FirstAt(slots, ip, port % 0x1_0000) <==>
      port < 0x1_0000 || forall k | 0 <= k < |slots| :: !At(slots[k], ip, port) && !At(slots[k], ip, port % 0x1_0000)
  {
    PortCut(port);
  }

  lemma PortCut(port: nat)
    ensures port % 0x1_0000 == port <==> port < 0x1_0000
  {}

  /** A peer answers to its own address and port exactly when the port fits 16 bits and no earlier peer has both. */
  lemma FoundByOwnPortIff(slots: seq<Peer?>, k: nat)
    requires k < |slots| && slots[k] != null
    ensures var peer := slots[k];
      FirstAt(slots, peer.ip, peer.port % 0x1_0000) == k <==>
        peer.port < 0x1_0000 && forall j | 0 <= j < k :: !At(slots[j], peer.ip, peer.port)
  {
    PortCut(slots[k].port);
    assert At(slots[k], slots[k].ip, slots[k].port);
  }

  /** A peer on port 65616, alone in the table, is removed by its port but searched for on port 80. */
  lemma WidePortMismatch(peer: Peer)
    requires peer.port == 0x1_0050
    ensures var slots: seq<Peer?> := [peer];
      && FirstAt(slots, peer.ip, peer.port) == 0 && FirstAt(slots, peer.ip, peer.port % 0x1_0000) == 1
  {
    var slots: seq<Peer?> := [peer];
    assert At(slots[0], peer.ip, peer.port) && !At(slots[0], peer.ip, 0x50);
    assert slots[1..] == [];
  }

  lemma {:induction false} AllFree(slots: seq<Peer?>)
    requires forall k | 0 <= k < |slots| :: slots[k] == null
    ensures Occupied(slots) == 0
  {
    if slots != [] {
      AllFree(slots[1..]);
    }
  }

  // Requests.

  class RequestQueue<T> {
    const queue: Queue.Queue<T>
    var count: nat

    ghost predicate Valid()
      reads this, queue, queue.spine
    {
      queue.Valid() && count == |queue.Contents()|
    }

    /** reqs_create. */
    constructor ()
      ensures Valid() && fresh(queue) && queue.Contents() == [] && queue.spine == []
    {
      queue := new Queue.Queue<T>();
      count := 0;
    }

    /** reqs_enqueue. */
    method Enqueue(request: T)
      requires Valid()
      modifies this, queue, queue.spine
      ensures Valid() && queue.Contents() == old(queue.Contents()) + [request]
      ensures |queue.spine| == |old(queue.spine)| + 1 && queue.spine[..|old(queue.spine)|] == old(queue.spine)
      ensures fresh(queue.spine[|old(queue.spine)|])
    {
      queue.Enqueue(request);
      count := count + 1;
    }

    /** reqs_dequeue. */
    method Dequeue() returns (r: Option<T>)
      requires Valid()
      modifies this, queue
      ensures Valid()
      ensures old(queue.Contents()) == [] ==> r == None && queue.Contents() == [] && queue.spine == []
      ensures old(queue.Contents()) != [] ==>
        r == Some(old(queue.Contents())[0]) && queue.Contents() == old(queue.Contents())[1..]
      ensures old(queue.spine) != [] ==> queue.spine == old(queue.spine)[1..]
    {
      r := queue.Dequeue();
      if r.Some? {
        count := count - 1;
      }
    }
  }

  // Whole runs of one request queue.

  datatype Operation<T> = Put(request: T) | Get

  /** The contents after one operation, as the contracts of Enqueue and Dequeue give them. */
  function Step<T>(contents: seq<T>, op: Operation<T>): seq<T> {
    match op
    case Put(request) => contents + [request]
    case Get => if contents == [] then [] else contents[1..]
  }

  /** What the operation hands out. */
  function Output<T>(contents: seq<T>, op: Operation<T>): seq<T> {
    if op.Get? && contents != [] then [contents[0]] else []
  }

  function End<T>(contents: seq<T>, ops: seq<Operation<T>>): seq<T>
    decreases |ops|
  {
    if ops == [] then contents else End(Step(contents, ops[0]), ops[1..])
  }

  function Outputs<T>(contents: seq<T>, ops: seq<Operation<T>>): seq<T>
    decreases |ops|
  {
    if ops == [] then [] else Output(contents, ops[0]) + Outputs(Step(contents, ops[0]), ops[1..])
  }

  function Inputs<T>(ops: seq<Operation<T>>): seq<T> {
    if ops == [] then []
    else (match ops[0] case Put(request) => [request] case Get => []) + Inputs(ops[1..])
  }

  /** First in, first out: over any run what comes out, then what is still queued, is what went in, in order. */
  lemma {:induction false} FirstInFirstOut<T>(contents: seq<T>, ops: seq<Operation<T>>)
    ensures Outputs(contents, ops) + End(contents, ops) == contents + Inputs(ops)
    decreases |ops|
  {
    if ops != [] {
      var next, rest := Step(contents, ops[0]), ops[1..];
      FirstInFirstOut(next, rest);
      if ops[0].Put? {
        Associative(contents, [ops[0].request], Inputs(rest));
      } else if contents != [] {
        assert contents == [contents[0]] + next;
        Associative([contents[0]], Outputs(next, rest), End(next, rest));
        Associative([contents[0]], next, Inputs(rest));
      }
    }
  }

  /** One operation on the linked queue does to its contents what the run model says. */
  method Perform<T>(q: RequestQueue<T>, op: Operation<T>) returns (out: seq<T>)
    requires q.Valid()
    modifies q, q.queue, q.queue.spine
    ensures q.Valid() && q.queue.Contents() == Step(old(q.queue.Contents()), op)
    ensures out == Output(old(q.queue.Contents()), op)
  {
    match op
    case Put(request) =>
      q.Enqueue(request);
      out := [];
    case Get =>
      var r := q.Dequeue();
      out := if r.Some? then [r.value] else [];
  }
}
