/** Sending and receiving packets over a byte stream that takes and gives any positive number of bytes. */
module Channel {
  import opened Bytes
  import opened Sha256Spec
  import opened Packet

  /** One packet's 4096 bytes. */
  type Block = b: seq<byte> | |b| == PAYLOAD_MAX witness Zeros(PAYLOAD_MAX)

  function Stream(blocks: seq<Block>): seq<byte> {
    if blocks == [] then [] else blocks[0] + Stream(blocks[1..])
  }

  lemma {:induction false} StreamSnoc(blocks: seq<Block>, b: Block)
    ensures Stream(blocks + [b]) == Stream(blocks) + b
  {
    if blocks == [] {
      assert [b][1..] == [];
      assert Stream([b]) == b + Stream([]) == b;
    } else {
      assert (blocks + [b])[1..] == blocks[1..] + [b];
      StreamSnoc(blocks[1..], b);
      assert blocks[0] + (Stream(blocks[1..]) + b) == (blocks[0] + Stream(blocks[1..])) + b;
    }
  }

  lemma {:induction false} StreamLength(blocks: seq<Block>)
    ensures |Stream(blocks)| == PAYLOAD_MAX * |blocks|
  {
    if blocks != [] {
      StreamLength(blocks[1..]);
    }
  }

  /** A stream that begins with some blocks is the stream of blocks that begin with them. */
  lemma {:induction false} StreamPrefix(blocks: seq<Block>, first: seq<Block>, rest: seq<byte>)
    requires Stream(blocks) == Stream(first) + rest
    ensures |first| <= |blocks| && first == blocks[..|first|]
  {
    if first != [] {
      StreamLength(blocks);
      StreamLength(first);
      var b, c, bs, cs := first[0], blocks[0], first[1..], blocks[1..];
      assert (b + Stream(bs)) + rest == b + (Stream(bs) + rest);
      HeadsAgree(b, Stream(bs) + rest, c, Stream(cs));
      StreamPrefix(cs, bs, rest);
      assert blocks == [c] + cs && first == [b] + bs;
    }
  }

  lemma HeadsAgree(a: seq<byte>, s: seq<byte>, b: seq<byte>, t: seq<byte>)
    requires a + s == b + t && |a| == |b|
    ensures a == b && s == t
  {
    assert a == (a + s)[..|a|] && b == (b + t)[..|b|] && s == (a + s)[|a|..] && t == (b + t)[|b|..];
  }

  predicate AllValid(packets: seq<Pkt>) { forall k | 0 <= k < |packets| :: packets[k].Valid() }

  function ImageBlock(p: Pkt): Block
    requires p.Valid()
  {
    ImageFields(p);
    Image(p)
  }

  function Images(packets: seq<Pkt>): (r: seq<Block>)
    requires AllValid(packets)
    ensures |r| == |packets| && forall k | 0 <= k < |r| :: r[k] == ImageBlock(packets[k])
  {
    seq(|packets|, k requires 0 <= k < |packets| => ImageBlock(packets[k]))
  }

  function Unpacked(blocks: seq<Block>): (r: seq<Pkt>)
    ensures |r| == |blocks| && forall k | 0 <= k < |r| :: r[k] == Parse(blocks[k])
  {
    seq(|blocks|, k requires 0 <= k < |blocks| => Parse(blocks[k]))
  }

  lemma UnpackedImages(packets: seq<Pkt>, n: nat)
    requires AllValid(packets) && n <= |packets|
    ensures Unpacked(Images(packets)[..n]) == packets[..n]
  {
    forall k | 0 <= k < n ensures Unpacked(Images(packets)[..n])[k] == packets[k] {
      ParseOfImage(packets[k]);
    }
  }

  // The loops.

  /** One direction of a connection. */
  class Wire {
    var bytes: seq<byte>
    ghost var failures: nat // sends and receives that failed so far

    constructor ()
      ensures bytes == [] && failures == 0
    {
      bytes, failures := [], 0;
    }

    /** send: takes any positive number of the bytes, or fails with -1. */
    method Send(buffer: seq<byte>) returns (n: int)
      requires buffer != []
      modifies this
      ensures n == -1 || 1 <= n <= |buffer|
      ensures bytes == old(bytes) + if n == -1 then [] else buffer[..n]
      ensures failures == old(failures) + if n == -1 then 1 else 0
    {
      n := *;
      if 1 <= n <= |buffer| {
        bytes := bytes + buffer[..n];
      } else {
        n, failures := -1, failures + 1;
        assert bytes == bytes + [];
      }
    }

    /** recv: gives any positive number of bytes up to max, 0 at the end of the stream, -1 on failure or timeout. */
    method Receive(max: nat) returns (n: int, got: seq<byte>)
      requires max > 0
      modifies this
      ensures -1 <= n <= max && |got| == (if n > 0 then n else 0) && old(bytes) == got + bytes
      ensures failures == old(failures) + if n <= 0 then 1 else 0
    {
      n := *;
      if !(-1 <= n <= max && n <= |bytes|) {
        n := -1;
      }
      got := if n > 0 then bytes[..n] else [];
      bytes := bytes[|got|..];
      failures := failures + if n <= 0 then 1 else 0;
    }
  }

  /** The loop of try_send over the packed packet. */
  method SendAll(wire: Wire, buffer: array<byte>) returns (total: nat)
    requires buffer.Length == PAYLOAD_MAX
    modifies wire
    ensures total <= PAYLOAD_MAX && wire.bytes == old(wire.bytes) + buffer[..total]
    ensures wire.failures == old(wire.failures) + if total < PAYLOAD_MAX then 1 else 0
  {
    total := 0;
    var bytesleft := PAYLOAD_MAX;
    while total < PAYLOAD_MAX
      invariant 0 <= total <= PAYLOAD_MAX && bytesleft == PAYLOAD_MAX - total
      invariant wire.bytes == old(wire.bytes) + buffer[..total] && wire.failures == old(wire.failures)
    {
      var n := wire.Send(buffer[total..total + bytesleft]);
      if n == -1 {
        return;
      }
      assert buffer[..total] + buffer[total..total + bytesleft][..n] == buffer[..total + n];
      total := total + n;
      bytesleft := bytesleft - n;
    }
  }

  /** try_send: the whole image, or the part that went out before send failed, once. */
  method TrySend(wire: Wire, p: Pkt) returns (total: nat)
    requires p.Valid()
    modifies wire
    ensures total <= PAYLOAD_MAX && wire.bytes == old(wire.bytes) + ImageBlock(p)[..total]
    ensures wire.failures == old(wire.failures) + if total < PAYLOAD_MAX then 1 else 0
  {
    var buffer := new byte[PAYLOAD_MAX];
    var _ := Marshall(p, buffer);
    total := SendAll(wire, buffer);
    assert buffer[..total] == buffer[..][..total];
  }

  /** peer_try_receive: exactly one packet, unless recv fails; then the bytes read so far are gone. */
  method TryReceive(wire: Wire) returns (r: Option<Pkt>, ghost received: nat)
    modifies wire
    ensures received <= |old(wire.bytes)| && wire.bytes == old(wire.bytes)[received..]
    ensures r.Some? <==> received == PAYLOAD_MAX
    ensures r.Some? ==> r.value == Parse(old(wire.bytes)[..PAYLOAD_MAX])
    ensures r.None? ==> received < PAYLOAD_MAX
    ensures wire.failures == old(wire.failures) + if r.None? then 1 else 0
  {
    var buffer := new byte[PAYLOAD_MAX];
    var count := 0;
    ghost var stream := wire.bytes;
    while count < PAYLOAD_MAX
      invariant 0 <= count <= PAYLOAD_MAX && count <= |stream|
      invariant buffer[..count] == stream[..count] && wire.bytes == stream[count..]
      invariant wire.failures == old(wire.failures)
    {
      var n, got := wire.Receive(PAYLOAD_MAX - count);
      if n < 0 {
        return None, count;
      }
      if n == 0 {
        return None, count;
      }
      ReadPart(stream, count, got, wire.bytes);
      PlacePart(buffer, count, got);
      count := count + n;
    }
    assert buffer[..] == buffer[..PAYLOAD_MAX];
    var p := Unmarshall(buffer);
    return Some(p), count;
  }

  lemma ReadPart(stream: seq<byte>, count: nat, got: seq<byte>, left: seq<byte>)
    requires count <= |stream| && stream[count..] == got + left
    ensures count + |got| <= |stream| && stream[..count] + got == stream[..count + |got|]
    ensures left == stream[count + |got|..]
  {
    assert stream == stream[..count] + (got + left);
  }

  method PlacePart(buffer: array<byte>, count: nat, got: seq<byte>)
    requires count + |got| <= buffer.Length
    modifies buffer
    ensures buffer[..count + |got|] == old(buffer[..count]) + got
  {
    Memcpy(buffer, count, got);
  }

  /** Sends every packet, one after another, and says whether all of them went out whole. */
  method SendPackets(wire: Wire, packets: seq<Pkt>) returns (whole: bool)
    requires AllValid(packets)
    modifies wire
    ensures whole ==> wire.bytes == old(wire.bytes) + Stream(Images(packets))
    ensures whole <==> wire.failures == old(wire.failures)
    ensures old(wire.failures) <= wire.failures <= old(wire.failures) + |packets|
  {
    var k := 0;
    whole := true;
    assert old(wire.bytes) + Stream([]) == wire.bytes;
    while k < |packets|
      invariant 0 <= k <= |packets|
      invariant whole ==> wire.bytes == old(wire.bytes) + Stream(Images(packets)[..k])
      invariant old(wire.failures) <= wire.failures <= old(wire.failures) + k
      invariant whole <==> wire.failures == old(wire.failures)
    {
      var total := TrySend(wire, packets[k]);
      if whole && total == PAYLOAD_MAX {
        StreamTakes(Images(packets), k);
        Associative(old(wire.bytes), Stream(Images(packets)[..k]), Images(packets)[k]);
      }
      whole := whole && total == PAYLOAD_MAX;
      k := k + 1;
    }
    assert Images(packets)[..k] == Images(packets);
  }

  lemma StreamTakes(blocks: seq<Block>, k: nat)
    requires k < |blocks|
    ensures Stream(blocks[..k + 1]) == Stream(blocks[..k]) + blocks[k]
  {
    assert blocks[..k + 1] == blocks[..k] + [blocks[k]];
    StreamSnoc(blocks[..k], blocks[k]);
  }

  /** Receives count packets unless one receive fails; blocks are the images on the wire. */
  method ReceivePackets(wire: Wire, count: nat, ghost blocks: seq<Block>, ghost rest: seq<byte>)
    returns (packets: seq<Pkt>)
    requires count == |blocks| && wire.bytes == Stream(blocks) + rest
    modifies wire
    ensures |packets| <= count && packets == Unpacked(blocks[..|packets|])
    ensures |packets| == count ==> wire.bytes == rest
    ensures wire.failures == old(wire.failures) + if |packets| < count then 1 else 0
  {
    packets := [];
    while |packets| < count
      invariant |packets| <= count && packets == Unpacked(blocks[..|packets|])
      invariant wire.bytes == Stream(blocks[|packets|..]) + rest && wire.failures == old(wire.failures)
    {
      ghost var k := |packets|;
      NextBlock(blocks[k..], rest);
      var r, received := TryReceive(wire);
      if r.None? {
        return;
      }
      assert blocks[..k + 1] == blocks[..k] + [blocks[k]] && blocks[k..][1..] == blocks[k + 1..];
      packets := packets + [r.value];
    }
    assert Stream(blocks[count..]) + rest == rest;
  }

  lemma NextBlock(blocks: seq<Block>, rest: seq<byte>)
    requires blocks != []
    ensures var bytes := Stream(blocks) + rest;
      |bytes| >= PAYLOAD_MAX && bytes[..PAYLOAD_MAX] == blocks[0] && bytes[PAYLOAD_MAX..] == Stream(blocks[1..]) + rest
  {
    Associative(blocks[0], Stream(blocks[1..]), rest);
    assert Stream(blocks) == blocks[0] + Stream(blocks[1..]);
  }

  /**
   * What try_send puts on an empty wire, peer_try_receive takes off: a prefix of the packets, in order, and all
   * of them, leaving the wire empty, exactly when no send and no receive failed.
   */
  method Exchange(wire: Wire, packets: seq<Pkt>) returns (got: seq<Pkt>)
    requires AllValid(packets) && wire.bytes == []
    modifies wire
    ensures |got| <= |packets| && got == packets[..|got|]
    ensures got == packets <==> wire.failures == old(wire.failures)
    ensures got == packets ==> wire.bytes == []
  {
    var whole := SendPackets(wire, packets);
    got := [];
    if whole {
      assert wire.bytes == Stream(Images(packets)) + [];
      got := ReceivePackets(wire, |packets|, Images(packets), []);
      UnpackedImages(packets, |got|);
    }
    assert packets[..|packets|] == packets;
  }

  // Sender and receiver at work at the same time.

  /**
   * Images still to send, the rest of the one being sent, the bytes under way, the receiver's buffer and
   * results, and how many bytes failures have dropped.
   */
  datatype Pipe = Pipe(unsent: seq<Block>, buffer: seq<byte>, wire: seq<byte>, part: seq<byte>,
                       delivered: seq<Block>, dropped: nat)

  /**
   * The sender packs its next packet, a send or a receive moves some number of bytes, a send fails and the
   * rest of its packet is given up, or a receive times out and what it has read is given up.
   */
  datatype Move = Packs | Sends(n: nat) | Receives(n: nat) | SendFails | TimesOut {
    predicate Fails() { SendFails? || TimesOut? }
  }

  predicate Enabled(s: Pipe, m: Move) {
    match m
    case Packs => s.buffer == [] && s.unsent != []
    case Sends(n) => 1 <= n <= |s.buffer|
    case Receives(n) => |s.part| < PAYLOAD_MAX && 1 <= n <= PAYLOAD_MAX - |s.part| && n <= |s.wire|
    case SendFails => s.buffer != []
    case TimesOut => true
  }

  function Next(s: Pipe, m: Move): Pipe
    requires Enabled(s, m)
  {
    match m
    case Packs => s.(unsent := s.unsent[1..], buffer := s.unsent[0])
    case Sends(n) => s.(wire := s.wire + s.buffer[..n], buffer := s.buffer[n..])
    case Receives(n) =>
      var part := s.part + s.wire[..n];
      if |part| == PAYLOAD_MAX then s.(wire := s.wire[n..], part := [], delivered := s.delivered + [part])
      else s.(wire := s.wire[n..], part := part)
    case SendFails => s.(buffer := [], dropped := s.dropped + |s.buffer|)
    case TimesOut => s.(part := [], dropped := s.dropped + |s.part|)
  }

  /** Every byte is accounted for, and while none has been dropped they are all in their order. */
  predicate InOrder(blocks: seq<Block>, s: Pipe) {
    && |s.part| < PAYLOAD_MAX
    && PAYLOAD_MAX * |s.delivered| + |s.part| + s.dropped + |s.wire| + |s.buffer| + PAYLOAD_MAX * |s.unsent|
      == PAYLOAD_MAX * |blocks|
    && (s.dropped == 0 ==>
      Stream(s.delivered) + s.part + (s.wire + (s.buffer + Stream(s.unsent))) == Stream(blocks))
  }

  /**
   * Twice the bytes to send, the bytes under way and the packets to pack: every move that is not a failure lowers
   * it, and no failure raises it.
   */
  function Remaining(s: Pipe): nat { 2 * |s.buffer + Stream(s.unsent)| + |s.wire| + |s.unsent| }

  lemma PackKeepsOrder(blocks: seq<Block>, s: Pipe)
    requires InOrder(blocks, s) && Enabled(s, Packs)
    ensures InOrder(blocks, Next(s, Packs)) && Remaining(Next(s, Packs)) < Remaining(s)
  {
    assert [] + Stream(s.unsent) == s.unsent[0] + Stream(s.unsent[1..]);
    assert s.dropped == 0 ==> s.buffer + Stream(s.unsent) == Next(s, Packs).buffer + Stream(s.unsent[1..]);
  }

  lemma SendKeepsOrder(blocks: seq<Block>, s: Pipe, n: nat)
    requires InOrder(blocks, s) && Enabled(s, Sends(n))
    ensures InOrder(blocks, Next(s, Sends(n))) && Remaining(Next(s, Sends(n))) < Remaining(s)
  {
    var out, rest, later := s.buffer[..n], s.buffer[n..], Stream(s.unsent);
    assert s.buffer == out + rest;
    Associative(out, rest, later);
    Associative(s.wire, out, rest + later);
  }

  lemma ReceiveKeepsOrder(blocks: seq<Block>, s: Pipe, n: nat)
    requires InOrder(blocks, s) && Enabled(s, Receives(n))
    ensures InOrder(blocks, Next(s, Receives(n))) && Remaining(Next(s, Receives(n))) < Remaining(s)
  {
    var got, more, left, head := s.wire[..n], s.wire[n..], s.buffer + Stream(s.unsent), Stream(s.delivered);
    assert s.wire == got + more;
    PartGrows(head, s.part, got, more, left);
    if |s.part + got| == PAYLOAD_MAX {
      StreamSnoc(s.delivered, s.part + got);
      assert head + (s.part + got) == (head + (s.part + got)) + [];
    }
  }

  lemma PartGrows(head: seq<byte>, part: seq<byte>, got: seq<byte>, more: seq<byte>, left: seq<byte>)
    ensures head + part + ((got + more) + left) == head + (part + got) + (more + left)
  {}

  /** While nothing has been dropped, what was delivered is a prefix of what was to be sent. */
  lemma DeliveredIsPrefix(blocks: seq<Block>, s: Pipe)
    requires InOrder(blocks, s) && s.dropped == 0
    ensures |s.delivered| <= |blocks| && s.delivered == blocks[..|s.delivered|]
  {
    var onTheWay := s.wire + (s.buffer + Stream(s.unsent));
    Associative(Stream(s.delivered), s.part, onTheWay);
    StreamPrefix(blocks, s.delivered, s.part + onTheWay);
  }

  lemma MoveKeepsOrder(blocks: seq<Block>, s: Pipe, m: Move)
    requires InOrder(blocks, s) && Enabled(s, m)
    ensures InOrder(blocks, Next(s, m))
    ensures Remaining(Next(s, m)) <= Remaining(s) - if m.Fails() then 0 else 1
  {
    match m
    case Packs => PackKeepsOrder(blocks, s);
    case Sends(n) => SendKeepsOrder(blocks, s, n);
    case Receives(n) => ReceiveKeepsOrder(blocks, s, n);
    case SendFails =>
    case TimesOut =>
      if s.part == [] {
        assert Next(s, m) == s;
      }
  }

  /** Neither side can go on other than by failing. */
  ghost predicate Stuck(s: Pipe) { forall m: Move :: Enabled(s, m) ==> m.Fails() }

  /** When neither side can go on everything has arrived, unless a byte was dropped. */
  lemma StuckMeansDelivered(blocks: seq<Block>, s: Pipe)
    requires InOrder(blocks, s) && Stuck(s)
    ensures s.unsent == [] && s.buffer == [] && s.wire == []
    ensures s.delivered == blocks <==> s.dropped == 0
  {
    assert !Enabled(s, Packs) && !Enabled(s, Sends(1)) && !Enabled(s, Receives(1));
    assert s.buffer == [] && s.unsent == [] && s.wire == [];
    if s.dropped == 0 {
      DeliveredIsPrefix(blocks, s);
      assert |s.part| == PAYLOAD_MAX * (|blocks| - |s.delivered|);
    }
  }

  predicate Schedule(s: Pipe, moves: seq<Move>)
    decreases |moves|
  {
    moves == [] || (Enabled(s, moves[0]) && Schedule(Next(s, moves[0]), moves[1..]))
  }

  function After(s: Pipe, moves: seq<Move>): Pipe
    requires Schedule(s, moves)
    decreases |moves|
  {
    if moves == [] then s else After(Next(s, moves[0]), moves[1..])
  }

  /**
   * What moves there are: the sender can pass on any number of its packet's bytes at once, the receiver can take
   * any number of those, and after that both can fail, which drops what each of them holds.
   */
  lemma AnyCountsHappen(blocks: seq<Block>, sent: nat, taken: nat)
    requires blocks != [] && 1 <= taken <= sent < PAYLOAD_MAX
    ensures var s, moves := Pipe(blocks, [], [], [], [], 0), [Packs, Sends(sent), Receives(taken), SendFails, TimesOut];
      Schedule(s, moves) && After(s, moves) ==
        Pipe(blocks[1..], [], blocks[0][taken..sent], [], [], PAYLOAD_MAX - sent + taken)
  {
    var s0 := Pipe(blocks, [], [], [], [], 0);
    var s1 := Pipe(blocks[1..], blocks[0], [], [], [], 0);
    var s2 := Pipe(blocks[1..], blocks[0][sent..], blocks[0][..sent], [], [], 0);
    var s3 := Pipe(blocks[1..], blocks[0][sent..], blocks[0][taken..sent], blocks[0][..taken], [], 0);
    var s4 := s3.(buffer := [], dropped := PAYLOAD_MAX - sent);
    var s5 := s4.(part := [], dropped := PAYLOAD_MAX - sent + taken);
    assert Next(s0, Packs) == s1 && Next(s1, Sends(sent)) == s2;
    assert blocks[0][..sent][..taken] == blocks[0][..taken] && blocks[0][..sent][taken..] == blocks[0][taken..sent];
    assert Next(s2, Receives(taken)) == s3 && Next(s3, SendFails) == s4 && Next(s4, TimesOut) == s5;
    OneMove(s4, TimesOut, []);
    var r1 := [TimesOut] + [];
    OneMove(s3, SendFails, r1);
    var r2 := [SendFails] + r1;
    OneMove(s2, Receives(taken), r2);
    var r3 := [Receives(taken)] + r2;
    OneMove(s1, Sends(sent), r3);
    var r4 := [Sends(sent)] + r3;
    OneMove(s0, Packs, r4);
    assert [Packs] + r4 == [Packs, Sends(sent), Receives(taken), SendFails, TimesOut];
  }

  lemma OneMove(s: Pipe, m: Move, rest: seq<Move>)
    requires Enabled(s, m) && Schedule(Next(s, m), rest)
    ensures Schedule(s, [m] + rest) && After(s, [m] + rest) == After(Next(s, m), rest)
  {
    assert ([m] + rest)[1..] == rest;
  }

  /** The moves of a schedule that are not failures. */
  function Progress(moves: seq<Move>): nat {
    if moves == [] then 0 else (if moves[0].Fails() then 0 else 1) + Progress(moves[1..])
  }

  /** No send fails, and receives time out between packets only. */
  predicate FailsBetweenPackets(s: Pipe, moves: seq<Move>)
    requires Schedule(s, moves)
    decreases |moves|
  {
    moves == [] ||
    (!moves[0].SendFails? && (moves[0].TimesOut? ==> s.part == [])
     && FailsBetweenPackets(Next(s, moves[0]), moves[1..]))
  }

  lemma {:induction false} ScheduleKeepsOrder(blocks: seq<Block>, s: Pipe, moves: seq<Move>)
    requires InOrder(blocks, s) && Schedule(s, moves)
    ensures InOrder(blocks, After(s, moves)) && Progress(moves) <= Remaining(s)
    decreases |moves|
  {
    if moves != [] {
      MoveKeepsOrder(blocks, s, moves[0]);
      ScheduleKeepsOrder(blocks, Next(s, moves[0]), moves[1..]);
    }
  }

  lemma {:induction false} DropsNothingIff(s: Pipe, moves: seq<Move>)
    requires Schedule(s, moves)
    ensures After(s, moves).dropped >= s.dropped
    ensures After(s, moves).dropped == s.dropped <==> FailsBetweenPackets(s, moves)
    decreases |moves|
  {
    if moves != [] {
      DropsNothingIff(Next(s, moves[0]), moves[1..]);
    }
  }

  lemma UnpackedDecides(packets: seq<Pkt>, blocks: seq<Block>)
    requires AllValid(packets)
    ensures Unpacked(blocks) == packets <==> blocks == Images(packets)
  {
    if blocks == Images(packets) {
      UnpackedImages(packets, |packets|);
      assert Images(packets)[..|packets|] == blocks && packets[..|packets|] == packets;
    }
    if Unpacked(blocks) == packets {
      forall k | 0 <= k < |blocks| ensures blocks[k] == Images(packets)[k] {
        ImageOfParse(blocks[k]);
      }
    }
  }

  /**
   * Framing: whatever the partial counts and however sends and receives interleave, a schedule that drops
   * nothing has at all times delivered a prefix of the packets, every schedule makes only so many moves other
   * than failures, and one that can only fail has delivered exactly the packets, in order, if and only if no
   * send failed and no receive timed out inside a packet.
   */
  lemma Framing(packets: seq<Pkt>, moves: seq<Move>)
    requires AllValid(packets) && Schedule(Pipe(Images(packets), [], [], [], [], 0), moves)
    ensures var s := Pipe(Images(packets), [], [], [], [], 0);
      var r := After(s, moves);
      && Progress(moves) <= (2 * PAYLOAD_MAX + 1) * |packets|
      && (FailsBetweenPackets(s, moves) ==>
        |r.delivered| <= |packets| && Unpacked(r.delivered) == packets[..|r.delivered|])
      && (Stuck(r) ==> (Unpacked(r.delivered) == packets <==> FailsBetweenPackets(s, moves)))
  {
    var blocks := Images(packets);
    var s := Pipe(blocks, [], [], [], [], 0);
    var r := After(s, moves);
    assert Stream([]) + [] + ([] + ([] + Stream(blocks))) == Stream(blocks) == [] + Stream(blocks);
    StreamLength(blocks);
    ScheduleKeepsOrder(blocks, s, moves);
    DropsNothingIff(s, moves);
    UnpackedDecides(packets, r.delivered);
    if r.dropped == 0 {
      DeliveredIsPrefix(blocks, r);
      UnpackedImages(packets, |r.delivered|);
    }
    if Stuck(r) {
      StuckMeansDelivered(blocks, r);
    }
  }
}
