/** Packets and their 4096-byte images; integers travel in the little-endian order of the host. */
module Packet {
  import opened Bytes
  import opened Sha256Spec
  import opened Shape

  const PAYLOAD_MAX: nat := 4096
  const DATA_MAX: nat := 2998
  const IDENT_MAX: nat := 1024
  const HASH_LENGTH: nat := 64

  const PKT_MSG_REQ: nat := 0x06
  const PKT_MSG_RES: nat := 0x07

  /** The bytes of the size field: a request's layout has four, every other packet's two. */
  function SizeWidth(msgCode: nat): nat { if msgCode == PKT_MSG_REQ then 4 else 2 }

  /** The identifier gives up to the size field what that needs beyond two bytes. */
  function IdentLength(msgCode: nat): nat { if msgCode == PKT_MSG_REQ then IDENT_MAX - 2 else IDENT_MAX }

  datatype Pkt = Pkt(msgCode: nat, error: nat, offset: nat, data: seq<byte>, size: nat,
                     hash: seq<byte>, ident: seq<byte>) {
    predicate Valid() {
      && msgCode < 0x1_0000 && error < 0x1_0000 && offset < 0x1_0000_0000
      && size < (if msgCode == PKT_MSG_REQ then 0x1_0000_0000 else 0x1_0000)
      && |data| == DATA_MAX && |hash| == HASH_LENGTH && |ident| == IdentLength(msgCode)
    }
  }

  function LittleEndian(x: nat, n: nat): (s: seq<byte>)
    ensures |s| == n
  {
    if n == 0 then [] else [LowByte(x)] + LittleEndian(x / 256, n - 1)
  }

  function FromLittleEndian(s: seq<byte>): nat {
    if s == [] then 0 else s[0] as nat + 256 * FromLittleEndian(s[1..])
  }

  /** Byte k is the k-th digit to base 256, the lowest one first. */
  lemma {:induction false} LittleEndianAt(x: nat, n: nat, k: nat)
    requires k < n
    ensures LittleEndian(x, n)[k] as int == x / Power256(k) % 256
  {
    if k == 0 {
      ByteOfValue(x % 256);
      assert x / 1 == x;
    } else {
      LittleEndianAt(x / 256, n - 1, k - 1);
      DivideTwice(x, Power256(k - 1));
    }
  }

  lemma DivideTwice(x: nat, p: nat)
    requires p > 0
    ensures 256 * p > 0 && x / 256 / p == x / (256 * p)
  {
    var a, b := x % 256, x / 256;
    var q, d := b / p, b % p;
    assert x == 256 * (p * q + d) + a == (256 * p) * q + (256 * d + a);
    Quotient(x, 256 * p, q, 256 * d + a);
  }

  lemma Quotient(x: nat, m: nat, q: nat, rest: nat)
    requires x == m * q + rest && rest < m
    ensures x / m == q
  {
    var e, f := x / m, x % m;
    assert x == m * e + f;
    assert m * (q - e) == f - rest;
    if q > e {
      Multiple(m, q - e);
    } else if q < e {
      assert m * (e - q) == rest - f;
      Multiple(m, e - q);
    }
  }

  lemma Multiple(m: nat, k: nat)
    requires k >= 1
    ensures m * k >= m
  {}

  lemma {:induction false} LittleEndianRoundTrip(x: nat, n: nat)
    requires x < Power256(n)
    ensures FromLittleEndian(LittleEndian(x, n)) == x
  {
    if n != 0 {
      LittleEndianRoundTrip(x / 256, n - 1);
      ByteOfValue(x % 256);
      assert LittleEndian(x, n)[1..] == LittleEndian(x / 256, n - 1);
    }
  }

  lemma {:induction false} BytesRoundTrip(s: seq<byte>)
    ensures LittleEndian(FromLittleEndian(s), |s|) == s && FromLittleEndian(s) < Power256(|s|)
  {
    if s != [] {
      var rest := FromLittleEndian(s[1..]);
      BytesRoundTrip(s[1..]);
      ByteOfInverse(s[0]);
      LowDigit(s[0] as nat, rest);
    }
  }

  lemma LowDigit(d: nat, rest: nat)
    requires d < 256
    ensures (d + 256 * rest) / 256 == rest && (d + 256 * rest) % 256 == d
  {}

  lemma FieldRanges()
    ensures Power256(2) == 0x1_0000 && Power256(4) == 0x1_0000_0000
  {
    assert Power256(1) == 256 && Power256(2) == 0x1_0000 && Power256(3) == 0x100_0000;
  }

  function Image(p: Pkt): (b: seq<byte>) {
    LittleEndian(p.msgCode, 2) + LittleEndian(p.error, 2) + LittleEndian(p.offset, 4) + p.data
    + LittleEndian(p.size, SizeWidth(p.msgCode)) + p.ident + p.hash
  }

  function Parse(b: seq<byte>): Pkt
    requires |b| == PAYLOAD_MAX
  {
    var msgCode := FromLittleEndian(b[0..2]);
    var w := SizeWidth(msgCode);
    Pkt(msgCode, FromLittleEndian(b[2..4]), FromLittleEndian(b[4..8]), b[8..3006],
        FromLittleEndian(b[3006..3006 + w]), b[4032..4096], b[3006 + w..4032])
  }

  /** Where the fields of an image lie. */
  lemma ImageFields(p: Pkt)
    requires p.Valid()
    ensures var b, w := Image(p), SizeWidth(p.msgCode);
      && |b| == PAYLOAD_MAX
      && b[0..2] == LittleEndian(p.msgCode, 2) && b[2..4] == LittleEndian(p.error, 2)
      && b[4..8] == LittleEndian(p.offset, 4) && b[8..3006] == p.data
      && b[3006..3006 + w] == LittleEndian(p.size, w) && b[3006 + w..4032] == p.ident && b[4032..4096] == p.hash
  {}

  /** The bytes of a field of two, and of one of four. */
  lemma TwoBytes(x: nat)
    requires x < 0x1_0000
    ensures var f := LittleEndian(x, 2); f[0] as int == x % 256 && f[1] as int == x / 256
  {
    TwoDigits(x);
    LittleEndianAt(x, 2, 0);
    LittleEndianAt(x, 2, 1);
  }

  lemma TwoDigits(x: nat)
    requires x < 0x1_0000
    ensures Power256(0) == 1 && Power256(1) == 256 && x / 1 == x && x / 256 % 256 == x / 256
  {}

  lemma FourBytes(x: nat)
    requires x < 0x1_0000_0000
    ensures var f := LittleEndian(x, 4);
      && f[0] as int == x % 256 && f[1] as int == x / 256 % 256
      && f[2] as int == x / 0x1_0000 % 256 && f[3] as int == x / 0x100_0000
  {
    Digits(x);
    LittleEndianAt(x, 4, 0);
    LittleEndianAt(x, 4, 1);
    LittleEndianAt(x, 4, 2);
    LittleEndianAt(x, 4, 3);
  }

  lemma Digits(x: nat)
    requires x < 0x1_0000_0000
    ensures Power256(1) == 256 && Power256(2) == 0x1_0000 && Power256(3) == 0x100_0000
    ensures x / 0x100_0000 % 256 == x / 0x100_0000
  {
    FieldRanges();
  }

  /** The image byte by byte: integers have their low byte first, and only the code 6 has the longer size field. */
  lemma ImageBytes(p: Pkt)
    requires p.Valid()
    ensures var b := Image(p);
      && |b| == 4096
      && b[0] as int == p.msgCode % 256 && b[1] as int == p.msgCode / 256
      && b[2] as int == p.error % 256 && b[3] as int == p.error / 256
      && b[4] as int == p.offset % 256 && b[5] as int == p.offset / 256 % 256
      && b[6] as int == p.offset / 0x1_0000 % 256 && b[7] as int == p.offset / 0x100_0000
      && b[8..3006] == p.data && b[4032..4096] == p.hash
      && b[3006] as int == p.size % 256
      && (p.msgCode == 6 ==>
        && b[3007] as int == p.size / 256 % 256 && b[3008] as int == p.size / 0x1_0000 % 256
        && b[3009] as int == p.size / 0x100_0000 && b[3010..4032] == p.ident)
      && (p.msgCode != 6 ==> b[3007] as int == p.size / 256 && b[3008..4032] == p.ident)
  {
    var b, w := Image(p), SizeWidth(p.msgCode);
    ImageFields(p);
    TwoBytes(p.msgCode);
    TwoBytes(p.error);
    FourBytes(p.offset);
    if w == 4 {
      FourBytes(p.size);
    } else {
      TwoBytes(p.size);
    }
    SliceBytes(b, 0, 2);
    SliceBytes(b, 2, 2);
    SliceBytes(b, 4, 4);
    SliceBytes(b, 3006, w);
  }

  lemma SliceBytes(b: seq<byte>, at: nat, n: nat)
    requires (n == 2 || n == 4) && at + n <= |b|
    ensures var f := b[at..at + n];
      f[0] == b[at] && f[1] == b[at + 1] && (n == 4 ==> f[2] == b[at + 2] && f[3] == b[at + 3])
  {}

  /** Unpacking a packed packet gives the packet back, in both layouts. */
  lemma ParseOfImage(p: Pkt)
    requires p.Valid()
    ensures |Image(p)| == PAYLOAD_MAX && Parse(Image(p)) == p
  {
    ImageFields(p);
    FieldRanges();
    LittleEndianRoundTrip(p.msgCode, 2);
    LittleEndianRoundTrip(p.error, 2);
    LittleEndianRoundTrip(p.offset, 4);
    LittleEndianRoundTrip(p.size, SizeWidth(p.msgCode));
  }

  /** Any 4096 bytes are the image of the packet they unpack to. */
  lemma ImageOfParse(b: seq<byte>)
    requires |b| == PAYLOAD_MAX
    ensures Parse(b).Valid() && Image(Parse(b)) == b
  {
    var p, w := Parse(b), SizeWidth(FromLittleEndian(b[0..2]));
    FieldRanges();
    BytesRoundTrip(b[0..2]);
    BytesRoundTrip(b[2..4]);
    BytesRoundTrip(b[4..8]);
    BytesRoundTrip(b[3006..3006 + w]);
    Rejoined(b, w);
  }

  lemma Rejoined(b: seq<byte>, w: nat)
    requires |b| == PAYLOAD_MAX && w <= 4
    ensures b[0..2] + b[2..4] + b[4..8] + b[8..3006] + b[3006..3006 + w] + b[3006 + w..4032] + b[4032..4096] == b
  {
    assert b[0..2] + b[2..4] + b[4..8] + b[8..3006] == b[..3006];
    assert b[..3006] + b[3006..3006 + w] + b[3006 + w..4032] == b[..4032];
  }

  /** Distinct packets have distinct images. */
  lemma ImageInjective(p: Pkt, q: Pkt)
    requires p.Valid() && q.Valid() && Image(p) == Image(q)
    ensures p == q
  {
    ParseOfImage(p);
    ParseOfImage(q);
  }

  // The packing functions.

  /** One memcpy at the running offset; trace collects the positions written. */
  method Put(buffer: array<byte>, at: nat, field: seq<byte>, ghost trace: seq<nat>)
    returns (next: nat, ghost written: seq<nat>)
    requires at + |field| <= buffer.Length && trace == Range(0, at)
    modifies buffer
    ensures next == at + |field| && written == Range(0, next)
    ensures written == trace + Range(at, next)
    ensures buffer[..next] == old(buffer[..at]) + field
  {
    Memcpy(buffer, at, field);
    next, written := at + |field|, trace + Range(at, at + |field|);
  }

  /** pkt_marshall: every byte of the buffer is written once, in order. */
  method Marshall(p: Pkt, buffer: array<byte>) returns (ghost written: seq<nat>)
    requires p.Valid() && buffer.Length == PAYLOAD_MAX
    modifies buffer
    ensures buffer[..] == Image(p) && written == Range(0, PAYLOAD_MAX)
  {
    var at: nat;
    at, written := Put(buffer, 0, LittleEndian(p.msgCode, 2), []);
    at, written := Put(buffer, at, LittleEndian(p.error, 2), written);
    if p.msgCode == PKT_MSG_REQ {
      written := PutPayload(p, buffer, at, 4, written);
    } else {
      written := PutPayload(p, buffer, at, 2, written);
    }
  }

  /** The payload's five fields, the size in w bytes. */
  method PutPayload(p: Pkt, buffer: array<byte>, from: nat, w: nat, ghost trace: seq<nat>)
    returns (ghost written: seq<nat>)
    requires p.Valid() && buffer.Length == PAYLOAD_MAX && w == SizeWidth(p.msgCode)
    requires from == 4 && trace == Range(0, from)
    modifies buffer
    ensures buffer[..] == old(buffer[..from]) + LittleEndian(p.offset, 4) + p.data + LittleEndian(p.size, w)
      + p.ident + p.hash
    ensures written == Range(0, PAYLOAD_MAX)
  {
    var at: nat;
    at, written := Put(buffer, from, LittleEndian(p.offset, 4), trace);
    at, written := Put(buffer, at, p.data, written);
    at, written := Put(buffer, at, LittleEndian(p.size, w), written);
    at, written := Put(buffer, at, p.ident, written);
    at, written := Put(buffer, at, p.hash, written);
    assert buffer[..] == buffer[..PAYLOAD_MAX];
  }

  method Take(buffer: array<byte>, at: nat, n: nat) returns (field: seq<byte>, next: nat)
    requires at + n <= buffer.Length
    ensures field == buffer[at..at + n] && next == at + n
  {
    field, next := buffer[at..at + n], at + n;
  }

  /** pkt_unmarshall. */
  method Unmarshall(buffer: array<byte>) returns (p: Pkt)
    requires buffer.Length == PAYLOAD_MAX
    ensures p == Parse(buffer[..])
  {
    var msgCode, at := Take(buffer, 0, 2);
    var error, offset, data, size, ident, hash: seq<byte>;
    error, at := Take(buffer, at, 2);
    if FromLittleEndian(msgCode) == PKT_MSG_REQ {
      offset, at := Take(buffer, at, 4);
      data, at := Take(buffer, at, DATA_MAX);
      size, at := Take(buffer, at, 4);
      ident, at := Take(buffer, at, IDENT_MAX - 2);
      hash, at := Take(buffer, at, HASH_LENGTH);
    } else {
      offset, at := Take(buffer, at, 4);
      data, at := Take(buffer, at, DATA_MAX);
      size, at := Take(buffer, at, 2);
      ident, at := Take(buffer, at, IDENT_MAX);
      hash, at := Take(buffer, at, HASH_LENGTH);
    }
    p := Pkt(FromLittleEndian(msgCode), FromLittleEndian(error), FromLittleEndian(offset), data,
             FromLittleEndian(size), hash, ident);
  }

  // The payload constructors.

  /** The characters of a C string before its NUL. */
  function Text(s: seq<byte>): (t: seq<byte>)
    ensures |t| <= |s| && NoNul(t) && t == s[..|t|] && (|t| < |s| ==> s[|t|] == NUL)
  {
    if s == [] || s[0] == NUL then [] else [s[0]] + Text(s[1..])
  }

  /** What strncpy leaves in n zeroed characters. */
  function Field(s: seq<byte>, n: nat): (f: seq<byte>)
    ensures |f| == n
  {
    var t := Text(s);
    if |t| <= n then t + Zeros(n - |t|) else t[..n]
  }

  /** A text that fits is stored so that it can be read back. */
  lemma FieldText(s: seq<byte>, n: nat)
    ensures |Text(s)| <= n ==> Text(Field(s, n)) == Text(s)
    ensures |Text(s)| > n ==> Field(s, n) == s[..n] && Text(Field(s, n)) == s[..n]
  {
    TextStops(Field(s, n), Text(s));
  }

  lemma {:induction false} TextStops(f: seq<byte>, t: seq<byte>)
    requires NoNul(t)
    ensures |f| <= |t| && f == t[..|f|] ==> Text(f) == f
    ensures |t| < |f| && f[..|t|] == t && f[|t|] == NUL ==> Text(f) == t
    ensures f == t ==> Text(f) == t
  {
    if f != [] && t != [] && f[0] == t[0] {
      var f1, t1 := f[1..], t[1..];
      assert t == [t[0]] + t1 && f == [f[0]] + f1;
      TextStops(f1, t1);
      TailsAgree(f, t);
    }
  }

  lemma TailsAgree(f: seq<byte>, t: seq<byte>)
    requires f != [] && t != []
    ensures |f| <= |t| && f == t[..|f|] ==> f[1..] == t[1..][..|f| - 1]
    ensures |t| < |f| && f[..|t|] == t ==> f[1..][..|t| - 1] == t[1..] && f[1..][|t| - 1] == f[|t|]
  {
    assert |f| <= |t| ==> t[..|f|][1..] == t[1..][..|f| - 1];
    assert |t| < |f| ==> f[..|t|][1..] == f[1..][..|t| - 1];
  }

  /** Whatever the text leaves free is zero. */
  lemma FieldPadded(s: seq<byte>, n: nat, k: nat)
    requires k < n
    ensures Field(s, n)[k] == if k < |Text(s)| then s[k] else 0
  {}

  /** strncpy into a zeroed field, character by character. */
  method Strncpy(s: seq<byte>, n: nat) returns (f: array<byte>)
    ensures fresh(f) && f[..] == Field(s, n)
  {
    f := new byte[n](_ => 0);
    var k := 0;
    while k < n && k < |s| && s[k] != NUL
      invariant 0 <= k <= n && k <= |Text(s)|
      invariant forall j | 0 <= j < n :: f[j] == if j < k then s[j] else 0
    {
      f[k] := s[k];
      k := k + 1;
    }
    assert k < n ==> |Text(s)| == k;
  }

  /** Data of at most 2998 bytes, padded with zeros; anything larger is not copied at all. */
  function DataField(data: seq<byte>): (f: seq<byte>)
    ensures |f| == DATA_MAX
  {
    if |data| <= DATA_MAX then data + Zeros(DATA_MAX - |data|) else Zeros(DATA_MAX)
  }

  /** Up to 2998 bytes of data are there, with zeros after them; of more data nothing is. */
  lemma DataFieldIs(data: seq<byte>, k: nat)
    requires k < 2998
    ensures DataField(data)[k] == if k < |data| <= 2998 then data[k] else 0
  {}

  function ResPkt(error: nat, offset: nat, size: nat, hash: seq<byte>, ident: seq<byte>, data: seq<byte>): Pkt {
    Pkt(PKT_MSG_RES, error, offset, DataField(data), size, Field(hash, HASH_LENGTH), Field(ident, IDENT_MAX))
  }

  function ReqPkt(error: nat, offset: nat, size: nat, hash: seq<byte>, ident: seq<byte>, data: seq<byte>): Pkt {
    Pkt(PKT_MSG_REQ, error, offset, DataField(data), size, Field(hash, HASH_LENGTH), Field(ident, IDENT_MAX - 2))
  }

  /** payload_create_res with pkt_create. */
  method CreateRes(error: nat, offset: nat, size: nat, hash: seq<byte>, ident: seq<byte>, data: seq<byte>)
    returns (p: Pkt)
    requires error < 0x1_0000 && offset < 0x1_0000_0000 && size < 0x1_0000 && |data| == size
    ensures p == ResPkt(error, offset, size, hash, ident, data) && p.Valid()
  {
    var h := Strncpy(hash, HASH_LENGTH);
    var i := Strncpy(ident, IDENT_MAX);
    var d := new byte[DATA_MAX](_ => 0);
    if size <= DATA_MAX {
      Memcpy(d, 0, data);
    }
    assert d[..] == DataField(data);
    p := Pkt(PKT_MSG_RES, error, offset, d[..], size, h[..], i[..]);
  }

  /** payload_create_req with pkt_create; the program's own requests carry no data. */
  method CreateReq(error: nat, offset: nat, size: nat, hash: seq<byte>, ident: seq<byte>, data: Option<seq<byte>>)
    returns (p: Pkt)
    requires error < 0x1_0000 && offset < 0x1_0000_0000 && size < 0x1_0000_0000
    requires data.Some? ==> |data.value| == size
    ensures p == ReqPkt(error, offset, size, hash, ident, data.GetOr([])) && p.Valid()
  {
    var h := Strncpy(hash, HASH_LENGTH);
    var i := Strncpy(ident, IDENT_MAX - 2);
    var d := new byte[DATA_MAX](_ => 0);
    if data.Some? && size <= DATA_MAX {
      Memcpy(d, 0, data.value);
    }
    assert d[..] == DataField(data.GetOr([]));
    p := Pkt(PKT_MSG_REQ, error, offset, d[..], size, h[..], i[..]);
  }

  /** Requests go out with the code 6 and responses with 7, and with the error they were given. */
  lemma CodeBytes(error: nat, offset: nat, size: nat, hash: seq<byte>, ident: seq<byte>, data: seq<byte>)
    requires error < 0x1_0000 && offset < 0x1_0000_0000 && size < 0x1_0000
    ensures var q, a := ReqPkt(error, offset, size, hash, ident, data), ResPkt(error, offset, size, hash, ident, data);
      && HasHead(q, 6, error) && HasHead(a, 7, error)
  {
    HeadOf(ReqPkt(error, offset, size, hash, ident, data));
    HeadOf(ResPkt(error, offset, size, hash, ident, data));
  }

  /** The image starts with the code, below 256, and the error, each in two bytes. */
  predicate HasHead(p: Pkt, code: nat, error: nat) {
    var b := Image(p);
    && |b| == 4096 && b[0] as int == code && b[1] == 0
    && b[2] as int == error % 256 && b[3] as int == error / 256
  }

  lemma HeadOf(p: Pkt)
    requires p.Valid() && p.msgCode < 256
    ensures HasHead(p, p.msgCode, p.error)
  {
    ImageBytes(p);
    ZeroByte(Image(p)[1]);
  }

  lemma ZeroByte(b: byte)
    requires b as int == 0
    ensures b == 0
  {}

  /** What the peer asked reads out of a request; of the identifier the first 1022 characters. */
  lemma RequestCarries(error: nat, offset: nat, size: nat, hash: seq<byte>, ident: seq<byte>)
    requires error < 0x1_0000 && offset < 0x1_0000_0000 && size < 0x1_0000_0000 && |Text(hash)| <= HASH_LENGTH
    ensures var p := ReqPkt(error, offset, size, hash, ident, []);
      && p.Valid() && |Image(p)| == PAYLOAD_MAX && Parse(Image(p)) == p
      && p.error == error
      && p.offset == offset && p.size == size && Text(p.hash) == Text(hash)
      && Text(p.ident) == if |Text(ident)| <= IDENT_MAX - 2 then Text(ident) else ident[..IDENT_MAX - 2]
  {
    var p := ReqPkt(error, offset, size, hash, ident, []);
    ParseOfImage(p);
    FieldText(hash, HASH_LENGTH);
    FieldText(ident, IDENT_MAX - 2);
  }

  /** What the receiver reads out of a response: the bytes, where they go, and the texts that name the chunk. */
  lemma ResponseCarries(error: nat, offset: nat, size: nat, hash: seq<byte>, ident: seq<byte>, data: seq<byte>)
    requires error < 0x1_0000 && offset < 0x1_0000_0000 && size == |data| <= DATA_MAX
    requires |Text(hash)| <= HASH_LENGTH && |Text(ident)| <= IDENT_MAX
    ensures var p := ResPkt(error, offset, size, hash, ident, data);
      && p.Valid() && |Image(p)| == PAYLOAD_MAX && Parse(Image(p)) == p
      && p.error == error
      && p.offset == offset && p.size == size && p.data[..size] == data
      && Text(p.hash) == Text(hash) && Text(p.ident) == Text(ident)
  {
    var p := ResPkt(error, offset, size, hash, ident, data);
    ParseOfImage(p);
    FieldText(hash, HASH_LENGTH);
    FieldText(ident, IDENT_MAX);
  }
}
