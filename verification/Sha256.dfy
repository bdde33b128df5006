/** The streaming hash: chaining values, a partial-block buffer and a running byte count, updated in place. */
module Sha256 {
  import opened Bytes
  import opened Sha256Spec

  /** The 16 message words, then the 48 words that each depend on four earlier ones. */
  method MessageSchedule(chunk: seq<byte>) returns (w: array<word>)
    requires |chunk| == 64
    ensures fresh(w) && w.Length == 64
    ensures forall t | 0 <= t < 64 :: w[t] == W(chunk, t)
  {
    w := new word[64];
    var i := 0;
    while i < 16
      invariant 0 <= i <= 16
      invariant forall t | 0 <= t < i :: w[t] == W(chunk, t)
    {
      var p := 4 * i;
      w[i] := ((chunk[p] as word) << 24) | ((chunk[p + 1] as word) << 16)
        | ((chunk[p + 2] as word) << 8) | (chunk[p + 3] as word);
      i := i + 1;
    }
    while i < 64
      invariant 16 <= i <= 64
      invariant forall t | 0 <= t < i :: w[t] == W(chunk, t)
    {
      var s0 := RotR(w[i - 15], 7) ^ RotR(w[i - 15], 18) ^ (w[i - 15] >> 3);
      var s1 := RotR(w[i - 2], 17) ^ RotR(w[i - 2], 19) ^ (w[i - 2] >> 10);
      Reorder(s1, w[i - 7], s0, w[i - 16]);
      w[i] := Sum4(w[i - 16], s0, w[i - 7], s1);
      i := i + 1;
    }
  }

  /** The code adds the four terms in another order than the standard. */
  lemma Reorder(s1: word, w7: word, s0: word, w16: word)
    ensures Sum4(w16, s0, w7, s1) == Sum4(s1, w7, s0, w16)
  {}

  method Temp1(v: seq<word>, k: word, w: word) returns (temp1: word)
    requires |v| == 8
    ensures temp1 == T1(v, k, w)
  {
    var s1 := RotR(v[4], 6) ^ RotR(v[4], 11) ^ RotR(v[4], 25);
    var ch := (v[4] & v[5]) ^ (!v[4] & v[6]);
    assert s1 == BigSigma1(v[4]);
    assert ch == Ch(v[4], v[5], v[6]);
    temp1 := Sum5(v[7], s1, ch, k, w);
  }

  method Temp2(v: seq<word>) returns (temp2: word)
    requires |v| == 8
    ensures temp2 == T2(v)
  {
    var s0 := RotR(v[0], 2) ^ RotR(v[0], 13) ^ RotR(v[0], 22);
    assert s0 == BigSigma0(v[0]);
    var maj := Majority(v[0], v[1], v[2]);
    temp2 := Sum2(s0, maj);
  }

  method Majority(a: word, b: word, c: word) returns (maj: word)
    ensures maj == Maj(a, b, c)
  {
    maj := (a & b) ^ (a & c) ^ (b & c);
  }

  /** The eight working variables move down by one place, with new values in places 4 and 0. */
  method MoveDown<T>(tv: array<T>, x4: T, x0: T)
    requires tv.Length == 8
    modifies tv
    ensures tv[..] == old([x0, tv[0], tv[1], tv[2], x4, tv[4], tv[5], tv[6]])
  {
    tv[7] := tv[6];
    tv[6] := tv[5];
    tv[5] := tv[4];
    tv[4] := x4;
    tv[3] := tv[2];
    tv[2] := tv[1];
    tv[1] := tv[0];
    tv[0] := x0;
  }

  /** One round. */
  method Rotate(tv: array<word>, k: word, w: word)
    requires tv.Length == 8
    modifies tv
    ensures tv[..] == Step(old(tv[..]), k, w)
  {
    var temp1 := Temp1(tv[..], k, w);
    var temp2 := Temp2(tv[..]);
    MoveDown(tv, Sum2(tv[3], temp1), Sum2(temp1, temp2));
  }

  /** The 64 rounds over the rotating array of eight working variables. */
  method RunRounds(tv: array<word>, w: array<word>, ghost chunk: seq<byte>)
    requires |chunk| == 64 && tv.Length == 8 && w.Length == 64 && tv != w
    requires forall t | 0 <= t < 64 :: w[t] == W(chunk, t)
    modifies tv
    ensures tv[..] == Rounds(chunk, old(tv[..]), 64)
  {
    var i := 0;
    while i < 64
      invariant 0 <= i <= 64
      invariant tv[..] == Rounds(chunk, old(tv[..]), i)
    {
      Rotate(tv, K(i), w[i]);
      i := i + 1;
    }
  }

  lemma AddWordsUnique(h: seq<word>, v: seq<word>, r: seq<word>)
    requires |h| == 8 && |v| == 8 && |r| == 8
    requires forall k | 0 <= k < 8 :: r[k] == Sum2(h[k], v[k])
    ensures r == AddWords(h, v)
  {}

  method AddInPlace(h: array<word>, v: array<word>)
    requires h != v && h.Length == 8 && v.Length == 8
    modifies h
    ensures h[..] == AddWords(old(h[..]), v[..])
  {
    ghost var h0 := h[..];
    var i := 0;
    while i < 8
      invariant 0 <= i <= 8
      invariant forall k | 0 <= k < i :: h[k] == Sum2(h0[k], v[k])
      invariant forall k | i <= k < 8 :: h[k] == h0[k]
    {
      h[i] := Sum2(h[i], v[i]);
      i := i + 1;
    }
    AddWordsUnique(h0, v[..], h[..]);
  }

  lemma ZeroCountOf(done: nat, t: nat)
    requires done % 64 == 0 && t < 64
    ensures ZeroCount(done + t) == if t <= 55 then 55 - t else 119 - t
  {
    var q := done / 64;
    assert 55 - (done + t) == 64 * (-q) + (55 - t) == 64 * (-q - 1) + (119 - t);
  }

  lemma BlocksAppend(head: seq<byte>, block: seq<byte>)
    requires |head| % 64 == 0 && |block| == 64
    ensures Blocks(head + block) == Compress(Blocks(head), block)
  {
    var p := head + block;
    assert p[..|head|] == head && p[|head|..] == block;
  }

  /** Padding after the whole blocks of head when the length still fits the same block. */
  lemma PadOneBlock(head: seq<byte>, tail: seq<byte>)
    requires |head| % 64 == 0 && |tail| <= 55
    ensures Pad(head + tail) == head + (tail + [0x80] + Zeros(55 - |tail|)) + LengthField(|head + tail|)
  {
    ZeroCountOf(|head|, |tail|);
    PadText(head, tail, Zeros(55 - |tail|), [], LengthField(|head + tail|));
  }

  /** The same when it does not, and the marker ends in a block of its own. */
  lemma PadTwoBlocks(head: seq<byte>, tail: seq<byte>)
    requires |head| % 64 == 0 && 55 < |tail| < 64
    ensures Pad(head + tail) ==
      head + (tail + [0x80] + Zeros(63 - |tail|)) + Zeros(56) + LengthField(|head + tail|)
  {
    ZeroCountOf(|head|, |tail|);
    PadText(head, tail, Zeros(63 - |tail|), Zeros(56), LengthField(|head + tail|));
  }

  lemma PadText(head: seq<byte>, tail: seq<byte>, z: seq<byte>, y: seq<byte>, field: seq<byte>)
    requires z + y == Zeros(|z| + |y|)
    ensures head + tail + ([0x80] + Zeros(|z| + |y|) + field) == head + (tail + [0x80] + z) + y + field
    ensures y == [] ==> head + (tail + [0x80] + z) + y + field == head + (tail + [0x80] + z) + field
  {}

  lemma SplitText(head: seq<byte>, bytes: seq<byte>, p: nat)
    requires p <= |bytes|
    ensures head + bytes[..p] + bytes[p..] == head + bytes
  {}

  lemma SplitAt56(head: seq<byte>, buffer: seq<byte>, field: seq<byte>)
    requires |buffer| == 64 && buffer == buffer[..56] + field
    ensures head + buffer == head + buffer[..56] + field
  {}

  lemma SizeModulus(a: nat, b: nat)
    ensures (a % TWO64 + b) % TWO64 == (a + b) % TWO64
  {
    assert a + b == a % TWO64 + b + TWO64 * (a / TWO64);
  }

  lemma MoveBlock(head: seq<byte>, bytes: seq<byte>, p: nat)
    requires p + 64 <= |bytes|
    ensures head + [] + bytes[p..] == (head + bytes[p..p + 64]) + [] + bytes[p + 64..]
  {}

  lemma TailJoins(buffer: seq<byte>, n: nat, t: seq<byte>)
    requires n + |t| <= |buffer|
    ensures Overlay(buffer, n, t)[..n + |t|] == buffer[..n] + t
  {}

  /** The buffer once the byte 0x80 and zeros to the end follow the pending bytes. */
  lemma MarkerBlock(pending: seq<byte>, buffer: seq<byte>)
    requires |pending| < 64 && |buffer| == 64 && buffer[..|pending| + 1] == pending + [0x80]
    ensures var n := |pending| + 1;
      && Overlay(buffer, n, Zeros(64 - n)) == pending + [0x80] + Zeros(63 - |pending|)
      && (n <= 56 ==> Overlay(buffer, n, Zeros(64 - n))[..56] == pending + [0x80] + Zeros(55 - |pending|))
  {}

  lemma LengthModulus(n: nat)
    ensures BigEndian((8 * (n % TWO64)) % TWO64, 8) == LengthField(n)
  {
    EightTimes(n);
  }

  lemma EightTimes(n: nat)
    ensures (8 * (n % TWO64)) % TWO64 == (8 * n) % TWO64
  {
    assert 8 * n == 8 * (n % TWO64) + TWO64 * (8 * (n / TWO64));
  }

  class ComputeData {
    var dataSize: nat             // uint64_t
    const hcomps: array<word>
    const lastChunk: array<byte>
    var chunkSize: nat            // uint8_t
    ghost var consumed: seq<byte> // the whole blocks compressed so far
    ghost var pending: seq<byte>  // the bytes waiting in the buffer

    /** Every byte given to Update so far. */
    ghost function Absorbed(): seq<byte>
      reads this
    {
      consumed + pending
    }

    ghost predicate Streaming()
      reads this, hcomps, lastChunk
    {
      && hcomps.Length == 8 && lastChunk.Length == 64
      && chunkSize == |pending| < 64
      && |consumed| % 64 == 0
      && hcomps[..] == Blocks(consumed)
      && lastChunk[..chunkSize] == pending
    }

    ghost predicate Valid()
      reads this, hcomps, lastChunk
    {
      Streaming() && dataSize == |Absorbed()| % TWO64
    }

    constructor Init()
      ensures Valid() && Absorbed() == []
      ensures fresh(hcomps) && fresh(lastChunk)
    {
      hcomps := new word[8];
      lastChunk := new byte[64];
      dataSize, chunkSize := 0, 0;
      consumed, pending := [], [];
      new;
      hcomps[0], hcomps[1], hcomps[2], hcomps[3] := 0x6a09e667, 0xbb67ae85, 0x3c6ef372, 0xa54ff53a;
      hcomps[4], hcomps[5], hcomps[6], hcomps[7] := 0x510e527f, 0x9b05688c, 0x1f83d9ab, 0x5be0cd19;
      assert hcomps[..] == H0;
    }

    /** One block, in place: section 6.2.2 of FIPS 180-4. */
    method CalculateChunk(chunk: seq<byte>)
      requires hcomps.Length == 8 && |chunk| == 64
      modifies hcomps
      ensures hcomps[..] == Compress(old(hcomps[..]), chunk)
    {
      var w := MessageSchedule(chunk);
      var tv := CopyOf(hcomps);
      RunRounds(tv, w, chunk);
      AddInPlace(hcomps, tv);
    }

    /** Compresses one block that follows the consumed ones. */
    method Consume(block: seq<byte>)
      requires hcomps.Length == 8 && |consumed| % 64 == 0 && |block| == 64
      requires hcomps[..] == Blocks(consumed)
      modifies hcomps, this`consumed
      ensures consumed == old(consumed) + block
      ensures |consumed| % 64 == 0 && hcomps[..] == Blocks(consumed)
    {
      BlocksAppend(consumed, block);
      CalculateChunk(block);
      consumed := consumed + block;
    }

    method Update(bytes: seq<byte>)
      requires Valid() && |bytes| + chunkSize < 0x1_0000_0000
      modifies this, hcomps, lastChunk
      ensures Valid() && Absorbed() == old(Absorbed()) + bytes
    {
      var ptr, size := 0, |bytes|;
      SizeModulus(|Absorbed()|, size);
      dataSize := (dataSize + size) % TWO64;
      ghost var before := Absorbed();
      if size + chunkSize >= 64 {
        ptr := 64 - chunkSize;
        size := size - ptr;
        CompleteBlock(bytes[..ptr]);
      }
      SplitText(before, bytes, ptr);
      ptr, size := WholeBlocks(bytes, ptr, size);
      KeepTail(bytes[ptr..], size);
    }

    /** Compresses the buffered bytes followed by the new ones, which fill the block. */
    method CompleteBlock(bytes: seq<byte>)
      requires Streaming() && |bytes| + chunkSize == 64
      modifies this`chunkSize, this`consumed, this`pending, hcomps
      ensures Streaming() && chunkSize == 0 && Absorbed() == old(Absorbed()) + bytes
    {
      var tmp := lastChunk[..chunkSize] + bytes;
      assert consumed + pending + bytes == consumed + tmp + [];
      chunkSize := 0;
      pending := [];
      Consume(tmp);
    }

    method WholeBlocks(bytes: seq<byte>, from: nat, count: nat) returns (ptr: nat, size: nat)
      requires Streaming() && from + count == |bytes|
      requires chunkSize > 0 ==> count + chunkSize < 64
      modifies this`consumed, hcomps
      ensures Streaming() && chunkSize == old(chunkSize) && chunkSize + size < 64
      ensures ptr + size == |bytes| && Absorbed() + bytes[ptr..] == old(Absorbed()) + bytes[from..]
    {
      ptr, size := from, count;
      ghost var all := Absorbed() + bytes[from..];
      while size >= 64
        invariant ptr + size == |bytes| && Streaming()
        invariant chunkSize == old(chunkSize) && pending == old(pending)
        invariant chunkSize > 0 ==> size + chunkSize < 64
        invariant Absorbed() + bytes[ptr..] == all
      {
        MoveBlock(consumed, bytes, ptr);
        Consume(bytes[ptr..ptr + 64]);
        ptr := ptr + 64;
        size := size - 64;
      }
    }

    method KeepTail(bytes: seq<byte>, size: nat)
      requires Streaming() && size == |bytes| && chunkSize + size < 64
      modifies this`chunkSize, this`pending, lastChunk
      ensures Streaming() && consumed == old(consumed) && Absorbed() == old(Absorbed()) + bytes
    {
      TailJoins(lastChunk[..], chunkSize, bytes);
      Memcpy(lastChunk, chunkSize, bytes);
      chunkSize := chunkSize + size;
      assert consumed + (pending + bytes) == consumed + pending + bytes;
      pending := pending + bytes;
    }

    method Finalize()
      requires Valid()
      modifies this, hcomps, lastChunk
      ensures hcomps.Length == 8
      ensures |Pad(old(Absorbed()))| % 64 == 0 && hcomps[..] == Blocks(Pad(old(Absorbed())))
    {
      LengthModulus(|Absorbed()|);
      ghost var m := Absorbed();
      PadBuffer();
      PutLength((8 * dataSize) % TWO64);
      SplitAt56(consumed, lastChunk[..], LengthField(|m|));
      Consume(lastChunk[..]);
    }

    /** The marker and the zeros: one more block, or two when fewer than eight bytes are left after the marker. */
    method PadBuffer()
      requires Streaming()
      modifies this`chunkSize, this`consumed, hcomps, lastChunk
      ensures |consumed| % 64 == 0 && hcomps[..] == Blocks(consumed)
      ensures consumed + lastChunk[..56] + LengthField(|old(Absorbed())|) == Pad(old(Absorbed()))
    {
      MarkEnd();
      if chunkSize > 56 {
        PadTwoBlocks(consumed, pending);
        Consume(lastChunk[..]);
        ClearBuffer();
      } else {
        PadOneBlock(consumed, pending);
      }
    }

    method MarkEnd()
      requires Streaming()
      modifies this`chunkSize, lastChunk
      ensures chunkSize == |pending| + 1 && lastChunk[..] == pending + [0x80] + Zeros(63 - |pending|)
      ensures chunkSize <= 56 ==> lastChunk[..56] == pending + [0x80] + Zeros(55 - |pending|)
    {
      lastChunk[chunkSize] := 0x80;
      chunkSize := chunkSize + 1;
      assert lastChunk[..chunkSize] == pending + [0x80];
      MarkerBlock(pending, lastChunk[..]);
      Memcpy(lastChunk, chunkSize, Zeros(64 - chunkSize));
    }

    method ClearBuffer()
      requires lastChunk.Length == 64
      modifies lastChunk
      ensures lastChunk[..56] == Zeros(56)
    {
      Memcpy(lastChunk, 0, Zeros(64));
    }

    /** The big-endian length, written from the last byte down. */
    method PutLength(bits: nat)
      requires lastChunk.Length == 64
      modifies lastChunk
      ensures lastChunk[..] == old(lastChunk[..56]) + BigEndian(bits, 8)
    {
      var size := bits;
      var i := 8;
      assert BigEndian(size, 8) + lastChunk[64..] == BigEndian(size, 8);
      while i > 0
        invariant 0 <= i <= 8
        invariant forall k | 0 <= k < 56 :: lastChunk[k] == old(lastChunk[k])
        invariant BigEndian(size, i) + lastChunk[56 + i..] == BigEndian(bits, 8)
      {
        ghost var rest := lastChunk[56 + i..];
        lastChunk[55 + i] := LowByte(size);
        assert lastChunk[55 + i..] == [LowByte(size)] + rest;
        size := size / 256;
        i := i - 1;
      }
    }

    /** The digest bytes, four per chaining word. */
    method Output() returns (hash: array<byte>)
      requires hcomps.Length == 8
      ensures fresh(hash) && hash[..] == Sha256Spec.Output(hcomps[..])
    {
      hash := new byte[32];
      var i := 0;
      while i < 8
        invariant 0 <= i <= 8
        invariant hash[..4 * i] == Sha256Spec.Output(hcomps[..i])
      {
        PutWord(hash, 4 * i, hcomps[i]);
        OutputSnoc(hcomps[..], i);
        i := i + 1;
      }
      assert hash[..] == hash[..32] && hcomps[..] == hcomps[..8];
    }

    method OutputHex() returns (hexbuf: Hash)
      requires hcomps.Length == 8
      ensures hexbuf == Hex(Sha256Spec.Output(hcomps[..]))
    {
      var hash := Output();
      hexbuf := BinToHex(hash[..]);
    }
  }

  method PutWord(hash: array<byte>, at: nat, w: word)
    requires at + 4 <= hash.Length
    modifies hash
    ensures hash[..at + 4] == old(hash[..at]) + WordBytes(w)
  {
    hash[at] := ((w >> 24) & 255) as bv8;
    hash[at + 1] := ((w >> 16) & 255) as bv8;
    hash[at + 2] := ((w >> 8) & 255) as bv8;
    hash[at + 3] := (w & 255) as bv8;
  }

  lemma OutputSnoc(h: seq<word>, i: nat)
    requires i < |h|
    ensures Sha256Spec.Output(h[..i + 1]) == Sha256Spec.Output(h[..i]) + WordBytes(h[i])
  {
    assert h[..i + 1][..i] == h[..i];
  }

  lemma HexPrefix(s: seq<byte>, i: nat)
    requires i < |s|
    ensures Hex(s[..i + 1]) == Hex(s[..i]) + HexPair(s[i])
  {
    assert s[..i + 1][..i] == s[..i];
  }

  /** bin_to_hex: two characters of "0123456789abcdef" for each byte. */
  method BinToHex(data: seq<byte>) returns (out: seq<byte>)
    ensures out == Hex(data)
  {
    var buf := new byte[2 * |data|];
    var i := 0;
    while i < |data|
      invariant 0 <= i <= |data|
      invariant buf[..2 * i] == Hex(data[..i])
    {
      ghost var before := buf[..2 * i];
      var c := data[i];
      buf[2 * i] := HexChar(c >> 4);
      buf[2 * i + 1] := HexChar(c & 15);
      HexPrefix(data, i);
      assert buf[..2 * i + 2] == before + HexPair(c);
      i := i + 1;
    }
    assert data[..i] == data && buf[..] == buf[..2 * i];
    out := buf[..];
  }

  function Flatten(pieces: seq<seq<byte>>): seq<byte> {
    if pieces == [] then [] else Flatten(pieces[..|pieces| - 1]) + pieces[|pieces| - 1]
  }

  lemma BufferedCount(a: nat, b: nat)
    requires a % 64 == 0 && b < 64
    ensures (a + b) % 64 == b
  {}

  /**
   * Any way of cutting a message into Update calls gives the one-shot digest of the whole, as long as
   * no call's 32-bit sum of new and buffered bytes wraps.
   */
  method HashPieces(pieces: seq<seq<byte>>) returns (hexbuf: Hash)
    requires forall k | 0 <= k < |pieces| :: |pieces[k]| + |Flatten(pieces[..k])| % 64 < 0x1_0000_0000
    ensures hexbuf == HexDigest(Flatten(pieces))
  {
    var cdata := new ComputeData.Init();
    var i := 0;
    while i < |pieces|
      invariant 0 <= i <= |pieces|
      invariant fresh(cdata) && fresh(cdata.hcomps) && fresh(cdata.lastChunk)
      invariant cdata.Valid() && cdata.Absorbed() == Flatten(pieces[..i])
    {
      BufferedCount(|cdata.consumed|, |cdata.pending|);
      cdata.Update(pieces[i]);
      assert pieces[..i + 1][..i] == pieces[..i];
      i := i + 1;
    }
    assert pieces[..i] == pieces;
    cdata.Finalize();
    hexbuf := cdata.OutputHex();
    HexDigestIs(Flatten(pieces));
  }

  /** sha256_compute_chunk_hash: one update over the chunk's bytes. */
  method ComputeChunkHash(data: seq<byte>) returns (hexbuf: Hash)
    requires |data| < 0x1_0000_0000
    ensures hexbuf == HexDigest(data)
  {
    var cdata := new ComputeData.Init();
    assert [] + data == data;
    cdata.Update(data);
    cdata.Finalize();
    hexbuf := cdata.OutputHex();
    HexDigestIs(data);
  }

  /** sha256_compute_internal_hash: one update for each child's 64 characters. */
  method ComputeInternalHash(left: Hash, right: Hash) returns (hexbuf: Hash)
    ensures hexbuf == HexDigest(left + right)
  {
    var cdata := new ComputeData.Init();
    assert [] + left + right == left + right;
    cdata.Update(left);
    cdata.Update(right);
    cdata.Finalize();
    hexbuf := cdata.OutputHex();
    HexDigestIs(left + right);
  }
}
