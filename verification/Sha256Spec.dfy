/** SHA-256 on byte strings as FIPS 180-4 defines it; section numbers are those of the standard. */
module Sha256Spec {
  import opened Bytes

  type word = bv32

  // Section 3.2 and section 4.1.2: sums modulo 2^32 and the logical functions.
  function Sum2(x: word, y: word): word { x + y }
  function Sum4(x: word, y: word, z: word, u: word): word { x + y + z + u }
  function Sum5(x: word, y: word, z: word, u: word, v: word): word { x + y + z + u + v }
  function RotR(x: word, n: word): word requires n <= 32 { (x >> n) | (x << (32 - n)) }
  function Ch(x: word, y: word, z: word): word { (x & y) ^ (!x & z) }
  function Maj(x: word, y: word, z: word): word { (x & y) ^ (x & z) ^ (y & z) }
  function BigSigma0(x: word): word { RotR(x, 2) ^ RotR(x, 13) ^ RotR(x, 22) }
  function BigSigma1(x: word): word { RotR(x, 6) ^ RotR(x, 11) ^ RotR(x, 25) }
  function SmallSigma0(x: word): word { RotR(x, 7) ^ RotR(x, 18) ^ (x >> 3) }
  function SmallSigma1(x: word): word { RotR(x, 17) ^ RotR(x, 19) ^ (x >> 10) }

  // Section 4.2.2: the constants, in rows of eight.
  function K(t: nat): word
    requires t < 64
  {
    KRow(t / 8)[t % 8]
  }

  function KRow(r: nat): (k: seq<word>)
    requires r < 8
    ensures |k| == 8
  {
    match r
    case 0 => [0x428a2f98, 0x71374491, 0xb5c0fbcf, 0xe9b5dba5,
               0x3956c25b, 0x59f111f1, 0x923f82a4, 0xab1c5ed5]
    case 1 => [0xd807aa98, 0x12835b01, 0x243185be, 0x550c7dc3,
               0x72be5d74, 0x80deb1fe, 0x9bdc06a7, 0xc19bf174]
    case 2 => [0xe49b69c1, 0xefbe4786, 0x0fc19dc6, 0x240ca1cc,
               0x2de92c6f, 0x4a7484aa, 0x5cb0a9dc, 0x76f988da]
    case 3 => [0x983e5152, 0xa831c66d, 0xb00327c8, 0xbf597fc7,
               0xc6e00bf3, 0xd5a79147, 0x06ca6351, 0x14292967]
    case 4 => [0x27b70a85, 0x2e1b2138, 0x4d2c6dfc, 0x53380d13,
               0x650a7354, 0x766a0abb, 0x81c2c92e, 0x92722c85]
    case 5 => [0xa2bfe8a1, 0xa81a664b, 0xc24b8b70, 0xc76c51a3,
               0xd192e819, 0xd6990624, 0xf40e3585, 0x106aa070]
    case 6 => [0x19a4c116, 0x1e376c08, 0x2748774c, 0x34b0bcb5,
               0x391c0cb3, 0x4ed8aa4a, 0x5b9cca4f, 0x682e6ff3]
    case _ => [0x748f82ee, 0x78a5636f, 0x84c87814, 0x8cc70208,
               0x90befffa, 0xa4506ceb, 0xbef9a3f7, 0xc67178f2]
  }

  // Section 5.3.3: the initial hash value.
  const H0: seq<word> := [0x6a09e667, 0xbb67ae85, 0x3c6ef372, 0xa54ff53a,
                          0x510e527f, 0x9b05688c, 0x1f83d9ab, 0x5be0cd19]

  // Section 5.1.1: padding.

  function Zeros(n: nat): (z: seq<byte>)
    ensures |z| == n && forall k | 0 <= k < n :: z[k] == 0
  {
    seq(n, _ => 0)
  }

  /** The n low bytes of x, most significant first. */
  function BigEndian(x: nat, n: nat): (s: seq<byte>)
    ensures |s| == n
  {
    if n == 0 then [] else BigEndian(x / 256, n - 1) + [LowByte(x)]
  }

  function FromBigEndian(s: seq<byte>): nat {
    if s == [] then 0 else 256 * FromBigEndian(s[..|s| - 1]) + s[|s| - 1] as nat
  }

  function ZeroCount(len: nat): nat { (55 - len) % 64 }

  const LENGTH_BYTES: nat := 8

  const TWO64: nat := 0x1_0000_0000_0000_0000

  /** The 64-bit field for the bit length; the standard only defines messages below 2^64 bits. */
  function LengthField(len: nat): (s: seq<byte>)
    ensures |s| == 8
  {
    BigEndian((8 * len) % TWO64, LENGTH_BYTES)
  }

  function Padding(len: nat): seq<byte> { [0x80] + Zeros(ZeroCount(len)) + LengthField(len) }

  function Pad(m: seq<byte>): seq<byte> { m + Padding(|m|) }

  // Section 5.2.1 and section 6.2.2: parsing, schedule, compression.

  function BlockWord(block: seq<byte>, t: nat): word
    requires |block| == 64 && t < 16
  {
    ((block[4 * t] as word) << 24) | ((block[4 * t + 1] as word) << 16)
    | ((block[4 * t + 2] as word) << 8) | (block[4 * t + 3] as word)
  }

  function NextWord(w2: word, w7: word, w15: word, w16: word): word {
    Sum4(SmallSigma1(w2), w7, SmallSigma0(w15), w16)
  }

  function W(block: seq<byte>, t: nat): word
    requires |block| == 64
    decreases |block|, t
  {
    if t < 16 then BlockWord(block, t)
    else NextWord(W(block, t - 2), W(block, t - 7), W(block, t - 15), W(block, t - 16))
  }

  function T1(v: seq<word>, kt: word, wt: word): word
    requires |v| == 8
  {
    Sum5(v[7], BigSigma1(v[4]), Ch(v[4], v[5], v[6]), kt, wt)
  }

  function T2(v: seq<word>): word
    requires |v| == 8
  {
    Sum2(BigSigma0(v[0]), Maj(v[0], v[1], v[2]))
  }

  function Step(v: seq<word>, kt: word, wt: word): (r: seq<word>)
    requires |v| == 8
    ensures |r| == 8
  {
    var t1 := T1(v, kt, wt);
    [Sum2(t1, T2(v)), v[0], v[1], v[2], Sum2(v[3], t1), v[4], v[5], v[6]]
  }

  /** Step 3 for t rounds from v, which holds a, b, c, d, e, f, g, h in this order. */
  function Rounds(block: seq<byte>, v: seq<word>, t: nat): (r: seq<word>)
    requires |block| == 64 && |v| == 8 && t <= 64
    ensures |r| == 8
    decreases |block|, t, 0
  {
    if t == 0 then v else Round(block, v, t)
  }

  function Round(block: seq<byte>, v: seq<word>, t: nat): (r: seq<word>)
    requires |block| == 64 && |v| == 8 && 0 < t <= 64
    ensures |r| == 8
    decreases |block|, t - 1, 1
  {
    Step(Rounds(block, v, t - 1), K(t - 1), W(block, t - 1))
  }

  function AddWords(h: seq<word>, v: seq<word>): (r: seq<word>)
    requires |h| == 8 && |v| == 8
    ensures |r| == 8
  {
    [Sum2(h[0], v[0]), Sum2(h[1], v[1]), Sum2(h[2], v[2]), Sum2(h[3], v[3]),
     Sum2(h[4], v[4]), Sum2(h[5], v[5]), Sum2(h[6], v[6]), Sum2(h[7], v[7])]
  }

  /** Steps 2 to 4: one round for each of the 64 schedule words, then the sum with the old value. */
  function Compress(h: seq<word>, block: seq<byte>): (r: seq<word>)
    requires |h| == 8 && |block| == 64
    ensures |r| == 8
  {
    AddWords(h, Rounds(block, h, 64))
  }

  /** Section 6.2: the chaining value after all blocks of m. */
  function Blocks(m: seq<byte>): (h: seq<word>)
    requires |m| % 64 == 0
    ensures |h| == 8
  {
    if m == [] then H0 else Compress(Blocks(m[..|m| - 64]), m[|m| - 64..])
  }

  function WordBytes(w: word): (s: seq<byte>)
    ensures |s| == 4
  {
    [((w >> 24) & 255) as bv8, ((w >> 16) & 255) as bv8, ((w >> 8) & 255) as bv8, (w & 255) as bv8]
  }

  function Output(h: seq<word>): (s: seq<byte>)
    ensures |s| == 4 * |h|
  {
    if h == [] then [] else Output(h[..|h| - 1]) + WordBytes(h[|h| - 1])
  }

  // Hexadecimal text.

  function HexChar(x: bv8): bv8
    requires x < 16
  {
    if x < 10 then x + 48 else x + 87
  }

  function HexPair(c: byte): (t: seq<byte>)
    ensures |t| == 2
  {
    [HexChar(c >> 4), HexChar(c & 15)]
  }

  function Hex(s: seq<byte>): (t: seq<byte>)
    ensures |t| == 2 * |s|
  {
    if s == [] then [] else Hex(s[..|s| - 1]) + HexPair(s[|s| - 1])
  }

  type Hash = h: seq<byte> | |h| == 64 witness Zeros(64)

  lemma PadWholeBlocks(m: seq<byte>)
    ensures |Pad(m)| % 64 == 0
    ensures |Pad(m)| == |m| + 9 + ZeroCount(|m|)
  {
    WholeBlocks(|m|);
  }

  lemma WholeBlocks(len: nat)
    ensures (len + 9 + ZeroCount(len)) % 64 == 0
  {
    var q := (55 - len) / 64;
    assert len + 9 + ZeroCount(len) == 64 * (1 - q);
  }

  /**
   * The digest of m in stages: the padded message, the digest bytes, their text, and the 64 characters
   * of that text. Written as one recursion so that a mention of HexDigest does not unfold all of it.
   */
  function Stage(m: seq<byte>, k: nat): (s: seq<byte>)
    requires k <= 3
    ensures k == 0 ==> |s| % 64 == 0
    ensures k == 1 ==> |s| == 32
    ensures k >= 2 ==> |s| == 64
    decreases |m|, k
  {
    PadWholeBlocks(m);
    if k == 0 then Pad(m)
    else if k == 1 then Output(Blocks(Stage(m, 0)))
    else if k == 2 then Hex(Stage(m, 1))
    else Stage(m, 2)[..64]
  }

  /** The message digest as the 64 characters every node of the tree stores. */
  function HexDigest(m: seq<byte>): (h: Hash) { Stage(m, 3) }

  lemma HexDigestIs(m: seq<byte>)
    ensures |Pad(m)| % 64 == 0
    ensures HexDigest(m) == Hex(Output(Blocks(Pad(m))))
  {
    var s0, s1, s2 := Stage(m, 0), Stage(m, 1), Stage(m, 2);
    assert s1 == Output(Blocks(s0)) && s2 == Hex(s1);
  }

  // What the pieces mean.

  lemma {:induction false} BigEndianRoundTrip(x: nat, n: nat)
    requires x < Power256(n)
    ensures FromBigEndian(BigEndian(x, n)) == x
  {
    if n != 0 {
      BigEndianRoundTrip(x / 256, n - 1);
      ByteOfValue(x % 256);
      assert BigEndian(x, n)[..n - 1] == BigEndian(x / 256, n - 1);
    }
  }

  lemma LengthFits(x: nat)
    requires x < TWO64
    ensures x < Power256(LENGTH_BYTES)
  {}

  function Power256(n: nat): (p: nat)
    ensures p >= 1
  {
    if n == 0 then 1 else 256 * Power256(n - 1)
  }

  /**
   * Section 5.1.1: below 2^64 bits the padded message is the message, a one bit, the least number of
   * zero bits that leaves room for the length in the last block, and the bit length itself.
   */
  lemma PadMeaning(m: seq<byte>)
    requires |m| < 0x2000_0000_0000_0000
    ensures |Pad(m)| % 64 == 0
    ensures Pad(m)[..|m|] == m && Pad(m)[|m|] == 0x80
    ensures forall k | |m| < k < |Pad(m)| - 8 :: Pad(m)[k] == 0
    ensures |Pad(m)| - 64 < |m| + 9 <= |Pad(m)|
    ensures FromBigEndian(Pad(m)[|Pad(m)| - 8..]) == 8 * |m|
  {
    PadWholeBlocks(m);
    var field := LengthField(|m|);
    LengthMeaning(|m|);
    assert Pad(m) == m + [0x80] + Zeros(ZeroCount(|m|)) + field;
    assert Pad(m)[|Pad(m)| - 8..] == field;
  }

  lemma LengthMeaning(len: nat)
    requires len < 0x2000_0000_0000_0000
    ensures FromBigEndian(LengthField(len)) == 8 * len
  {
    LengthFits(8 * len);
    assert (8 * len) % TWO64 == 8 * len;
    BigEndianRoundTrip(8 * len, LENGTH_BYTES);
  }

  lemma {:induction false} OutputInjective(g: seq<word>, h: seq<word>)
    requires |g| == |h| && Output(g) == Output(h)
    ensures g == h
  {
    if g != [] {
      var n := |g| - 1;
      assert Output(g)[..4 * n] == Output(g[..n]) && Output(h)[..4 * n] == Output(h[..n]);
      assert Output(g)[4 * n..] == WordBytes(g[n]) && Output(h)[4 * n..] == WordBytes(h[n]);
      OutputInjective(g[..n], h[..n]);
      WordBytesInjective(g[n], h[n]);
      assert g == g[..n] + [g[n]] && h == h[..n] + [h[n]];
    }
  }

  lemma WordBytesInjective(v: word, w: word)
    requires WordBytes(v) == WordBytes(w)
    ensures v == w
  {
    assert WordBytes(v)[0] == WordBytes(w)[0] && WordBytes(v)[1] == WordBytes(w)[1];
    assert WordBytes(v)[2] == WordBytes(w)[2] && WordBytes(v)[3] == WordBytes(w)[3];
  }

  lemma HexPairInjective(c: byte, d: byte)
    requires HexPair(c) == HexPair(d)
    ensures c == d
  {
    assert HexPair(c)[0] == HexPair(d)[0] && HexPair(c)[1] == HexPair(d)[1];
  }

  lemma {:induction false} HexInjective(s: seq<byte>, t: seq<byte>)
    requires |s| == |t| && Hex(s) == Hex(t)
    ensures s == t
  {
    if s != [] {
      var n := |s| - 1;
      HexSnoc(s);
      HexSnoc(t);
      HexInjective(s[..n], t[..n]);
      HexPairInjective(s[n], t[n]);
      assert s == s[..n] + [s[n]] && t == t[..n] + [t[n]];
    }
  }

  lemma HexSnoc(s: seq<byte>)
    requires s != []
    ensures Hex(s)[..2 * (|s| - 1)] == Hex(s[..|s| - 1])
    ensures Hex(s)[2 * (|s| - 1)..] == HexPair(s[|s| - 1])
  {}

  lemma {:induction false} HexNoNul(s: seq<byte>)
    ensures NoNul(Hex(s))
  {
    if s != [] {
      HexNoNul(s[..|s| - 1]);
    }
  }

  /** Distinct chaining values give distinct texts, and no text contains a NUL. */
  lemma HexOutputInjective(g: seq<word>, h: seq<word>)
    requires |g| == |h|
    ensures Hex(Output(g)) == Hex(Output(h)) <==> g == h
    ensures NoNul(Hex(Output(g)))
  {
    HexNoNul(Output(g));
    if Hex(Output(g)) == Hex(Output(h)) {
      HexInjective(Output(g), Output(h));
      OutputInjective(g, h);
    }
  }

  lemma DigestNoNul(m: seq<byte>)
    ensures NoNul(HexDigest(m))
  {
    HexDigestIs(m);
    HexNoNul(Output(Blocks(Pad(m))));
  }
}
