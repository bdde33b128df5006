/** The digest of "abc", round by round, as the example in appendix B.1 of FIPS 180-2 lists it. */
module Sha256Vector {
  import opened Bytes
  import opened Sha256Spec

  lemma AbcPadded(abc: seq<byte>)
    requires abc == [0x61, 0x62, 0x63]
    ensures |Pad(abc)| == 64 && Pad(abc) == [0x61, 0x62, 0x63, 0x80] + Zeros(59) + [0x18]
  {
    assert ZeroCount(3) == 52;
    ShortLength();
    assert Zeros(59) == Zeros(52) + Zeros(7);
  }

  lemma ShortLength()
    ensures LengthField(3) == Zeros(7) + [0x18]
  {
    ShortField(24, 8);
    ByteOfShort();
  }

  lemma ByteOfShort()
    ensures ByteOf(0) == 0 && ByteOf(24) == 0x18
  {}

  lemma ShortField(x: nat, n: nat)
    requires x < 256 && n >= 1
    ensures BigEndian(x, n) == Zeros(n - 1) + [ByteOf(x)]
  {
    assert x / 256 == 0 && x % 256 == x;
    ZeroField(n - 1);
  }

  lemma {:induction false} ZeroField(n: nat)
    ensures BigEndian(0, n) == Zeros(n)
  {
    if n > 0 {
      ZeroField(n - 1);
      ByteOfShort();
    }
  }

  // The message schedule.

  predicate IsAbc(b: seq<byte>) { |b| == 64 && b == [0x61, 0x62, 0x63, 0x80] + Zeros(59) + [0x18] }

  lemma Words0(b: seq<byte>)
    requires IsAbc(b)
    ensures W(b, 0) == 0x61626380 && forall t | 1 <= t < 8 :: W(b, t) == 0
  {}

  lemma Words1(b: seq<byte>)
    requires IsAbc(b)
    ensures W(b, 15) == 0x18 && forall t | 8 <= t < 15 :: W(b, t) == 0
  {}

  lemma Next(b: seq<byte>, t: nat, w16: word, w15: word, w7: word, w2: word, w: word)
    requires |b| == 64 && 16 <= t < 64
    requires W(b, t - 16) == w16 && W(b, t - 15) == w15 && W(b, t - 7) == w7 && W(b, t - 2) == w2
    requires NextWord(w2, w7, w15, w16) == w
    ensures W(b, t) == w
  {}

  lemma Words2(b: seq<byte>)
    requires IsAbc(b)
    ensures W(b, 16) == 0x61626380 && W(b, 17) == 0x000f0000 && W(b, 18) == 0x7da86405 && W(b, 19) == 0x600003c6
    ensures W(b, 20) == 0x3e9d7b78 && W(b, 21) == 0x0183fc00 && W(b, 22) == 0x12dcbfdb && W(b, 23) == 0xe2e2c38e
  {
    Words0(b);
    Words1(b);
    Next(b, 16, 0x61626380, 0x00000000, 0x00000000, 0x00000000, 0x61626380);
    Next(b, 17, 0x00000000, 0x00000000, 0x00000000, 0x00000018, 0x000f0000);
    Next(b, 18, 0x00000000, 0x00000000, 0x00000000, 0x61626380, 0x7da86405);
    Next(b, 19, 0x00000000, 0x00000000, 0x00000000, 0x000f0000, 0x600003c6);
    Next(b, 20, 0x00000000, 0x00000000, 0x00000000, 0x7da86405, 0x3e9d7b78);
    Next(b, 21, 0x00000000, 0x00000000, 0x00000000, 0x600003c6, 0x0183fc00);
    Next(b, 22, 0x00000000, 0x00000000, 0x00000018, 0x3e9d7b78, 0x12dcbfdb);
    Next(b, 23, 0x00000000, 0x00000000, 0x61626380, 0x0183fc00, 0xe2e2c38e);
  }

  lemma Words3(b: seq<byte>)
    requires IsAbc(b)
    ensures W(b, 24) == 0xc8215c1a && W(b, 25) == 0xb73679a2 && W(b, 26) == 0xe5bc3909 && W(b, 27) == 0x32663c5b
    ensures W(b, 28) == 0x9d209d67 && W(b, 29) == 0xec8726cb && W(b, 30) == 0x702138a4 && W(b, 31) == 0xd3b7973b
  {
    Words1(b);
    Words2(b);
    Next(b, 24, 0x00000000, 0x00000000, 0x000f0000, 0x12dcbfdb, 0xc8215c1a);
    Next(b, 25, 0x00000000, 0x00000000, 0x7da86405, 0xe2e2c38e, 0xb73679a2);
    Next(b, 26, 0x00000000, 0x00000000, 0x600003c6, 0xc8215c1a, 0xe5bc3909);
    Next(b, 27, 0x00000000, 0x00000000, 0x3e9d7b78, 0xb73679a2, 0x32663c5b);
    Next(b, 28, 0x00000000, 0x00000000, 0x0183fc00, 0xe5bc3909, 0x9d209d67);
    Next(b, 29, 0x00000000, 0x00000000, 0x12dcbfdb, 0x32663c5b, 0xec8726cb);
    Next(b, 30, 0x00000000, 0x00000018, 0xe2e2c38e, 0x9d209d67, 0x702138a4);
    Next(b, 31, 0x00000018, 0x61626380, 0xc8215c1a, 0xec8726cb, 0xd3b7973b);
  }

  lemma Words4(b: seq<byte>)
    requires IsAbc(b)
    ensures W(b, 32) == 0x93f5997f && W(b, 33) == 0x3b68ba73 && W(b, 34) == 0xaff4ffc1 && W(b, 35) == 0xf10a5c62
    ensures W(b, 36) == 0x0a8b3996 && W(b, 37) == 0x72af830a && W(b, 38) == 0x9409e33e && W(b, 39) == 0x24641522
  {
    Words2(b);
    Words3(b);
    Next(b, 32, 0x61626380, 0x000f0000, 0xb73679a2, 0x702138a4, 0x93f5997f);
    Next(b, 33, 0x000f0000, 0x7da86405, 0xe5bc3909, 0xd3b7973b, 0x3b68ba73);
    Next(b, 34, 0x7da86405, 0x600003c6, 0x32663c5b, 0x93f5997f, 0xaff4ffc1);
    Next(b, 35, 0x600003c6, 0x3e9d7b78, 0x9d209d67, 0x3b68ba73, 0xf10a5c62);
    Next(b, 36, 0x3e9d7b78, 0x0183fc00, 0xec8726cb, 0xaff4ffc1, 0x0a8b3996);
    Next(b, 37, 0x0183fc00, 0x12dcbfdb, 0x702138a4, 0xf10a5c62, 0x72af830a);
    Next(b, 38, 0x12dcbfdb, 0xe2e2c38e, 0xd3b7973b, 0x0a8b3996, 0x9409e33e);
    Next(b, 39, 0xe2e2c38e, 0xc8215c1a, 0x93f5997f, 0x72af830a, 0x24641522);
  }

  lemma Words5(b: seq<byte>)
    requires IsAbc(b)
    ensures W(b, 40) == 0x9f47bf94 && W(b, 41) == 0xf0a64f5a && W(b, 42) == 0x3e246a79 && W(b, 43) == 0x27333ba3
    ensures W(b, 44) == 0x0c4763f2 && W(b, 45) == 0x840abf27 && W(b, 46) == 0x7a290d5d && W(b, 47) == 0x065c43da
  {
    Words3(b);
    Words4(b);
    Next(b, 40, 0xc8215c1a, 0xb73679a2, 0x3b68ba73, 0x9409e33e, 0x9f47bf94);
    Next(b, 41, 0xb73679a2, 0xe5bc3909, 0xaff4ffc1, 0x24641522, 0xf0a64f5a);
    Next(b, 42, 0xe5bc3909, 0x32663c5b, 0xf10a5c62, 0x9f47bf94, 0x3e246a79);
    Next(b, 43, 0x32663c5b, 0x9d209d67, 0x0a8b3996, 0xf0a64f5a, 0x27333ba3);
    Next(b, 44, 0x9d209d67, 0xec8726cb, 0x72af830a, 0x3e246a79, 0x0c4763f2);
    Next(b, 45, 0xec8726cb, 0x702138a4, 0x9409e33e, 0x27333ba3, 0x840abf27);
    Next(b, 46, 0x702138a4, 0xd3b7973b, 0x24641522, 0x0c4763f2, 0x7a290d5d);
    Next(b, 47, 0xd3b7973b, 0x93f5997f, 0x9f47bf94, 0x840abf27, 0x065c43da);
  }

  lemma Words6(b: seq<byte>)
    requires IsAbc(b)
    ensures W(b, 48) == 0xfb3e89cb && W(b, 49) == 0xcc7617db && W(b, 50) == 0xb9e66c34 && W(b, 51) == 0xa9993667
    ensures W(b, 52) == 0x84badedd && W(b, 53) == 0xc21462bc && W(b, 54) == 0x1487472c && W(b, 55) == 0xb20f7a99
  {
    Words4(b);
    Words5(b);
    Next(b, 48, 0x93f5997f, 0x3b68ba73, 0xf0a64f5a, 0x7a290d5d, 0xfb3e89cb);
    Next(b, 49, 0x3b68ba73, 0xaff4ffc1, 0x3e246a79, 0x065c43da, 0xcc7617db);
    Next(b, 50, 0xaff4ffc1, 0xf10a5c62, 0x27333ba3, 0xfb3e89cb, 0xb9e66c34);
    Next(b, 51, 0xf10a5c62, 0x0a8b3996, 0x0c4763f2, 0xcc7617db, 0xa9993667);
    Next(b, 52, 0x0a8b3996, 0x72af830a, 0x840abf27, 0xb9e66c34, 0x84badedd);
    Next(b, 53, 0x72af830a, 0x9409e33e, 0x7a290d5d, 0xa9993667, 0xc21462bc);
    Next(b, 54, 0x9409e33e, 0x24641522, 0x065c43da, 0x84badedd, 0x1487472c);
    Next(b, 55, 0x24641522, 0x9f47bf94, 0xfb3e89cb, 0xc21462bc, 0xb20f7a99);
  }

  lemma Words7(b: seq<byte>)
    requires IsAbc(b)
    ensures W(b, 56) == 0xef57b9cd && W(b, 57) == 0xebe6b238 && W(b, 58) == 0x9fe3095e && W(b, 59) == 0x78bc8d4b
    ensures W(b, 60) == 0xa43fcf15 && W(b, 61) == 0x668b2ff8 && W(b, 62) == 0xeeaba2cc && W(b, 63) == 0x12b1edeb
  {
    Words5(b);
    Words6(b);
    Next(b, 56, 0x9f47bf94, 0xf0a64f5a, 0xcc7617db, 0x1487472c, 0xef57b9cd);
    Next(b, 57, 0xf0a64f5a, 0x3e246a79, 0xb9e66c34, 0xb20f7a99, 0xebe6b238);
    Next(b, 58, 0x3e246a79, 0x27333ba3, 0xa9993667, 0xef57b9cd, 0x9fe3095e);
    Next(b, 59, 0x27333ba3, 0x0c4763f2, 0x84badedd, 0xebe6b238, 0x78bc8d4b);
    Next(b, 60, 0x0c4763f2, 0x840abf27, 0xc21462bc, 0x9fe3095e, 0xa43fcf15);
    Next(b, 61, 0x840abf27, 0x7a290d5d, 0x1487472c, 0x78bc8d4b, 0x668b2ff8);
    Next(b, 62, 0x7a290d5d, 0x065c43da, 0xb20f7a99, 0xa43fcf15, 0xeeaba2cc);
    Next(b, 63, 0x065c43da, 0xfb3e89cb, 0xef57b9cd, 0x668b2ff8, 0x12b1edeb);
  }

  // The rounds.

  lemma Turn(b: seq<byte>, t: nat, r: nat, j: nat, v: seq<word>, w: word) returns (u: seq<word>)
    requires |b| == 64 && |v| == 8 && r < 8 && j < 8 && t == 8 * r + j && W(b, t) == w && Rounds(b, H0, t) == v
    ensures |u| == 8 && u == Step(v, KRow(r)[j], w) && Rounds(b, H0, t + 1) == u
  {
    assert (t + 1) - 1 == t && t / 8 == r && t % 8 == j;
    u := Step(v, KRow(r)[j], w);
  }

  lemma Rounds0(b: seq<byte>)
    requires IsAbc(b)
    ensures Rounds(b, H0, 8) ==
      [0x85a07b5f, 0xe5030380, 0x2b4209f5, 0x04409a6a, 0x0c657a79, 0x9b27a401, 0x714260ad, 0x43ada245]
  {
    Words0(b);
    var v := H0;
    v := Turn(b, 0, 0, 0, v, 0x61626380); assert v[0] == 0x5d6aebcd && v[4] == 0xfa2a4622;
    v := Turn(b, 1, 0, 1, v, 0x00000000); assert v[0] == 0x5a6ad9ad && v[4] == 0x78ce7989;
    v := Turn(b, 2, 0, 2, v, 0x00000000); assert v[0] == 0xc8c347a7 && v[4] == 0xf92939eb;
    v := Turn(b, 3, 0, 3, v, 0x00000000); assert v[0] == 0xd550f666 && v[4] == 0x24e00850;
    v := Turn(b, 4, 0, 4, v, 0x00000000); assert v[0] == 0x04409a6a && v[4] == 0x43ada245;
    v := Turn(b, 5, 0, 5, v, 0x00000000); assert v[0] == 0x2b4209f5 && v[4] == 0x714260ad;
    v := Turn(b, 6, 0, 6, v, 0x00000000); assert v[0] == 0xe5030380 && v[4] == 0x9b27a401;
    v := Turn(b, 7, 0, 7, v, 0x00000000); assert v[0] == 0x85a07b5f && v[4] == 0x0c657a79;
  }

  lemma Rounds1(b: seq<byte>)
    requires IsAbc(b)
    ensures Rounds(b, H0, 16) ==
      [0xb0fa238e, 0xc0645fde, 0xd932eb16, 0x87912990, 0x07590dcd, 0x0b92f20c, 0x745a48de, 0x1e578218]
  {
    Rounds0(b);
    Words1(b);
    var v := [0x85a07b5f, 0xe5030380, 0x2b4209f5, 0x04409a6a, 0x0c657a79, 0x9b27a401, 0x714260ad, 0x43ada245];
    v := Turn(b, 8, 1, 0, v, 0x00000000); assert v[0] == 0x8e04ecb9 && v[4] == 0x32ca2d8c;
    v := Turn(b, 9, 1, 1, v, 0x00000000); assert v[0] == 0x8c87346b && v[4] == 0x1cc92596;
    v := Turn(b, 10, 1, 2, v, 0x00000000); assert v[0] == 0x4798a3f4 && v[4] == 0x436b23e8;
    v := Turn(b, 11, 1, 3, v, 0x00000000); assert v[0] == 0xf71fc5a9 && v[4] == 0x816fd6e9;
    v := Turn(b, 12, 1, 4, v, 0x00000000); assert v[0] == 0x87912990 && v[4] == 0x1e578218;
    v := Turn(b, 13, 1, 5, v, 0x00000000); assert v[0] == 0xd932eb16 && v[4] == 0x745a48de;
    v := Turn(b, 14, 1, 6, v, 0x00000000); assert v[0] == 0xc0645fde && v[4] == 0x0b92f20c;
    v := Turn(b, 15, 1, 7, v, 0x00000018); assert v[0] == 0xb0fa238e && v[4] == 0x07590dcd;
  }

  lemma Rounds2(b: seq<byte>)
    requires IsAbc(b)
    ensures Rounds(b, H0, 24) ==
      [0xc5d53d8d, 0xa7a3623f, 0xc2606d6d, 0x9dc68b63, 0xaa47c347, 0x49f5114a, 0xe1257970, 0x8ada8930]
  {
    Rounds1(b);
    Words2(b);
    var v := [0xb0fa238e, 0xc0645fde, 0xd932eb16, 0x87912990, 0x07590dcd, 0x0b92f20c, 0x745a48de, 0x1e578218];
    v := Turn(b, 16, 2, 0, v, 0x61626380); assert v[0] == 0x21da9a9b && v[4] == 0x8034229c;
    v := Turn(b, 17, 2, 1, v, 0x000f0000); assert v[0] == 0xc2fbd9d1 && v[4] == 0x846ee454;
    v := Turn(b, 18, 2, 2, v, 0x7da86405); assert v[0] == 0xfe777bbf && v[4] == 0xcc899961;
    v := Turn(b, 19, 2, 3, v, 0x600003c6); assert v[0] == 0xe1f20c33 && v[4] == 0xb0638179;
    v := Turn(b, 20, 2, 4, v, 0x3e9d7b78); assert v[0] == 0x9dc68b63 && v[4] == 0x8ada8930;
    v := Turn(b, 21, 2, 5, v, 0x0183fc00); assert v[0] == 0xc2606d6d && v[4] == 0xe1257970;
    v := Turn(b, 22, 2, 6, v, 0x12dcbfdb); assert v[0] == 0xa7a3623f && v[4] == 0x49f5114a;
    v := Turn(b, 23, 2, 7, v, 0xe2e2c38e); assert v[0] == 0xc5d53d8d && v[4] == 0xaa47c347;
  }

  lemma Rounds3(b: seq<byte>)
    requires IsAbc(b)
    ensures Rounds(b, H0, 32) ==
      [0x73b33bf5, 0xea992a22, 0xa0060b30, 0x363482c9, 0xba591112, 0x0109ab3a, 0xade79437, 0x6112a3b7]
  {
    Rounds2(b);
    Words3(b);
    var v := [0xc5d53d8d, 0xa7a3623f, 0xc2606d6d, 0x9dc68b63, 0xaa47c347, 0x49f5114a, 0xe1257970, 0x8ada8930];
    v := Turn(b, 24, 3, 0, v, 0xc8215c1a); assert v[0] == 0x1c2c2838 && v[4] == 0x2823ef91;
    v := Turn(b, 25, 3, 1, v, 0xb73679a2); assert v[0] == 0xcde8037d && v[4] == 0x14383d8e;
    v := Turn(b, 26, 3, 2, v, 0xe5bc3909); assert v[0] == 0xb62ec4bc && v[4] == 0xc74c6516;
    v := Turn(b, 27, 3, 3, v, 0x32663c5b); assert v[0] == 0x77d37528 && v[4] == 0xedffbff8;
    v := Turn(b, 28, 3, 4, v, 0x9d209d67); assert v[0] == 0x363482c9 && v[4] == 0x6112a3b7;
    v := Turn(b, 29, 3, 5, v, 0xec8726cb); assert v[0] == 0xa0060b30 && v[4] == 0xade79437;
    v := Turn(b, 30, 3, 6, v, 0x702138a4); assert v[0] == 0xea992a22 && v[4] == 0x0109ab3a;
    v := Turn(b, 31, 3, 7, v, 0xd3b7973b); assert v[0] == 0x73b33bf5 && v[4] == 0xba591112;
  }

  lemma Rounds4(b: seq<byte>)
    requires IsAbc(b)
    ensures Rounds(b, H0, 40) ==
      [0x79ea687a, 0x6dc57a8a, 0x34df1604, 0x41a65cb1, 0x1efbc0a0, 0xf0781bc8, 0xa507a53d, 0x0772a26b]
  {
    Rounds3(b);
    Words4(b);
    var v := [0x73b33bf5, 0xea992a22, 0xa0060b30, 0x363482c9, 0xba591112, 0x0109ab3a, 0xade79437, 0x6112a3b7];
    v := Turn(b, 32, 4, 0, v, 0x93f5997f); assert v[0] == 0x98e12507 && v[4] == 0x9cd9f5f6;
    v := Turn(b, 33, 4, 1, v, 0x3b68ba73); assert v[0] == 0xfe604df5 && v[4] == 0x59249dd3;
    v := Turn(b, 34, 4, 2, v, 0xaff4ffc1); assert v[0] == 0xa9a7738c && v[4] == 0x085f3833;
    v := Turn(b, 35, 4, 3, v, 0xf10a5c62); assert v[0] == 0x65a0cfe4 && v[4] == 0xf4b002d6;
    v := Turn(b, 36, 4, 4, v, 0x0a8b3996); assert v[0] == 0x41a65cb1 && v[4] == 0x0772a26b;
    v := Turn(b, 37, 4, 5, v, 0x72af830a); assert v[0] == 0x34df1604 && v[4] == 0xa507a53d;
    v := Turn(b, 38, 4, 6, v, 0x9409e33e); assert v[0] == 0x6dc57a8a && v[4] == 0xf0781bc8;
    v := Turn(b, 39, 4, 7, v, 0x24641522); assert v[0] == 0x79ea687a && v[4] == 0x1efbc0a0;
  }

  lemma Rounds5(b: seq<byte>)
    requires IsAbc(b)
    ensures Rounds(b, H0, 48) ==
      [0x4172328d, 0xa14c14b0, 0x72ab4b91, 0x26628815, 0xfecf0bc6, 0xd57b94a9, 0xb7755da1, 0xa80f11f0]
  {
    Rounds4(b);
    Words5(b);
    var v := [0x79ea687a, 0x6dc57a8a, 0x34df1604, 0x41a65cb1, 0x1efbc0a0, 0xf0781bc8, 0xa507a53d, 0x0772a26b];
    v := Turn(b, 40, 5, 0, v, 0x9f47bf94); assert v[0] == 0xd6670766 && v[4] == 0x26352d63;
    v := Turn(b, 41, 5, 1, v, 0xf0a64f5a); assert v[0] == 0xdf46652f && v[4] == 0x838b2711;
    v := Turn(b, 42, 5, 2, v, 0x3e246a79); assert v[0] == 0x17aa0dfe && v[4] == 0xdecd4715;
    v := Turn(b, 43, 5, 3, v, 0x27333ba3); assert v[0] == 0x9d4baf93 && v[4] == 0xfda24c2e;
    v := Turn(b, 44, 5, 4, v, 0x0c4763f2); assert v[0] == 0x26628815 && v[4] == 0xa80f11f0;
    v := Turn(b, 45, 5, 5, v, 0x840abf27); assert v[0] == 0x72ab4b91 && v[4] == 0xb7755da1;
    v := Turn(b, 46, 5, 6, v, 0x7a290d5d); assert v[0] == 0xa14c14b0 && v[4] == 0xd57b94a9;
    v := Turn(b, 47, 5, 7, v, 0x065c43da); assert v[0] == 0x4172328d && v[4] == 0xfecf0bc6;
  }

  lemma Rounds6(b: seq<byte>)
    requires IsAbc(b)
    ensures Rounds(b, H0, 56) ==
      [0x38cc9913, 0x3ec45cdb, 0xf5702fdb, 0x101fd28f, 0x54cb266b, 0xe50e1b4f, 0x9f4787c3, 0x529e7d00]
  {
    Rounds5(b);
    Words6(b);
    var v := [0x4172328d, 0xa14c14b0, 0x72ab4b91, 0x26628815, 0xfecf0bc6, 0xd57b94a9, 0xb7755da1, 0xa80f11f0];
    v := Turn(b, 48, 6, 0, v, 0xfb3e89cb); assert v[0] == 0x05757ceb && v[4] == 0xbd714038;
    v := Turn(b, 49, 6, 1, v, 0xcc7617db); assert v[0] == 0xf11bfaa8 && v[4] == 0x6e5c390c;
    v := Turn(b, 50, 6, 2, v, 0xb9e66c34); assert v[0] == 0x7a0508a1 && v[4] == 0x52f1ccf7;
    v := Turn(b, 51, 6, 3, v, 0xa9993667); assert v[0] == 0x886e7a22 && v[4] == 0x49231c1e;
    v := Turn(b, 52, 6, 4, v, 0x84badedd); assert v[0] == 0x101fd28f && v[4] == 0x529e7d00;
    v := Turn(b, 53, 6, 5, v, 0xc21462bc); assert v[0] == 0xf5702fdb && v[4] == 0x9f4787c3;
    v := Turn(b, 54, 6, 6, v, 0x1487472c); assert v[0] == 0x3ec45cdb && v[4] == 0xe50e1b4f;
    v := Turn(b, 55, 6, 7, v, 0xb20f7a99); assert v[0] == 0x38cc9913 && v[4] == 0x54cb266b;
  }

  lemma Rounds7(b: seq<byte>)
    requires IsAbc(b)
    ensures Rounds(b, H0, 64) ==
      [0x506e3058, 0xd39a2165, 0x04d24d6c, 0xb85e2ce9, 0x5ef50f24, 0xfb121210, 0x948d25b6, 0x961f4894]
  {
    Rounds6(b);
    Words7(b);
    var v := [0x38cc9913, 0x3ec45cdb, 0xf5702fdb, 0x101fd28f, 0x54cb266b, 0xe50e1b4f, 0x9f4787c3, 0x529e7d00];
    v := Turn(b, 56, 7, 0, v, 0xef57b9cd); assert v[0] == 0xfcd1887b && v[4] == 0x9b5e906c;
    v := Turn(b, 57, 7, 1, v, 0xebe6b238); assert v[0] == 0xc062d46f && v[4] == 0x7e44008e;
    v := Turn(b, 58, 7, 2, v, 0x9fe3095e); assert v[0] == 0xffb70472 && v[4] == 0x6d83bfc6;
    v := Turn(b, 59, 7, 3, v, 0x78bc8d4b); assert v[0] == 0xb6ae8fff && v[4] == 0xb21bad3d;
    v := Turn(b, 60, 7, 4, v, 0xa43fcf15); assert v[0] == 0xb85e2ce9 && v[4] == 0x961f4894;
    v := Turn(b, 61, 7, 5, v, 0x668b2ff8); assert v[0] == 0x04d24d6c && v[4] == 0x948d25b6;
    v := Turn(b, 62, 7, 6, v, 0xeeaba2cc); assert v[0] == 0xd39a2165 && v[4] == 0xfb121210;
    v := Turn(b, 63, 7, 7, v, 0x12b1edeb); assert v[0] == 0x506e3058 && v[4] == 0x5ef50f24;
  }

  // The digest.

  /** The text of one word: its four bytes from the most significant on, two characters each. */
  function WordText(w: word): (t: seq<byte>)
    ensures |t| == 8
  {
    HexPair(WordBytes(w)[0]) + HexPair(WordBytes(w)[1]) + HexPair(WordBytes(w)[2]) + HexPair(WordBytes(w)[3])
  }

  /** Where each word of the chaining value stands in the text. */
  lemma {:induction false} HexOutputAt(h: seq<word>, i: nat)
    requires i < |h|
    ensures Hex(Output(h))[8 * i..8 * i + 8] == WordText(h[i])
  {
    var n := |h| - 1;
    var init, last := Output(h[..n]), WordBytes(h[n]);
    assert Output(h) == init + last;
    HexCat(init, last);
    HexOfFour(last);
    if i < n {
      HexOutputAt(h[..n], i);
      assert Hex(init)[8 * i..8 * i + 8] == (Hex(init) + Hex(last))[8 * i..8 * i + 8];
    }
  }

  lemma {:induction false} HexCat(s: seq<byte>, t: seq<byte>)
    ensures Hex(s + t) == Hex(s) + Hex(t)
  {
    if t == [] {
      assert s + t == s;
    } else {
      var n := |t| - 1;
      assert (s + t)[..|s + t| - 1] == s + t[..n];
      HexCat(s, t[..n]);
    }
  }

  lemma HexOfFour(s: seq<byte>)
    requires |s| == 4
    ensures Hex(s) == HexPair(s[0]) + HexPair(s[1]) + HexPair(s[2]) + HexPair(s[3])
  {
    var a, b, c, d := [s[0]], [s[1]], [s[2]], [s[3]];
    assert s == a + b + c + d;
    HexCat(a + b + c, d);
    HexCat(a + b, c);
    HexCat(a, b);
    HexOfOne(s[0]);
    HexOfOne(s[1]);
    HexOfOne(s[2]);
    HexOfOne(s[3]);
  }

  lemma HexOfOne(x: byte)
    ensures Hex([x]) == HexPair(x)
  {
    assert [x][..0] == [];
  }

  const FINAL: seq<word> := [0xba7816bf, 0x8f01cfea, 0x414140de, 0x5dae2223,
                             0xb00361a3, 0x96177a9c, 0xb410ff61, 0xf20015ad]

  lemma AbcChaining(abc: seq<byte>)
    requires abc == [0x61, 0x62, 0x63]
    ensures |Pad(abc)| % 64 == 0 && Blocks(Pad(abc)) == FINAL
  {
    var b := Pad(abc);
    AbcPadded(abc);
    Rounds7(b);
    assert b[..0] == [] && b[0..] == b;
  }

  lemma FinalTexts()
    ensures WordText(0xba7816bf) == [0x62, 0x61, 0x37, 0x38, 0x31, 0x36, 0x62, 0x66] // ba7816bf
    ensures WordText(0x8f01cfea) == [0x38, 0x66, 0x30, 0x31, 0x63, 0x66, 0x65, 0x61] // 8f01cfea
    ensures WordText(0x414140de) == [0x34, 0x31, 0x34, 0x31, 0x34, 0x30, 0x64, 0x65] // 414140de
    ensures WordText(0x5dae2223) == [0x35, 0x64, 0x61, 0x65, 0x32, 0x32, 0x32, 0x33] // 5dae2223
    ensures WordText(0xb00361a3) == [0x62, 0x30, 0x30, 0x33, 0x36, 0x31, 0x61, 0x33] // b00361a3
    ensures WordText(0x96177a9c) == [0x39, 0x36, 0x31, 0x37, 0x37, 0x61, 0x39, 0x63] // 96177a9c
    ensures WordText(0xb410ff61) == [0x62, 0x34, 0x31, 0x30, 0x66, 0x66, 0x36, 0x31] // b410ff61
    ensures WordText(0xf20015ad) == [0x66, 0x32, 0x30, 0x30, 0x31, 0x35, 0x61, 0x64] // f20015ad
  {}

  lemma EightParts(t: seq<byte>)
    requires |t| == 64
    ensures t == t[0..8] + t[8..16] + t[16..24] + t[24..32] + t[32..40] + t[40..48] + t[48..56] + t[56..64]
  {}

  function EightTexts(h: seq<word>): seq<byte>
    requires |h| == 8
  {
    WordText(h[0]) + WordText(h[1]) + WordText(h[2]) + WordText(h[3])
    + WordText(h[4]) + WordText(h[5]) + WordText(h[6]) + WordText(h[7])
  }

  lemma HexOfEight(h: seq<word>)
    requires |h| == 8
    ensures Hex(Output(h)) == EightTexts(h)
  {
    EightParts(Hex(Output(h)));
    HexOutputAt(h, 0);
    HexOutputAt(h, 1);
    HexOutputAt(h, 2);
    HexOutputAt(h, 3);
    HexOutputAt(h, 4);
    HexOutputAt(h, 5);
    HexOutputAt(h, 6);
    HexOutputAt(h, 7);
  }

  lemma DigestByWords(abc: seq<byte>)
    requires abc == [0x61, 0x62, 0x63]
    ensures HexDigest(abc) == EightTexts(FINAL)
  {
    AbcChaining(abc);
    HexDigestIs(abc);
    HexOfEight(FINAL);
  }

  /** The published digest, ba7816bf 8f01cfea 414140de 5dae2223 b00361a3 96177a9c b410ff61 f20015ad. */
  lemma DigestOfAbc(abc: seq<byte>)
    requires abc == [0x61, 0x62, 0x63]
    ensures HexDigest(abc) ==
      [0x62, 0x61, 0x37, 0x38, 0x31, 0x36, 0x62, 0x66]
      + [0x38, 0x66, 0x30, 0x31, 0x63, 0x66, 0x65, 0x61]
      + [0x34, 0x31, 0x34, 0x31, 0x34, 0x30, 0x64, 0x65]
      + [0x35, 0x64, 0x61, 0x65, 0x32, 0x32, 0x32, 0x33]
      + [0x62, 0x30, 0x30, 0x33, 0x36, 0x31, 0x61, 0x33]
      + [0x39, 0x36, 0x31, 0x37, 0x37, 0x61, 0x39, 0x63]
      + [0x62, 0x34, 0x31, 0x30, 0x66, 0x66, 0x36, 0x31]
      + [0x66, 0x32, 0x30, 0x30, 0x31, 0x35, 0x61, 0x64]
  {
    DigestByWords(abc);
    FinalTexts();
  }
}
