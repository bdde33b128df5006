/** What the constants and the logical functions of SHA-256 are, apart from the way they are written down. */
module Sha256Constants {
  import opened Sha256Spec

  const TWO32: nat := 0x1_0000_0000

  function Square(n: nat): nat { n * n }

  function Cube(n: nat): nat { n * n * n }

  /** The first 64 primes, eight in a row. */
  function Primes(r: nat): (p: seq<nat>)
    requires r < 8
    ensures |p| == 8
  {
    match r
    case 0 => [2, 3, 5, 7, 11, 13, 17, 19]
    case 1 => [23, 29, 31, 37, 41, 43, 47, 53]
    case 2 => [59, 61, 67, 71, 73, 79, 83, 89]
    case 3 => [97, 101, 103, 107, 109, 113, 127, 131]
    case 4 => [137, 139, 149, 151, 157, 163, 167, 173]
    case 5 => [179, 181, 191, 193, 197, 199, 211, 223]
    case 6 => [227, 229, 233, 239, 241, 251, 257, 263]
    case _ => [269, 271, 277, 281, 283, 293, 307, 311]
  }

  /** The first 32 bits after the point of the cube root of p, whose whole part is a. */
  predicate CubeRootAt(p: nat, a: nat, k: word) {
    var n := a * TWO32 + k as nat;
    Cube(n) <= p * Cube(TWO32) < Cube(n + 1)
  }

  predicate SquareRootAt(p: nat, a: nat, k: word) {
    var n := a * TWO32 + k as nat;
    Square(n) <= p * Square(TWO32) < Square(n + 1)
  }

  function CubeFloor(p: nat): nat {
    if p < 8 then 1 else if p < 27 then 2 else if p < 64 then 3 else if p < 125 then 4 else if p < 216 then 5 else 6
  }

  lemma Row0(j: nat)
    requires j < 8
    ensures CubeRootAt(Primes(0)[j], CubeFloor(Primes(0)[j]), KRow(0)[j])
  {}

  lemma Row1(j: nat)
    requires j < 8
    ensures CubeRootAt(Primes(1)[j], CubeFloor(Primes(1)[j]), KRow(1)[j])
  {}

  lemma Row2(j: nat)
    requires j < 8
    ensures CubeRootAt(Primes(2)[j], CubeFloor(Primes(2)[j]), KRow(2)[j])
  {}

  lemma Row3(j: nat)
    requires j < 8
    ensures CubeRootAt(Primes(3)[j], CubeFloor(Primes(3)[j]), KRow(3)[j])
  {}

  lemma Row4(j: nat)
    requires j < 8
    ensures CubeRootAt(Primes(4)[j], CubeFloor(Primes(4)[j]), KRow(4)[j])
  {}

  lemma Row5(j: nat)
    requires j < 8
    ensures CubeRootAt(Primes(5)[j], CubeFloor(Primes(5)[j]), KRow(5)[j])
  {}

  lemma Row6(j: nat)
    requires j < 8
    ensures CubeRootAt(Primes(6)[j], CubeFloor(Primes(6)[j]), KRow(6)[j])
  {}

  lemma Row7(j: nat)
    requires j < 8
    ensures CubeRootAt(Primes(7)[j], CubeFloor(Primes(7)[j]), KRow(7)[j])
  {}

  /** Section 4.2.2: the constant of round t is made of the first 32 bits of the cube root of the t-th prime. */
  lemma KIsCubeRoot(t: nat)
    requires t < 64
    ensures var p := Primes(t / 8)[t % 8]; CubeRootAt(p, CubeFloor(p), K(t))
  {
    var r, j := t / 8, t % 8;
    match r {
      case 0 => Row0(j);
      case 1 => Row1(j);
      case 2 => Row2(j);
      case 3 => Row3(j);
      case 4 => Row4(j);
      case 5 => Row5(j);
      case 6 => Row6(j);
      case _ => Row7(j);
    }
  }

  /** Section 5.3.3: word i of the initial value, the same of the square root of the i-th prime. */
  lemma H0IsSquareRoot(i: nat)
    requires i < 8
    ensures |H0| == 8
    ensures var p := Primes(0)[i];
      SquareRootAt(p, if p < 4 then 1 else if p < 9 then 2 else if p < 16 then 3 else 4, H0[i])
  {}

  // The logical functions of section 4.1.2.

  /** The upper n bits of the rotated word are the lower n of x, the others are the upper ones of x moved down. */
  lemma RotRMoves(x: word, n: word)
    requires 0 < n < 32
    ensures RotR(x, n) >> (32 - n) == x & ((1 << n) - 1) && RotR(x, n) & (0xffff_ffff >> n) == x >> n
  {}

  lemma RotRRotates(x: word)
    ensures RotR(x, 2) == x.RotateRight(2) && RotR(x, 13) == x.RotateRight(13) && RotR(x, 22) == x.RotateRight(22)
    ensures RotR(x, 6) == x.RotateRight(6) && RotR(x, 11) == x.RotateRight(11) && RotR(x, 25) == x.RotateRight(25)
    ensures RotR(x, 7) == x.RotateRight(7) && RotR(x, 18) == x.RotateRight(18)
    ensures RotR(x, 17) == x.RotateRight(17) && RotR(x, 19) == x.RotateRight(19)
  {}

  /** Where x has a one, Ch has y's bit, elsewhere z's. */
  lemma ChChooses(x: word, y: word, z: word)
    ensures Ch(x, y, z) & x == y & x && Ch(x, y, z) & !x == z & !x
  {}

  /** Wherever the first two words agree, Maj agrees with them, and it does not depend on their order. */
  lemma MajAgrees(x: word, y: word, z: word)
    ensures Maj(x, y, z) & !(x ^ y) == x & !(x ^ y)
  {}

  lemma MajSymmetric(x: word, y: word, z: word)
    ensures Maj(x, y, z) == Maj(y, x, z) == Maj(z, y, x)
  {}
}
