/** Bytes, C string comparison and the two memory primitives the rest of the model copies with. */
module Bytes {

  type byte = bv8

  datatype Option<+T> = None | Some(value: T) {
    function GetOr(default: T): T { if Some? then value else default }
  }

  const NUL: byte := 0

  function ByteOf(d: nat): byte
    requires d < 256
  {
    d as bv8
  }

  lemma ByteSuccessor(b: byte)
    requires b != 255
    ensures (b + 1) as int == b as int + 1
  {}

  lemma {:induction false} ByteFor(d: nat) returns (b: byte)
    requires d < 256
    ensures b as int == d
  {
    b := 0;
    if d > 0 {
      b := ByteFor(d - 1);
      assert b == 255 ==> b as int == 255;
      ByteSuccessor(b);
      b := b + 1;
    }
  }

  lemma AsByteValue(d: nat)
    requires d < 256
    ensures (d as bv8) as int == d
  {
    var b := ByteFor(d);
    AsByteInverse(b);
  }

  lemma ByteOfValue(d: nat)
    requires d < 256
    ensures ByteOf(d) as int == d
  {
    AsByteValue(d);
  }

  lemma AsByteInverse(b: byte)
    ensures 0 <= b as int < 256 && (b as int) as bv8 == b
  {}

  lemma ByteOfInverse(b: byte)
    ensures 0 <= b as int < 256 && ByteOf(b as int) == b
  {
    AsByteInverse(b);
  }

  /** The eight low bits of x. */
  function LowByte(x: nat): byte { ByteOf(x % 256) }

  /** No NUL terminator among the characters. */
  predicate NoNul(s: seq<byte>) {
    forall k | 0 <= k < |s| :: s[k] != NUL
  }

  /** True when C's strncmp(a, b, n) returns 0; the comparison also stops at a shared NUL. */
  predicate StrnEqual(a: seq<byte>, b: seq<byte>, n: nat)
    requires n <= |a| && n <= |b|
  {
    n == 0 || (a[0] == b[0] && (a[0] == NUL || StrnEqual(a[1..], b[1..], n - 1)))
  }

  /** The first n characters agree up to the first NUL, that included. */
  lemma {:induction false} StrnEqualIs(a: seq<byte>, b: seq<byte>, n: nat)
    requires n <= |a| && n <= |b|
    ensures StrnEqual(a, b, n) <==> forall k | 0 <= k < n && NoNul(a[..k]) :: a[k] == b[k]
  {
    if n > 0 {
      var x, y := a[1..], b[1..];
      StrnEqualIs(x, y, n - 1);
      assert NoNul(a[..0]);
      if a[0] != NUL {
        forall k | 0 <= k < n - 1 ensures NoNul(x[..k]) <==> NoNul(a[..k + 1]) {
          assert a[..k + 1] == [a[0]] + x[..k];
        }
        assert forall k | 0 < k < n && NoNul(a[..k]) :: a[k] == x[k - 1] && b[k] == y[k - 1] && NoNul(x[..k - 1]);
        assert forall k | 0 <= k < n - 1 && NoNul(x[..k]) :: x[k] == a[k + 1] && y[k] == b[k + 1] && NoNul(a[..k + 1]);
      } else {
        assert forall k | 0 < k <= n :: a[..k][0] == NUL;
      }
    }
  }

  /** When one side has no NUL, strncmp over n characters decides equality of those n characters. */
  lemma {:induction false} StrnEqualDecides(a: seq<byte>, b: seq<byte>, n: nat)
    requires n <= |a| && n <= |b|
    requires NoNul(a[..n]) || NoNul(b[..n])
    ensures StrnEqual(a, b, n) <==> a[..n] == b[..n]
  {
    if n == 0 {
    } else {
      var x, y := a[1..][..n - 1], b[1..][..n - 1];
      assert a[..n] == [a[0]] + x && b[..n] == [b[0]] + y;
      assert a[..n][1..] == x && b[..n][1..] == y;
      if a[0] == b[0] && a[..n][0] != NUL {
        StrnEqualDecides(a[1..], b[1..], n - 1);
      }
    }
  }

  /** The contents of d after memcpy(d + at, src, |src|). */
  function Overlay<T>(d: seq<T>, at: nat, src: seq<T>): (r: seq<T>)
    requires at + |src| <= |d|
    ensures |r| == |d|
    ensures forall k | 0 <= k < |d| :: r[k] == if at <= k < at + |src| then src[k - at] else d[k]
  {
    d[..at] + src + d[at + |src|..]
  }

  lemma Associative<T>(a: seq<T>, b: seq<T>, c: seq<T>)
    ensures a + (b + c) == (a + b) + c
  {}

  /** memcpy into an array. */
  method Memcpy<T>(dst: array<T>, at: nat, src: seq<T>)
    requires at + |src| <= dst.Length
    modifies dst
    ensures dst[..] == Overlay(old(dst[..]), at, src)
  {
    var i := 0;
    while i < |src|
      invariant 0 <= i <= |src|
      invariant forall k | 0 <= k < dst.Length ::
        dst[k] == if at <= k < at + i then src[k - at] else old(dst[k])
    {
      dst[at + i] := src[i];
      i := i + 1;
    }
  }

  method CopyOf<T(0)>(src: array<T>) returns (dst: array<T>)
    ensures fresh(dst) && dst[..] == src[..]
  {
    dst := new T[src.Length];
    var i := 0;
    while i < src.Length
      invariant 0 <= i <= src.Length
      invariant forall k | 0 <= k < i :: dst[k] == src[k]
    {
      dst[i] := src[i];
      i := i + 1;
    }
  }

  /** merge_arrays: the first asize elements of a, then the first bsize of b, in a new array. */
  method MergeArrays<T(0)>(a: array<T>, b: array<T>, asize: nat, bsize: nat) returns (r: array<T>)
    requires asize <= a.Length && bsize <= b.Length
    ensures r[..] == a[..asize] + b[..bsize]
  {
    r := new T[asize + bsize];
    Memcpy(r, 0, a[..asize]);
    Memcpy(r, asize, b[..bsize]);
  }
}
