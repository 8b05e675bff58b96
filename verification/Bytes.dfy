/** Bytes, the exclusive-or used by the ciphers, and fixed-width integer layouts. */
module Bytes {

  type byte = b: int | 0 <= b < 256

  function Pow2(n: nat): (r: nat)
    ensures r > 0
  {
    if n == 0 then 1 else 2 * Pow2(n - 1)
  }

  /** Bitwise exclusive-or of the low `n` bits. */
  function XorBits(n: nat, a: nat, b: nat): (r: nat)
  {
    if n == 0 then 0
    else 2 * XorBits(n - 1, a / 2, b / 2) + (if a % 2 == b % 2 then 0 else 1)
  }

  lemma {:induction false} XorBitsBound(n: nat, a: nat, b: nat)
    ensures XorBits(n, a, b) < Pow2(n)
  {
    if n > 0 {
      XorBitsBound(n - 1, a / 2, b / 2);
    }
  }

  lemma {:induction false} XorBitsInvolutive(n: nat, a: nat, b: nat)
    requires a < Pow2(n)
    ensures XorBits(n, XorBits(n, a, b), b) == a
  {
    if n > 0 {
      XorBitsInvolutive(n - 1, a / 2, b / 2);
      Halves(XorBits(n - 1, a / 2, b / 2), if a % 2 == b % 2 then 0 else 1);
    }
  }

  lemma Halves(high: nat, bit: nat)
    requires bit < 2
    ensures (2 * high + bit) / 2 == high && (2 * high + bit) % 2 == bit
  {
  }

  function Xor(a: byte, b: byte): byte {
    XorBitsBound(8, a, b);
    assert Pow2(8) == 256;
    XorBits(8, a, b)
  }

  /** Bit `i` of a number. */
  function Bit(n: nat, i: nat): nat {
    if i == 0 then n % 2 else Bit(n / 2, i - 1)
  }

  lemma {:induction false} XorBitsBit(n: nat, a: nat, b: nat, i: nat)
    requires i < n
    ensures Bit(XorBits(n, a, b), i) == if Bit(a, i) == Bit(b, i) then 0 else 1
  {
    Halves(XorBits(n - 1, a / 2, b / 2), if a % 2 == b % 2 then 0 else 1);
    if i > 0 {
      XorBitsBit(n - 1, a / 2, b / 2, i - 1);
    }
  }

  /** Exclusive-or, bit by bit. */
  lemma XorBit(a: byte, b: byte, i: nat)
    requires i < 8
    ensures Bit(Xor(a, b), i) == if Bit(a, i) == Bit(b, i) then 0 else 1
  {
    XorBitsBit(8, a, b, i);
  }

  lemma XorInvolutive(a: byte, b: byte)
    ensures Xor(Xor(a, b), b) == a
  {
    assert Pow2(8) == 256;
    XorBitsInvolutive(8, a, b);
  }

  function Min(a: int, b: int): int {
    if a < b then a else b
  }

  function Reverse<T>(s: seq<T>): (r: seq<T>)
    ensures |r| == |s|
    ensures forall i :: 0 <= i < |s| ==> r[i] == s[|s| - 1 - i]
  {
    seq(|s|, i requires 0 <= i < |s| => s[|s| - 1 - i])
  }

  lemma ReverseInvolutive<T>(s: seq<T>)
    ensures Reverse(Reverse(s)) == s
  {
    var r := Reverse(s);
    forall i | 0 <= i < |s|
      ensures Reverse(r)[i] == s[i]
    {
      assert Reverse(r)[i] == r[|s| - 1 - i];
    }
  }

  lemma SplitAppend<T>(a: seq<T>, b: seq<T>, n: nat)
    requires n <= |b|
    ensures (a + b[..n]) + b[n..] == a + b
    ensures a + b[..n] <= a + b
  {
  }

  /** The bytes of all chunks, in order. */
  function Flatten(chunks: seq<seq<byte>>): seq<byte> {
    if chunks == [] then [] else chunks[0] + Flatten(chunks[1..])
  }

  lemma {:induction false} FlattenAppend(a: seq<seq<byte>>, b: seq<seq<byte>>)
    ensures Flatten(a + b) == Flatten(a) + Flatten(b)
  {
    if a == [] {
      assert a + b == b;
    } else {
      assert (a + b)[1..] == a[1..] + b;
      FlattenAppend(a[1..], b);
    }
  }

  lemma FlattenSnoc(a: seq<seq<byte>>, x: seq<byte>)
    ensures Flatten(a + [x]) == Flatten(a) + x
  {
    FlattenAppend(a, [x]);
    assert Flatten([x]) == x + Flatten([]);
  }

  // ---- Little-endian words ----

  const U32 := 0x1_0000_0000

  function Le32(n: int): (r: seq<byte>)
    requires 0 <= n < U32
    ensures |r| == 4
  {
    [n % 256, n / 256 % 256, n / 256 / 256 % 256, n / 256 / 256 / 256]
  }

  function FromLe32(b: seq<byte>): (n: int)
    requires |b| == 4
    ensures 0 <= n < U32
  {
    var b0: int, b1: int, b2: int, b3: int := b[0], b[1], b[2], b[3];
    b0 + 256 * (b1 + 256 * (b2 + 256 * b3))
  }

  /** The low byte comes first. */
  lemma Le32Order(n: int)
    requires 0 <= n < U32
    ensures var r := Le32(n);
            var a: int, b: int, c: int, d: int := r[0], r[1], r[2], r[3];
            a + 0x100 * b + 0x1_0000 * c + 0x100_0000 * d == n
  {
    var q, p := n / 256, n / 256 / 256;
    assert n == 256 * q + n % 256 && q == 256 * p + q % 256 && p == 256 * (p / 256) + p % 256;
  }

  lemma Le32RoundTrip(n: int)
    requires 0 <= n < U32
    ensures FromLe32(Le32(n)) == n
  {
  }

  lemma Le32Inverse(b: seq<byte>)
    requires |b| == 4
    ensures Le32(FromLe32(b)) == b
  {
    var b0: int, b1: int, b2: int, b3: int := b[0], b[1], b[2], b[3];
    LowByte(b0, b1 + 256 * (b2 + 256 * b3));
    LowByte(b1, b2 + 256 * b3);
    LowByte(b2, b3);
  }

  lemma LowByte(low: int, high: int)
    requires 0 <= low < 256
    ensures (low + 256 * high) % 256 == low && (low + 256 * high) / 256 == high
  {
  }
}
