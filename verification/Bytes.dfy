/** Bytes, 32-bit words and bit streams, most significant bit first. */
module Bytes {
  type Byte = x: int | 0 <= x < 256

  type U2 = x: int | 0 <= x < 4
  type U6 = x: int | 0 <= x < 64

  /** A 32-bit word as its four bytes, most significant first. */
  type Word = w: seq<Byte> | |w| == 4 witness [0, 0, 0, 0]

  /** The low `n` bits of `x`, most significant first. */
  function BitsN(x: nat, n: nat): (b: seq<bool>)
    ensures |b| == n
  {
    if n == 0 then [] else BitsN(x / 2, n - 1) + [x % 2 == 1]
  }

  function Bits(bytes: seq<Byte>): (b: seq<bool>)
    ensures |b| == 8 * |bytes|
  {
    if bytes == [] then [] else BitsN(bytes[0], 8) + Bits(bytes[1..])
  }

  lemma BitsFirst(bytes: seq<Byte>)
    ensures Bits(bytes) == if bytes == [] then [] else BitsN(bytes[0], 8) + Bits(bytes[1..])
  {
  }

  lemma {:induction false} BitsConcat(a: seq<Byte>, b: seq<Byte>)
    ensures Bits(a + b) == Bits(a) + Bits(b)
  {
    hide Bits, BitsN;
    BitsFirst(a);
    if a == [] {
      assert a + b == b;
    } else {
      BitsConcat(a[1..], b);
      BitsFirst(a + b);
      assert (a + b)[1..] == a[1..] + b;
    }
  }

  lemma BitsPrefix(a: seq<Byte>, b: seq<Byte>)
    requires a <= b
    ensures Bits(a) <= Bits(b)
  {
    BitsConcat(a, b[|a|..]);
    assert b == a + b[|a|..];
  }

  lemma {:induction false} BitsNInjective(x: nat, y: nat, n: nat)
    requires BitsN(x, n) == BitsN(y, n)
    requires x < Pow2(n) && y < Pow2(n)
    ensures x == y
  {
    if n > 0 {
      var hx, hy := BitsN(x / 2, n - 1), BitsN(y / 2, n - 1);
      assert BitsN(x, n)[..n - 1] == hx && BitsN(y, n)[..n - 1] == hy;
      assert BitsN(x, n)[n - 1] == (x % 2 == 1) && BitsN(y, n)[n - 1] == (y % 2 == 1);
      BitsNInjective(x / 2, y / 2, n - 1);
    }
  }

  function Pow2(n: nat): nat {
    if n == 0 then 1 else 2 * Pow2(n - 1)
  }

  lemma BitsNSnoc(x: nat, n: nat)
    ensures BitsN(x, n + 1) == BitsN(x / 2, n) + [x % 2 == 1]
    ensures BitsN(x, 0) == []
  {
  }

  lemma LowBits(x: nat, n: nat)
    ensures BitsN(x, n + 4) ==
      BitsN(x / 16, n) + [x / 8 % 2 == 1, x / 4 % 2 == 1, x / 2 % 2 == 1, x % 2 == 1]
  {
    hide BitsN;
    BitsNSnoc(x, n + 3);
    BitsNSnoc(x / 2, n + 2);
    BitsNSnoc(x / 4, n + 1);
    BitsNSnoc(x / 8, n);
    assert x / 2 / 2 == x / 4 && x / 4 / 2 == x / 8 && x / 8 / 2 == x / 16;
  }

  /** The bits of a byte, by division. */
  lemma BitsOfByte(x: Byte)
    ensures BitsN(x, 8) == [x / 128 % 2 == 1, x / 64 % 2 == 1, x / 32 % 2 == 1, x / 16 % 2 == 1,
                            x / 8 % 2 == 1, x / 4 % 2 == 1, x / 2 % 2 == 1, x % 2 == 1]
  {
    hide BitsN;
    LowBits(x, 4);
    LowBits(x / 16, 0);
    BitsNSnoc(x / 256, 0);
    assert x / 16 / 2 == x / 32 && x / 16 / 4 == x / 64 && x / 16 / 8 == x / 128 && x / 16 / 16 == x / 256;
  }

  /** The wire determines the bytes: two byte strings with the same bits are equal. */
  lemma {:induction false} BitsInjective(a: seq<Byte>, b: seq<Byte>)
    requires Bits(a) == Bits(b)
    ensures a == b
  {
    if a != [] {
      assert |Bits(b)| == 8 * |a|;
      assert Bits(a)[..8] == BitsN(a[0], 8) && Bits(b)[..8] == BitsN(b[0], 8);
      assert Bits(a)[8..] == Bits(a[1..]) && Bits(b)[8..] == Bits(b[1..]);
      assert Pow2(8) == 256;
      BitsNInjective(a[0], b[0], 8);
      BitsInjective(a[1..], b[1..]);
      assert a == [a[0]] + a[1..] && b == [b[0]] + b[1..];
    }
  }

  /** Bitwise AND of the low `n` bits. */
  function AndN(x: nat, y: nat, n: nat): nat {
    if n == 0 then 0 else (x % 2) * (y % 2) + 2 * AndN(x / 2, y / 2, n - 1)
  }

  /** Bitwise OR of the low `n` bits. */
  function OrN(x: nat, y: nat, n: nat): nat {
    if n == 0 then 0 else (if x % 2 + y % 2 > 0 then 1 else 0) + 2 * OrN(x / 2, y / 2, n - 1)
  }

  lemma {:induction false} AndNOnes(x: nat, n: nat)
    requires x < Pow2(n)
    ensures AndN(Pow2(n) - 1, x, n) == x
  {
    if n > 0 {
      assert (Pow2(n) - 1) / 2 == Pow2(n - 1) - 1;
      assert (Pow2(n) - 1) % 2 == 1;
      AndNOnes(x / 2, n - 1);
    }
  }

  lemma {:induction false} OrNZero(x: nat, n: nat)
    requires x < Pow2(n)
    ensures OrN(0, x, n) == x
  {
    if n > 0 {
      OrNZero(x / 2, n - 1);
    }
  }

  lemma {:induction false} AndNRange(x: nat, y: nat, n: nat)
    ensures AndN(x, y, n) < Pow2(n)
  {
    if n > 0 {
      AndNRange(x / 2, y / 2, n - 1);
      assert x % 2 == 0 || x % 2 == 1;
      assert y % 2 == 0 || y % 2 == 1;
      assert (x % 2) * (y % 2) <= 1;
    }
  }

  lemma {:induction false} OrNRange(x: nat, y: nat, n: nat)
    ensures OrN(x, y, n) < Pow2(n)
  {
    if n > 0 {
      OrNRange(x / 2, y / 2, n - 1);
    }
  }

  function And8(x: Byte, y: Byte): Byte {
    AndNRange(x, y, 8);
    assert Pow2(8) == 256;
    AndN(x, y, 8)
  }

  function Or8(x: Byte, y: Byte): Byte {
    OrNRange(x, y, 8);
    assert Pow2(8) == 256;
    OrN(x, y, 8)
  }

  /** NOR programming stores exactly the data in an erased cell. */
  lemma ErasedAnd(x: Byte)
    ensures And8(0xFF, x) == x
  {
    assert Pow2(8) == 256;
    AndNOnes(x, 8);
  }

  lemma OrZero(x: Byte)
    ensures Or8(0, x) == x
  {
    assert Pow2(8) == 256;
    OrNZero(x, 8);
  }

  lemma OrZeroRight(data: Byte)
    ensures Or8(data, 0) == data
  {
    OrCommutes(data, 0, 8);
    OrZero(data);
  }

  lemma {:induction false} OrCommutes(x: nat, y: nat, n: nat)
    ensures OrN(x, y, n) == OrN(y, x, n)
  {
    if n > 0 {
      OrCommutes(x / 2, y / 2, n - 1);
    }
  }

  function Reversed(w: Word): Word {
    [w[3], w[2], w[1], w[0]]
  }

  function Max(a: int, b: int): int {
    if a < b then b else a
  }
}
