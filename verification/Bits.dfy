/** A payload as one number: its little-endian value, its bits, and slices. */
module Bits {
  import opened Types
  import opened Arith

  function Pow2(n: nat): (p: nat)
    ensures p > 0
  {
    if n == 0 then 1 else 2 * Pow2(n - 1)
  }

  lemma {:induction false} PowSum(a: nat, b: nat)
    ensures Pow2(a + b) == Pow2(a) * Pow2(b)
  {
    if a > 0 {
      PowSum(a - 1, b);
      assert 2 * Pow2(a - 1) * Pow2(b) == 2 * (Pow2(a - 1) * Pow2(b));
    }
  }

  lemma {:induction false} PowGrows(a: nat, b: nat)
    requires a <= b
    ensures Pow2(a) <= Pow2(b)
    decreases b
  {
    if a < b {
      PowGrows(a, b - 1);
    }
  }

  /** Dividing twice is dividing by the product. */
  lemma DivDiv(x: nat, a: nat, b: nat)
    requires a > 0 && b > 0
    ensures a * b > 0 && x / a / b == x / (a * b)
  {
    MulLe(1, a, b);
    var q := x / a / b;
    var r, s := x / a % b, x % a;
    assert x == (q * b + r) * a + s;
    assert (q * b + r) * a == q * (a * b) + r * a;
    MulLe(r, b - 1, a);
    assert (b - 1) * a == a * b - a;
    MulLe(0, r, a);
    DivIs(x, a * b, q);
  }

  /** The low bits of a number grow by its next bit. */
  lemma NextBit(x: nat, a: nat)
    requires a > 0
    ensures x % (2 * a) == x % a + x / a % 2 * a
  {
    DivDiv(x, a, 2);
    assert x == x / a * a + x % a;
    assert x / a == x / a / 2 * 2 + x / a % 2;
    assert x / a * a == x / a / 2 * (2 * a) + x / a % 2 * a;
    assert x == x / (2 * a) * (2 * a) + x % (2 * a);
  }

  /** The payload as one little-endian integer. */
  function LeInt(data: seq<Byte>): nat {
    if data == [] then 0 else data[0] + 256 * LeInt(data[1..])
  }

  function BitOf(n: nat, k: nat): (b: nat)
    ensures b < 2
    decreases k
  {
    if k == 0 then n % 2 else BitOf(n / 2, k - 1)
  }

  lemma {:induction false} BitOfIs(n: nat, k: nat)
    ensures BitOf(n, k) == n / Pow2(k) % 2
    decreases k
  {
    if k > 0 {
      BitOfIs(n / 2, k - 1);
      DivDiv(n, 2, Pow2(k - 1));
    } else {
      DivIs(n, 1, n);
    }
  }

  /** Bit k of a payload, counted byte by byte from the first. */
  function Bit(data: seq<Byte>, k: nat): (b: nat)
    requires k < 8 * |data|
    ensures b < 2
    decreases k
  {
    if k < 8 then BitOf(data[0], k) else Bit(data[1..], k - 8)
  }

  /** It is bit k % 8 of byte k / 8. */
  lemma {:induction false} BitIsInByte(data: seq<Byte>, k: nat)
    requires k < 8 * |data|
    ensures Bit(data, k) == BitOf(data[k / 8], k % 8)
    decreases k
  {
    if k >= 8 {
      BitIsInByte(data[1..], k - 8);
      assert data[1..][(k - 8) / 8] == data[k / 8];
    }
  }

  lemma FirstByteBit(data: seq<Byte>, k: nat)
    requires k < 8 && data != []
    ensures Bit(data, k) == LeInt(data) / Pow2(k) % 2
  {
    PowSum(k, 8 - k);
    PowSum(1, 7 - k);
    assert Pow2(8) == 256 by { PowSum(4, 4); }
    LowBits(data[0], LeInt(data[1..]), Pow2(k), Pow2(7 - k));
    BitOfIs(data[0], k);
  }

  lemma EightMoreBits(less: nat, more: nat)
    requires more == less + 8
    ensures Pow2(more) == 256 * Pow2(less)
  {
    assert Pow2(8) == 256 by { PowSum(4, 4); }
    PowSum(8, less);
  }

  lemma LaterByteBit(data: seq<Byte>, k: nat, less: nat)
    requires 8 <= k < 8 * |data| && k == less + 8
    ensures LeInt(data) / Pow2(k) == LeInt(data[1..]) / Pow2(less)
  {
    EightMoreBits(less, k);
    HighBits(data[0], LeInt(data[1..]), Pow2(less));
  }

  /** Bit k of the payload is bit k of the integer. */
  lemma {:induction false} BitOfInt(data: seq<Byte>, k: nat)
    requires k < 8 * |data|
    ensures Bit(data, k) == LeInt(data) / Pow2(k) % 2
    decreases |data|
  {
    if k < 8 {
      FirstByteBit(data, k);
    } else {
      LaterByteBit(data, k, k - 8);
      BitOfInt(data[1..], k - 8);
    }
  }

  lemma HighBits(low: Byte, rest: nat, a: nat)
    requires a > 0
    ensures 256 * a > 0 && (low + 256 * rest) / (256 * a) == rest / a
  {
    DivDiv(low + 256 * rest, 256, a);
    DivIs(low + 256 * rest, 256, rest);
  }

  lemma LowBits(low: Byte, rest: nat, a: nat, half: nat)
    requires a > 0 && a * (2 * half) == 256
    ensures (low + 256 * rest) / a % 2 == low / a % 2
  {
    var q, r := low / a, low % a;
    assert low == q * a + r;
    assert 256 * rest == (2 * half * rest) * a by {
      assert 2 * half * rest * a == a * (2 * half) * rest;
    }
    assert (q + 2 * half * rest) * a == q * a + 2 * half * rest * a;
    DivIs(low + 256 * rest, a, q + 2 * half * rest);
    var h := half * rest;
    assert 2 * half * rest == 2 * h;
  }

  /** A bit shifted into place k. */
  function At(bit: nat, k: nat): nat {
    if bit == 0 then 0 else Pow2(k)
  }

  /** `width` bits from bit `start` on, the first the least significant. */
  function Slice(data: seq<Byte>, start: nat, width: nat): nat
    requires start + width <= 8 * |data|
  {
    if width == 0 then 0
    else Slice(data, start, width - 1) + At(Bit(data, start + width - 1), width - 1)
  }

  lemma SliceStep(n: nat, start: nat, width: nat, bit: nat)
    requires bit == n / Pow2(start + width) % 2
    ensures n / Pow2(start) % Pow2(width + 1) == n / Pow2(start) % Pow2(width) + At(bit, width)
  {
    var a, b := Pow2(start), Pow2(width);
    PowSum(start, width);
    DivDiv(n, a, b);
    NextBit(n / a, b);
  }

  /** A slice of bits is a slice of the integer. */
  lemma {:induction false} SliceOfInt(data: seq<Byte>, start: nat, width: nat)
    requires start + width <= 8 * |data|
    ensures Slice(data, start, width) == LeInt(data) / Pow2(start) % Pow2(width)
  {
    if width > 0 {
      SliceOfInt(data, start, width - 1);
      BitOfInt(data, start + (width - 1));
      SliceStep(LeInt(data), start, width - 1, Bit(data, start + (width - 1)));
    }
  }

  // ---------------------------------------------------------- big-endian

  /** The payload as one big-endian integer. */
  function BeInt(data: seq<Byte>): nat {
    if data == [] then 0 else BeInt(data[..|data| - 1]) * 256 + data[|data| - 1]
  }

  function Reversed(data: seq<Byte>): (r: seq<Byte>)
    ensures |r| == |data| && forall i :: 0 <= i < |data| ==> r[i] == data[|data| - 1 - i]
  {
    seq(|data|, i requires 0 <= i < |data| => data[|data| - 1 - i])
  }

  lemma {:induction false} BeIsLeReversed(data: seq<Byte>)
    ensures BeInt(data) == LeInt(Reversed(data))
  {
    if data != [] {
      BeIsLeReversed(data[..|data| - 1]);
      assert Reversed(data)[1..] == Reversed(data[..|data| - 1]);
    }
  }

  /** `width` bits of the little-endian integer, from bit `start` on. */
  function LeSlice(data: seq<Byte>, start: nat, width: nat): nat {
    LeInt(data) / Pow2(start) % Pow2(width)
  }

  /** `width` bits of the big-endian integer, down to bit `bottom`. */
  function BeSlice(data: seq<Byte>, bottom: nat, width: nat): nat {
    BeInt(data) / Pow2(bottom) % Pow2(width)
  }

  lemma SliceOfBe(data: seq<Byte>, bottom: nat, width: nat)
    requires bottom + width <= 8 * |data|
    ensures Slice(Reversed(data), bottom, width) == BeSlice(data, bottom, width)
  {
    BeIsLeReversed(data);
    SliceOfInt(Reversed(data), bottom, width);
  }
}
