/** Bit fields of a DBC signal in both byte orders: extraction, the length it
    needs, and sign extension. */
module Signal {
  import opened Types
  import opened Arith
  import opened Bits

  datatype ByteOrder = LittleEndian | BigEndian

  datatype Signal = Signal(startBit: U16, bitLength: U16, byteOrder: ByteOrder)

  datatype Reading =
    | Raw(value: U32)
    | TooWide(bits: U16)
    | TooShort(expected: nat, actual: nat)

  function RequiredLen(s: Signal): nat {
    match s.byteOrder
    case LittleEndian => (s.startBit + s.bitLength + 7) / 8
    case BigEndian =>
      var startByte, bitsInStart := s.startBit / 8, s.startBit % 8 + 1;
      if s.bitLength <= bitsInStart then startByte + 1
      else startByte + 1 + (s.bitLength - bitsInStart + 7) / 8
  }

  /** The next bit of a Motorola field: down within a byte, then to the top of
      the byte after it. */
  function Down(position: nat): nat {
    if position % 8 == 0 then position + 15 else position - 1
  }

  function Walk(start: nat, steps: nat): nat {
    if steps == 0 then start else Down(Walk(start, steps - 1))
  }

  /** The i-th bit the extraction reads, counted from where the field starts.
      A little-endian index is a sixteen-bit sum. */
  function Touched(s: Signal, i: nat): nat {
    match s.byteOrder
    case LittleEndian => (s.startBit + i) % 0x1_0000
    case BigEndian => Walk(s.startBit, i)
  }

  // ------------------------------------------------------------ how a field lies

  /** Bits counted from the most significant one of the payload. */
  function FromTop(position: nat): nat {
    if position < 8 then 7 - position else 8 + FromTop(position - 8)
  }

  lemma {:induction false} FromTopOf(byte: nat, bit: nat)
    requires bit < 8
    ensures FromTop(8 * byte + bit) == 8 * byte + 7 - bit
  {
    if byte > 0 {
      FromTopOf(byte - 1, bit);
    }
  }

  lemma FromTopIs(position: nat)
    ensures FromTop(position) == position / 8 * 8 + (7 - position % 8)
    ensures FromTop(position) / 8 == position / 8 && FromTop(position) % 8 == 7 - position % 8
  {
    FromTopOf(position / 8, position % 8);
    DivIs(FromTop(position), 8, position / 8);
  }

  lemma {:induction false} TopStaysIn(position: nat, bytes: nat)
    requires position < 8 * bytes
    ensures FromTop(position) < 8 * bytes
    decreases position
  {
    if position >= 8 {
      TopStaysIn(position - 8, bytes - 1);
    }
  }

  lemma DownIsOneFurther(position: nat)
    ensures FromTop(Down(position)) == FromTop(position) + 1
  {
    FromTopIs(position);
    FromTopIs(Down(position));
  }

  /** A Motorola walk is a straight line from the top. */
  lemma {:induction false} WalkIsStraight(start: nat, steps: nat)
    ensures FromTop(Walk(start, steps)) == FromTop(start) + steps
  {
    if steps > 0 {
      WalkIsStraight(start, steps - 1);
      DownIsOneFurther(Walk(start, steps - 1));
    }
  }

  lemma WalkByte(start: nat, steps: nat)
    ensures Walk(start, steps) / 8 == (start / 8 * 8 + (7 - start % 8) + steps) / 8
  {
    WalkIsStraight(start, steps);
    FromTopIs(start);
    FromTopIs(Walk(start, steps));
  }

  /** The straight positions, without the sixteen-bit sum. */
  function Meant(s: Signal, i: nat): nat {
    match s.byteOrder
    case LittleEndian => s.startBit + i
    case BigEndian => Walk(s.startBit, i)
  }

  /** A payload is long enough exactly when it holds every byte the field lies
      in: the length asked for is the last of them plus one. */
  lemma RequiredLenIsTheLastByte(s: Signal, len: nat)
    requires s.bitLength >= 1
    ensures len >= RequiredLen(s) <==> forall i: nat :: i < s.bitLength ==> Meant(s, i) / 8 < len
    ensures RequiredLen(s) == Meant(s, s.bitLength - 1) / 8 + 1
  {
    var last := s.bitLength - 1;
    if s.byteOrder.BigEndian? {
      WalkByte(s.startBit, last);
    }
    if len >= RequiredLen(s) {
      forall i: nat | i < s.bitLength ensures Meant(s, i) / 8 < len {
        if s.byteOrder.BigEndian? {
          WalkByte(s.startBit, i);
        }
      }
    } else {
      assert Meant(s, last) / 8 >= len;
    }
  }

  lemma InPayload(s: Signal, data: seq<Byte>, i: nat)
    requires i < s.bitLength && |data| >= RequiredLen(s)
    ensures Meant(s, i) < 8 * |data| && Touched(s, i) < 8 * |data|
  {
    RequiredLenIsTheLastByte(s, |data|);
    assert Meant(s, i) / 8 < |data|;
  }

  // ------------------------------------------------------------- extraction

  /** The little-endian loop: bit i of the result is the bit at start + i, the
      sum taken in sixteen bits. */
  function ReadUp(s: Signal, data: seq<Byte>, n: nat): (r: nat)
    requires s.byteOrder.LittleEndian? && n <= s.bitLength && |data| >= RequiredLen(s)
    ensures r < Pow2(n)
  {
    if n == 0 then 0
    else
      InPayload(s, data, n - 1);
      ReadUp(s, data, n - 1) + At(Bit(data, Touched(s, n - 1)), n - 1)
  }

  /** The Motorola loop: each bit goes in below those before it. */
  function ReadDown(s: Signal, data: seq<Byte>, n: nat): (r: nat)
    requires s.byteOrder.BigEndian? && n <= s.bitLength && |data| >= RequiredLen(s)
    ensures r < Pow2(n)
  {
    if n == 0 then 0
    else
      InPayload(s, data, n - 1);
      ReadDown(s, data, n - 1) * 2 + Bit(data, Touched(s, n - 1))
  }

  function RawOf(s: Signal, data: seq<Byte>): Reading {
    if s.bitLength == 0 || s.bitLength > 32 then TooWide(s.bitLength)
    else if |data| < RequiredLen(s) then TooShort(RequiredLen(s), |data|)
    else
      PowGrows(s.bitLength, 32);
      WordSize();
      Raw(if s.byteOrder.LittleEndian? then ReadUp(s, data, s.bitLength) else ReadDown(s, data, s.bitLength))
  }

  lemma WordSize()
    ensures Pow2(16) == 0x1_0000 && Pow2(31) == 0x8000_0000 && Pow2(32) == 0x1_0000_0000
  {
    PowSum(8, 8);
    PowSum(16, 16);
    PowSum(4, 4);
    assert Pow2(32) == 2 * Pow2(31);
  }

  /** Pull a signal's raw bits out of a payload. */
  method Extract(s: Signal, data: seq<Byte>) returns (r: Reading)
    ensures r == RawOf(s, data)
  {
    if s.bitLength == 0 || s.bitLength > 32 {
      return TooWide(s.bitLength);
    }
    var needed := RequiredLen(s);
    if |data| < needed {
      return TooShort(needed, |data|);
    }
    PowGrows(s.bitLength, 32);
    WordSize();
    var raw: nat;
    if s.byteOrder.LittleEndian? {
      raw := ExtractUp(s, data);
    } else {
      raw := ExtractDown(s, data);
    }
    r := Raw(raw);
  }

  method ExtractUp(s: Signal, data: seq<Byte>) returns (raw: nat)
    requires s.byteOrder.LittleEndian? && |data| >= RequiredLen(s)
    ensures raw == ReadUp(s, data, s.bitLength)
  {
    raw := 0;
    for i := 0 to s.bitLength
      invariant raw == ReadUp(s, data, i)
    {
      InPayload(s, data, i);
      var index := (s.startBit + i) % 0x1_0000;
      BitIsInByte(data, index);
      raw := raw + At(BitOf(data[index / 8], index % 8), i);
    }
  }

  method ExtractDown(s: Signal, data: seq<Byte>) returns (raw: nat)
    requires s.byteOrder.BigEndian? && |data| >= RequiredLen(s)
    ensures raw == ReadDown(s, data, s.bitLength)
  {
    raw := 0;
    var position: nat := s.startBit;
    for i := 0 to s.bitLength
      invariant raw == ReadDown(s, data, i)
      invariant position == Walk(s.startBit, i)
    {
      InPayload(s, data, i);
      BitIsInByte(data, position);
      raw := raw * 2 + BitOf(data[position / 8], position % 8);
      position := Down(position);
    }
  }

  // ---------------------------------------------------------- what it means

  /** The number a field stands for: a slice of the payload read as one
      little-endian, or one big-endian, integer. */
  function FieldValue(s: Signal, data: seq<Byte>): nat
    requires s.bitLength >= 1 && |data| >= RequiredLen(s)
  {
    match s.byteOrder
    case LittleEndian => LeSlice(data, s.startBit, s.bitLength)
    case BigEndian =>
      WalkInPayload(s, data, s.bitLength);
      BeSlice(data, 8 * |data| - FromTop(s.startBit) - s.bitLength, s.bitLength)
  }

  lemma WalkInPayload(s: Signal, data: seq<Byte>, n: nat)
    requires s.byteOrder.BigEndian? && 1 <= n <= s.bitLength && |data| >= RequiredLen(s)
    ensures FromTop(s.startBit) + n <= 8 * |data|
    ensures Walk(s.startBit, n - 1) < 8 * |data|
  {
    InPayload(s, data, n - 1);
    WalkIsStraight(s.startBit, n - 1);
    TopStaysIn(Walk(s.startBit, n - 1), |data|);
  }

  lemma NoWrap(s: Signal, i: nat)
    requires s.byteOrder.LittleEndian? && s.startBit + i < 0x1_0000
    ensures Touched(s, i) == s.startBit + i == Meant(s, i)
  {
  }

  lemma {:induction false} ReadUpIsSlice(s: Signal, data: seq<Byte>, n: nat)
    requires s.byteOrder.LittleEndian? && n <= s.bitLength && |data| >= RequiredLen(s)
    requires s.startBit + s.bitLength <= 0x1_0000
    ensures s.startBit + n <= 8 * |data| && ReadUp(s, data, n) == Slice(data, s.startBit, n)
  {
    if n > 0 {
      ReadUpIsSlice(s, data, n - 1);
      InPayload(s, data, n - 1);
      NoWrap(s, n - 1);
    }
  }

  /** A slice can be read from its low end, too. */
  lemma {:induction false} SliceFromLow(data: seq<Byte>, start: nat, width: nat)
    requires width >= 1 && start + width <= 8 * |data|
    ensures Slice(data, start, width) == Bit(data, start) + 2 * Slice(data, start + 1, width - 1)
  {
    if width > 1 {
      SliceFromLow(data, start, width - 1);
    } else {
      assert Slice(data, start, 0) == 0;
    }
  }

  /** A bit from the top is a bit from the bottom of the reversed payload. */
  lemma BitFromTop(data: seq<Byte>, position: nat)
    requires position < 8 * |data|
    ensures FromTop(position) < 8 * |data|
    ensures Bit(data, position) == Bit(Reversed(data), 8 * |data| - 1 - FromTop(position))
  {
    FromTopIs(position);
    var k := 8 * |data| - 1 - FromTop(position);
    assert k / 8 == |data| - 1 - position / 8;
    assert k % 8 == position % 8;
    BitIsInByte(data, position);
    BitIsInByte(Reversed(data), k);
  }

  /** The n-th bit of a walk, from the bottom of the reversed payload. */
  lemma WalkFromBottom(s: Signal, data: seq<Byte>, n: nat)
    requires s.byteOrder.BigEndian? && 1 <= n <= s.bitLength && |data| >= RequiredLen(s)
    ensures FromTop(s.startBit) + n <= 8 * |data|
    ensures Walk(s.startBit, n - 1) < 8 * |data|
    ensures Bit(data, Walk(s.startBit, n - 1)) == Bit(Reversed(data), 8 * |data| - FromTop(s.startBit) - n)
  {
    WalkInPayload(s, data, n);
    WalkIsStraight(s.startBit, n - 1);
    BitFromTop(data, Walk(s.startBit, n - 1));
  }

  lemma {:induction false} ReadDownIsSlice(s: Signal, data: seq<Byte>, n: nat, bottom: nat)
    requires s.byteOrder.BigEndian? && n <= s.bitLength && |data| >= RequiredLen(s)
    requires bottom + n == 8 * |data| - FromTop(s.startBit)
    ensures ReadDown(s, data, n) == Slice(Reversed(data), bottom, n)
    decreases n
  {
    if n > 0 {
      ReadDownIsSlice(s, data, n - 1, bottom + 1);
      ReadDownStep(s, data, n, bottom);
      SliceFromLow(Reversed(data), bottom, n);
    }
  }

  lemma ReadDownStep(s: Signal, data: seq<Byte>, n: nat, bottom: nat)
    requires s.byteOrder.BigEndian? && 1 <= n <= s.bitLength && |data| >= RequiredLen(s)
    requires bottom + n == 8 * |data| - FromTop(s.startBit)
    ensures ReadDown(s, data, n) == ReadDown(s, data, n - 1) * 2 + Bit(Reversed(data), bottom)
  {
    WalkFromBottom(s, data, n);
  }

  /** For every payload, start bit and width: the Motorola walk reads its slice
      of the big-endian integer, and the little-endian loop its slice of the
      little-endian one as long as the field ends within 65536 bits. */
  lemma ExtractIsFieldValue(s: Signal, data: seq<Byte>)
    requires 1 <= s.bitLength <= 32 && |data| >= RequiredLen(s)
    requires s.byteOrder.LittleEndian? ==> s.startBit + s.bitLength <= 0x1_0000
    ensures RawOf(s, data).Raw? && RawOf(s, data).value == FieldValue(s, data)
  {
    if s.byteOrder.LittleEndian? {
      ReadUpIsSlice(s, data, s.bitLength);
      SliceOfInt(data, s.startBit, s.bitLength);
    } else {
      MotorolaIsFieldValue(s, data);
    }
  }

  lemma MotorolaIsFieldValue(s: Signal, data: seq<Byte>)
    requires s.byteOrder.BigEndian? && s.bitLength >= 1 && |data| >= RequiredLen(s)
    ensures ReadDown(s, data, s.bitLength) == FieldValue(s, data)
  {
    WalkFromBottom(s, data, s.bitLength);
    var bottom := 8 * |data| - FromTop(s.startBit) - s.bitLength;
    ReadDownIsSlice(s, data, s.bitLength, bottom);
    SliceOfBe(data, bottom, s.bitLength);
  }

  /** All zero but for bit 65536. */
  function Beyond(): (data: seq<Byte>)
    ensures |data| == 8196
  {
    seq(8196, i => if i == 8192 then 1 else 0)
  }

  lemma {:induction false} ZeroBit(k: nat)
    ensures BitOf(0, k) == 0
  {
    if k > 0 {
      ZeroBit(k - 1);
    }
  }

  lemma BeyondIsZeroBelow(k: nat)
    requires k < 0x1_0000
    ensures Bit(Beyond(), k) == 0
  {
    BitIsInByte(Beyond(), k);
    assert Beyond()[k / 8] == 0;
    ZeroBit(k % 8);
  }

  /** Past bit 65535 the sixteen-bit index comes round to the front of the
      payload, and reads zeros there instead of the one that is set. */
  lemma {:induction false} WrapsRound(s: Signal, n: nat)
    requires s.byteOrder.LittleEndian? && 1 <= s.bitLength <= 32 && n <= s.bitLength
    ensures RequiredLen(s) <= 8196
    ensures ReadUp(s, Beyond(), n) == 0
  {
    if n > 0 {
      WrapsRound(s, n - 1);
      BeyondIsZeroBelow(Touched(s, n - 1));
    }
  }

  lemma {:induction false} SliceAtLeast(data: seq<Byte>, start: nat, width: nat, i: nat)
    requires start + width <= 8 * |data| && i < width && Bit(data, start + i) == 1
    ensures Slice(data, start, width) > 0
  {
    if i < width - 1 {
      SliceAtLeast(data, start, width - 1, i);
    }
  }

  ghost predicate IsReadRight(s: Signal, data: seq<Byte>)
    requires 1 <= s.bitLength <= 32 && |data| >= RequiredLen(s)
  {
    RawOf(s, data).Raw? && RawOf(s, data).value == FieldValue(s, data)
  }

  /** Exactly which little-endian fields are read right from every payload. */
  lemma LittleEndianIsExactUpTo65536(s: Signal)
    requires s.byteOrder.LittleEndian? && 1 <= s.bitLength <= 32
    ensures (forall data :: |data| >= RequiredLen(s) ==> IsReadRight(s, data))
      <==> s.startBit + s.bitLength <= 0x1_0000
  {
    if s.startBit + s.bitLength <= 0x1_0000 {
      forall data | |data| >= RequiredLen(s) ensures IsReadRight(s, data) {
        ExtractIsFieldValue(s, data);
      }
    } else {
      WrapsRound(s, 0);
      BeyondIsMisread(s);
    }
  }

  /** A field that reaches past bit 65535 is read wrong from this payload. */
  lemma BeyondIsMisread(s: Signal)
    requires s.byteOrder.LittleEndian? && 1 <= s.bitLength <= 32 && s.startBit + s.bitLength > 0x1_0000
    requires RequiredLen(s) <= 8196
    ensures !IsReadRight(s, Beyond())
  {
    WrapsRound(s, s.bitLength);
    BeyondIsNotZero(s);
  }

  lemma BeyondIsSetAt(k: nat)
    requires k == 0x1_0000
    ensures Bit(Beyond(), k) == 1
  {
    assert k / 8 == 8192 && k % 8 == 0;
    BitIsInByte(Beyond(), k);
  }

  lemma BeyondIsNotZero(s: Signal)
    requires s.byteOrder.LittleEndian? && 1 <= s.bitLength <= 32 && s.startBit + s.bitLength > 0x1_0000
    requires RequiredLen(s) <= 8196
    ensures FieldValue(s, Beyond()) > 0
  {
    var i := 0x1_0000 - s.startBit;
    BeyondIsSetAt(s.startBit + i);
    SliceAtLeast(Beyond(), s.startBit, s.bitLength, i);
    SliceOfInt(Beyond(), s.startBit, s.bitLength);
  }

  // ------------------------------------------------------- sign extension

  /** The raw bits as a two's-complement number. */
  function SignExtend(raw: U32, width: nat): int
    requires 1 <= width
  {
    if width >= 32 then (if raw < 0x8000_0000 then raw else raw - 0x1_0000_0000)
    else if raw / Pow2(width - 1) % 2 == 0 then (if raw < 0x8000_0000 then raw else raw - 0x1_0000_0000)
    else raw % Pow2(width) - Pow2(width)
  }

  /** It is the one number of the signed range that is congruent to the bits. */
  lemma SignExtendIsTwosComplement(raw: U32, width: nat, v: int)
    requires 1 <= width <= 32 && raw < Pow2(width)
    ensures SignExtend(raw, width) == v <==>
      -(Pow2(width - 1) as int) <= v < Pow2(width - 1) && (v - raw) % Pow2(width) == 0
  {
    var half := Pow2(width - 1);
    WordSize();
    assert Pow2(width) == 2 * half;
    PowGrows(width - 1, 31);
    Halves(raw, half);
    OneInRange(raw, SignExtend(raw, width), v, half);
  }

  /** A number below 2h has its top bit set exactly from h on. */
  lemma Halves(raw: nat, half: nat)
    requires half > 0 && raw < 2 * half
    ensures raw / half % 2 == (if raw < half then 0 else 1)
    ensures raw % (2 * half) == raw
  {
    DivIs(raw, half, if raw < half then 0 else 1);
    DivIs(raw, 2 * half, 0);
  }

  lemma OneInRange(raw: nat, w: int, v: int, half: nat)
    requires half > 0 && raw < 2 * half && w == (if raw < half then raw else raw - 2 * half)
    ensures v == w <==> -(half as int) <= v < half && (v - raw) % (2 * half) == 0
  {
    var m := 2 * half;
    DivIs(w - raw, m, if raw < half then 0 else -1);
    if -(half as int) <= v < half && (v - raw) % m == 0 {
      var k := (v - raw) / m;
      assert v - raw == k * m;
      if k >= 1 {
        MulLe(1, k, m);
      } else if k <= -2 {
        MulLe(k, -2, m);
      }
    }
  }
}
