/** A suspect parameter: its raw field, told apart from the status codes at the
    top of its range. */
module Spn {
  import opened Types
  import opened Arith
  import opened Bits
  import S = Signal

  const MAX_BIT_LENGTH: U16 := 32

  datatype RawValue = Valid(raw: U32) | Reserved | Error | NotAvailable

  /** A field classified against the reserved values of its width. */
  function Classify(raw: U32, width: nat): RawValue
    requires 1 <= width <= MAX_BIT_LENGTH
  {
    if width == 1 then Valid(raw)
    else if width == 2 then (if raw <= 1 then Valid(raw) else if raw == 2 then Error else NotAvailable)
    else if width == 4 then
      (if raw <= 0xA then Valid(raw) else if raw <= 0xD then Reserved else if raw == 0xE then Error else NotAvailable)
    else if width == 8 then ByTopByte(raw, raw)
    else if width < 8 then
      var max := Pow2(width) - 1;
      if raw == max then NotAvailable else if raw == max - 1 then Error else Valid(raw)
    else ByTopByte(raw, raw / Pow2(width - 8))
  }

  function ByTopByte(raw: U32, top: nat): RawValue {
    if top <= 0xFA then Valid(raw) else if top <= 0xFD then Reserved else if top == 0xFE then Error else NotAvailable
  }

  /** Where the bands of a width begin: the first value that is not valid, the
      first that is the error code, and the first that means not available. */
  function Bands(width: nat): (nat, nat, nat)
    requires 1 <= width <= MAX_BIT_LENGTH
  {
    if width == 1 then (2, 2, 2)
    else if width == 4 then (0xB, 0xE, 0xF)
    else if width >= 8 then (0xFB * Pow2(width - 8), 0xFE * Pow2(width - 8), 0xFF * Pow2(width - 8))
    else
      PowGrows(1, width);
      (Pow2(width) - 2, Pow2(width) - 2, Pow2(width) - 1)
  }

  lemma TopByteFrom(raw: nat, top: nat, unit: nat)
    requires unit > 0
    ensures raw / unit >= top <==> raw >= top * unit
  {
    assert raw == raw / unit * unit + raw % unit;
    if raw / unit >= top {
      MulLe(top, raw / unit, unit);
    } else {
      MulLe(raw / unit + 1, top, unit);
    }
  }

  lemma SmallPowers()
    ensures Pow2(0) == 1 && Pow2(2) == 4 && Pow2(3) == 8 && Pow2(4) == 16
  {
  }

  /** Every value a field can hold falls in exactly one band, in the order
      valid, reserved, error, not available; and a valid one is itself. */
  lemma ClassifyIsByBands(raw: U32, width: nat)
    requires 1 <= width <= MAX_BIT_LENGTH && raw < Pow2(width)
    ensures var (status, error, absent) := Bands(width);
      && status <= error <= absent
      && Classify(raw, width) ==
           if raw < status then Valid(raw)
           else if raw < error then Reserved
           else if raw < absent then Error
           else NotAvailable
  {
    SmallPowers();
    if width >= 8 {
      var unit := Pow2(width - 8);
      TopByteFrom(raw, 0xFB, unit);
      TopByteFrom(raw, 0xFE, unit);
      TopByteFrom(raw, 0xFF, unit);
      if width == 8 {
        DivIs(raw, 1, raw);
      }
    } else if width == 2 || width == 3 || width >= 5 {
      PowGrows(2, width);
    }
  }

  lemma LastBandIsNotAvailable(raw: U32, width: nat)
    requires 1 <= width <= MAX_BIT_LENGTH && Bands(width).2 <= raw < Pow2(width)
    ensures Classify(raw, width) == NotAvailable
  {
    ClassifyIsByBands(raw, width);
  }

  lemma AllOnesIsInTheLastBand(width: nat)
    requires 2 <= width <= MAX_BIT_LENGTH
    ensures Bands(width).2 <= Pow2(width) - 1
  {
    if width == 4 {
      SmallPowers();
    } else if width >= 8 {
      var unit := Pow2(width - 8);
      EightMoreBits(width - 8, width);
      assert 0x100 * unit == 0xFF * unit + unit;
    }
  }

  /** All ones means not available, in every field wide enough to say so. */
  lemma AllOnesIsNotAvailable(raw: nat, width: nat)
    requires 2 <= width <= MAX_BIT_LENGTH && raw + 1 == Pow2(width)
    ensures raw <= U32_MAX
    ensures Classify(raw, width) == NotAvailable
  {
    PowGrows(width, 32);
    S.WordSize();
    AllOnesIsInTheLastBand(width);
    LastBandIsNotAvailable(raw, width);
  }

  const LENGTH_FIELD := "spn bit_length"

  function ExtractOf(startBit: U16, bitLength: U16, data: seq<Byte>): Result<RawValue> {
    var field := S.Signal(startBit, bitLength, S.LittleEndian);
    if bitLength == 0 || bitLength > MAX_BIT_LENGTH then Err(ValueOutOfRange(LENGTH_FIELD, bitLength))
    else if |data| < S.RequiredLen(field) then Err(ShortPayload(S.RequiredLen(field), |data|))
    else
      PowGrows(bitLength, 32);
      S.WordSize();
      Ok(Classify(S.ReadUp(field, data, bitLength), bitLength))
  }

  /** Pull a parameter's raw field out of a payload and classify it. */
  method Extract(startBit: U16, bitLength: U16, data: seq<Byte>) returns (r: Result<RawValue>)
    ensures r == ExtractOf(startBit, bitLength, data)
  {
    if bitLength == 0 || bitLength > MAX_BIT_LENGTH {
      return Err(ValueOutOfRange(LENGTH_FIELD, bitLength));
    }
    var field := S.Signal(startBit, bitLength, S.LittleEndian);
    var needed := S.RequiredLen(field);
    if |data| < needed {
      return Err(ShortPayload(needed, |data|));
    }
    PowGrows(bitLength, 32);
    S.WordSize();
    var raw := S.ExtractUp(field, data);
    r := Ok(Classify(raw, bitLength));
  }

  /** What is classified is the slice of the payload's little-endian integer. */
  lemma ExtractClassifiesTheField(startBit: U16, bitLength: U16, data: seq<Byte>)
    requires 1 <= bitLength <= MAX_BIT_LENGTH && startBit + bitLength <= 0x1_0000
    requires startBit + bitLength <= 8 * |data|
    ensures LeSlice(data, startBit, bitLength) < Pow2(bitLength) <= 0x1_0000_0000
    ensures ExtractOf(startBit, bitLength, data) == Ok(Classify(LeSlice(data, startBit, bitLength), bitLength))
  {
    PowGrows(bitLength, 32);
    S.WordSize();
    var field := S.Signal(startBit, bitLength, S.LittleEndian);
    S.ReadUpIsSlice(field, data, bitLength);
    SliceOfInt(data, startBit, bitLength);
  }
}
