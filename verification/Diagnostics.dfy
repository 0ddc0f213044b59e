/** The J1939-73 diagnostic codec: trouble codes, lamps, and the DM1/DM2 payload
    that carries them. */
module Diagnostics {
  import opened Types
  import opened Arith
  import Bits
  import opened Buffers

  const LAMP_LEN := 2
  const DTC_LEN := 4
  const FRAME_LEN := 8
  const MAX_SPN: U32 := 0x7_FFFF
  const MAX_FMI: Byte := 0x1F
  const MAX_OCCURRENCE_COUNT: Byte := 0x7F

  datatype Lamp = MalfunctionIndicator | RedStop | AmberWarning | Protect

  datatype LampStatus = Off | On | Reserved | NotAvailable

  /** A status byte and a flash byte, two bits for each lamp in both. */
  datatype Lamps = Lamps(status: Byte, flash: Byte)

  const ALL_OFF := Lamps(0, 0)

  /** Two to the power the lamp's field is shifted by. */
  function Place(lamp: Lamp): (w: int)
    ensures w == 64 || w == 16 || w == 4 || w == 1
  {
    match lamp
    case MalfunctionIndicator => 64
    case RedStop => 16
    case AmberWarning => 4
    case Protect => 1
  }

  function StatusFromBits(bits: nat): LampStatus {
    match bits % 4
    case 0 => Off
    case 1 => On
    case 2 => Reserved
    case _ => NotAvailable
  }

  function StatusToBits(s: LampStatus): (bits: nat)
    ensures bits < 4 && StatusFromBits(bits) == s
  {
    match s
    case Off => 0
    case On => 1
    case Reserved => 2
    case NotAvailable => 3
  }

  function FieldOf(b: Byte, lamp: Lamp): nat {
    b / Place(lamp) % 4
  }

  /** The byte with one lamp's two bits replaced. */
  function SetField(b: Byte, lamp: Lamp, bits: nat): (r: Byte)
    requires bits < 4
    ensures forall other :: FieldOf(r, other) == if other == lamp then bits else FieldOf(b, other)
  {
    var r := b - FieldOf(b, lamp) * Place(lamp) + bits * Place(lamp);
    FieldsOfSum(b, lamp, bits);
    r
  }

  /** A byte is the sum of its four fields. */
  lemma ByteIsItsFields(b: Byte)
    ensures b == FieldOf(b, MalfunctionIndicator) * 64 + FieldOf(b, RedStop) * 16
              + FieldOf(b, AmberWarning) * 4 + FieldOf(b, Protect)
  {
    var upperThree, upperTwo, top := b / 4, b / 16, b / 64;
    assert b == upperThree * 4 + FieldOf(b, Protect);
    assert upperTwo == upperThree / 4 && upperThree == upperTwo * 4 + FieldOf(b, AmberWarning);
    assert top == upperTwo / 4 && upperTwo == top * 4 + FieldOf(b, RedStop);
  }

  lemma FieldsAre(m: nat, r: nat, a: nat, p: nat)
    requires m < 4 && r < 4 && a < 4 && p < 4
    ensures var b := m * 64 + r * 16 + a * 4 + p;
      && b < 256
      && FieldOf(b, MalfunctionIndicator) == m && FieldOf(b, RedStop) == r
      && FieldOf(b, AmberWarning) == a && FieldOf(b, Protect) == p
  {
  }

  lemma FieldsOfSum(b: Byte, lamp: Lamp, bits: nat)
    requires bits < 4
    ensures var r := b - FieldOf(b, lamp) * Place(lamp) + bits * Place(lamp);
      0 <= r < 256 && forall other :: FieldOf(r, other) == if other == lamp then bits else FieldOf(b, other)
  {
    var m, r := FieldOf(b, MalfunctionIndicator), FieldOf(b, RedStop);
    var a, p := FieldOf(b, AmberWarning), FieldOf(b, Protect);
    ByteIsItsFields(b);
    match lamp
    case MalfunctionIndicator => FieldsAre(bits, r, a, p);
    case RedStop => FieldsAre(m, bits, a, p);
    case AmberWarning => FieldsAre(m, r, bits, p);
    case Protect => FieldsAre(m, r, a, bits);
  }

  function Status(l: Lamps, lamp: Lamp): LampStatus {
    StatusFromBits(FieldOf(l.status, lamp))
  }

  function FlashStatus(l: Lamps, lamp: Lamp): LampStatus {
    StatusFromBits(FieldOf(l.flash, lamp))
  }

  /** One lamp's status replaced, every other lamp and all flashing kept. */
  function WithStatus(l: Lamps, lamp: Lamp, s: LampStatus): (r: Lamps)
    ensures forall other :: Status(r, other) == if other == lamp then s else Status(l, other)
    ensures forall other :: FlashStatus(r, other) == FlashStatus(l, other)
  {
    Lamps(SetField(l.status, lamp, StatusToBits(s)), l.flash)
  }

  function WithFlashStatus(l: Lamps, lamp: Lamp, s: LampStatus): (r: Lamps)
    ensures forall other :: FlashStatus(r, other) == if other == lamp then s else FlashStatus(l, other)
    ensures forall other :: Status(r, other) == Status(l, other)
  {
    Lamps(l.status, SetField(l.flash, lamp, StatusToBits(s)))
  }

  /** Two bits for each lamp: the protect lamp in the lowest, then the amber
      warning, the red stop and the malfunction indicator lamp. */
  lemma LampLayout(b: Byte, lamp: Lamp)
    ensures FieldOf(b, lamp) ==
      (match lamp
       case Protect => Bits.Slice([b], 0, 2)
       case AmberWarning => Bits.Slice([b], 2, 2)
       case RedStop => Bits.Slice([b], 4, 2)
       case MalfunctionIndicator => Bits.Slice([b], 6, 2))
  {
    Powers();
    assert [b][1..] == [] && Bits.LeInt([b]) == b;
    Bits.SliceOfInt([b], 0, 2);
    Bits.SliceOfInt([b], 2, 2);
    Bits.SliceOfInt([b], 4, 2);
    Bits.SliceOfInt([b], 6, 2);
  }

  /** The eight fields determine the two bytes. */
  lemma LampsAreTheirFields(l: Lamps, r: Lamps)
    ensures l == r <==>
      forall lamp :: Status(l, lamp) == Status(r, lamp) && FlashStatus(l, lamp) == FlashStatus(r, lamp)
  {
    if forall lamp :: Status(l, lamp) == Status(r, lamp) && FlashStatus(l, lamp) == FlashStatus(r, lamp) {
      forall lamp: Lamp
        ensures FieldOf(l.status, lamp) == FieldOf(r.status, lamp) && FieldOf(l.flash, lamp) == FieldOf(r.flash, lamp)
      {
        assert Status(l, lamp) == Status(r, lamp) && FlashStatus(l, lamp) == FlashStatus(r, lamp);
      }
      ByteIsItsFields(l.status);
      ByteIsItsFields(r.status);
      ByteIsItsFields(l.flash);
      ByteIsItsFields(r.flash);
    }
  }

  // ------------------------------------------------------------ trouble codes

  /** A trouble code, in the machine widths its fields are stored in. */
  datatype Dtc = Dtc(spn: U32, fmi: Byte, occurrenceCount: Byte, conversionMethod: bool)

  /** What an empty code list is reported as. */
  const NO_FAULT := Dtc(0, 0, 0, false)

  predicate InRange(d: Dtc) {
    d.spn <= MAX_SPN && d.fmi <= MAX_FMI && d.occurrenceCount <= MAX_OCCURRENCE_COUNT
  }

  function NewDtc(spn: U32, fmi: Byte, count: Byte): (r: Result<Dtc>)
    ensures r.Ok? ==> InRange(r.value) && r.value == Dtc(spn, fmi, count, true)
  {
    if spn > MAX_SPN || fmi > MAX_FMI || count > MAX_OCCURRENCE_COUNT then Err(InvalidDtc)
    else Ok(Dtc(spn, fmi, count, true))
  }

  predicate IsNoFault(d: Dtc) {
    (d.spn == 0 && d.fmi == 0) || (d.spn == MAX_SPN && d.fmi == MAX_FMI)
  }

  function EncodeDtc(d: Dtc): (b: seq<Byte>)
    ensures |b| == DTC_LEN
  {
    [d.spn % 256,
     d.spn / 256 % 256,
     d.spn / 2048 % 256 / 32 * 32 + d.fmi % 32,
     (if d.conversionMethod then 128 else 0) + d.occurrenceCount % 128]
  }

  function DecodeDtc(b: seq<Byte>): (d: Dtc)
    requires |b| == DTC_LEN
    ensures InRange(d)
  {
    Dtc((b[2] as int) / 32 * 65536 + (b[1] as int) * 256 + b[0], b[2] % 32, b[3] % 128, b[3] / 128 == 1)
  }

  lemma SpnFromBytes(spn: nat)
    requires spn <= MAX_SPN
    ensures spn / 2048 % 256 / 32 * 65536 + spn / 256 % 256 * 256 + spn % 256 == spn
  {
    var low, mid := spn % 256, spn / 256;
    assert spn == mid * 256 + low;
    assert spn / 2048 == mid / 8;
    assert mid == mid / 256 * 256 + mid % 256;
    assert mid / 8 / 32 == mid / 256;
  }

  /** A code survives its four bytes exactly when its fields fit their bits. */
  lemma DtcRoundTrip(d: Dtc)
    ensures DecodeDtc(EncodeDtc(d)) == d <==> InRange(d)
  {
    if InRange(d) {
      SpnFromBytes(d.spn);
    }
  }

  lemma WordParts(b0: Byte, b1: Byte, b2: Byte, b3: Byte, n: nat)
    requires n == b0 + 256 * b1 + 0x1_0000 * b2 + 0x100_0000 * b3
    ensures n % 0x1_0000 == b0 + 256 * b1
    ensures n / 0x1_0000 % 32 == b2 % 32
    ensures n / 0x20_0000 % 8 == b2 / 32
    ensures n / 0x100_0000 == b3
  {
    var upper := b2 + 256 * b3;
    DivIs(n, 0x1_0000, upper);
    DivIs(upper, 32, b2 / 32 + 8 * b3);
    DivIs(n, 0x20_0000, b2 / 32 + 8 * b3);
    DivIs(n, 0x100_0000, b3);
  }

  lemma WordOf(b: seq<Byte>)
    requires |b| == 4
    ensures Bits.LeInt(b) == b[0] + 256 * (b[1] as int) + 0x1_0000 * (b[2] as int) + 0x100_0000 * (b[3] as int)
  {
    assert b[1..] == [b[1], b[2], b[3]];
    assert [b[1], b[2], b[3]][1..] == [b[2], b[3]] && [b[2], b[3]][1..] == [b[3]] && [b[3]][1..] == [];
    assert Bits.LeInt([b[3]]) == b[3];
    assert Bits.LeInt([b[2], b[3]]) == b[2] + 256 * (b[3] as int);
  }

  lemma Powers()
    ensures Bits.Pow2(0) == 1 && Bits.Pow2(2) == 4 && Bits.Pow2(3) == 8 && Bits.Pow2(4) == 16 && Bits.Pow2(5) == 32
    ensures Bits.Pow2(6) == 64 && Bits.Pow2(7) == 128 && Bits.Pow2(16) == 0x1_0000
    ensures Bits.Pow2(21) == 0x20_0000 && Bits.Pow2(24) == 0x100_0000
  {
    Bits.PowSum(2, 2);
    Bits.PowSum(3, 2);
    Bits.PowSum(3, 3);
    Bits.PowSum(3, 4);
    Bits.EightMoreBits(0, 8);
    Bits.EightMoreBits(8, 16);
    Bits.EightMoreBits(16, 24);
    Bits.PowSum(16, 5);
  }

  lemma LowFieldsInBits(b: seq<Byte>)
    requires |b| == 4
    ensures Bits.Slice(b, 0, 16) == b[0] + 256 * (b[1] as int)
    ensures Bits.Slice(b, 16, 5) == b[2] % 32
    ensures Bits.Slice(b, 21, 3) == b[2] / 32
  {
    Powers();
    WordOf(b);
    var n := Bits.LeInt(b);
    WordParts(b[0], b[1], b[2], b[3], n);
    Bits.SliceOfInt(b, 0, 16);
    DivIs(n, 1, n);
    Bits.SliceOfInt(b, 16, 5);
    Bits.SliceOfInt(b, 21, 3);
  }

  lemma HighFieldsInBits(b: seq<Byte>)
    requires |b| == 4
    ensures Bits.Slice(b, 24, 7) == b[3] % 128
    ensures Bits.Bit(b, 31) == b[3] / 128
  {
    Powers();
    WordOf(b);
    WordParts(b[0], b[1], b[2], b[3], Bits.LeInt(b));
    Bits.SliceOfInt(b, 24, 7);
    Bits.BitIsInByte(b, 31);
    Bits.BitOfIs(b[3], 7);
  }

  /** Where its fields stand in the four bytes, counted in bits from the lowest of
      the first byte: the parameter in bits 0 to 15 and 21 to 23, the failure mode
      in 16 to 20, the count in 24 to 30 and the conversion flag in 31. */
  lemma DtcLayout(d: Dtc)
    requires InRange(d)
    ensures var b := EncodeDtc(d);
      && Bits.Slice(b, 0, 16) + 0x1_0000 * Bits.Slice(b, 21, 3) == d.spn
      && Bits.Slice(b, 16, 5) == d.fmi
      && Bits.Slice(b, 24, 7) == d.occurrenceCount
      && Bits.Bit(b, 31) == if d.conversionMethod then 1 else 0
  {
    var b := EncodeDtc(d);
    LowFieldsInBits(b);
    HighFieldsInBits(b);
    DtcRoundTrip(d);
    assert DecodeDtc(b) == d;
  }

  lemma SpnBytes(high: nat, mid: Byte, low: Byte)
    requires high < 8
    ensures var spn := high * 65536 + (mid as int) * 256 + low;
      spn % 256 == low && spn / 256 % 256 == mid && spn / 2048 % 256 / 32 == high
  {
    var spn := high * 65536 + (mid as int) * 256 + low;
    assert spn / 256 == high * 256 + mid;
    assert spn / 2048 == high * 32 + mid / 8;
  }

  lemma DtcBytesRoundTrip(b: seq<Byte>)
    requires |b| == DTC_LEN
    ensures EncodeDtc(DecodeDtc(b)) == b
  {
    SpnBytes(b[2] / 32, b[1], b[0]);
  }

  // ---------------------------------------------------------------- messages

  function Codes(dtcs: seq<Dtc>): (b: seq<Byte>)
    ensures |b| == |dtcs| * 4
  {
    if dtcs == [] then [] else EncodeDtc(dtcs[0]) + Codes(dtcs[1..])
  }

  function BodyLen(count: nat): nat {
    LAMP_LEN + count * 4
  }

  /** A message never takes less than a whole CAN frame. */
  function EncodedLen(count: nat): nat {
    if count <= 1 then Max(BodyLen(count), FRAME_LEN) else BodyLen(count)
  }

  /** The bytes of a DM1 or DM2: lamps, codes, and 0xFF up to a whole frame. */
  function Payload(lamps: Lamps, dtcs: seq<Dtc>): (b: seq<Byte>)
    ensures |b| == EncodedLen(|dtcs|)
  {
    [lamps.status, lamps.flash] + Codes(dtcs) + seq(EncodedLen(|dtcs|) - BodyLen(|dtcs|), _ => 0xFF)
  }

  lemma {:induction false} CodesSnoc(dtcs: seq<Dtc>, d: Dtc)
    ensures Codes(dtcs + [d]) == Codes(dtcs) + EncodeDtc(d)
  {
    if dtcs == [] {
      assert [d][1..] == [];
    } else {
      assert (dtcs + [d])[1..] == dtcs[1..] + [d];
      CodesSnoc(dtcs[1..], d);
    }
  }

  /** Fill with 0xFF behind the front. */
  method Pad(out: array<Byte>, ghost before: seq<Byte>, ghost front: seq<Byte>, from: nat, to: nat)
    requires from == |front| && from <= to <= out.Length
    requires Overwritten(out[..], before, front)
    modifies out
    ensures Overwritten(out[..], before, front + seq(to - from, _ => 0xFF as Byte))
  {
    var k := from;
    ghost var filled := front;
    while k < to
      invariant from <= k <= to
      invariant filled == front + seq(k - from, _ => 0xFF as Byte)
      invariant Overwritten(out[..], before, filled)
    {
      CopyInto(out, before, filled, k, [0xFF]);
      filled := filled + [0xFF];
      k := k + 1;
    }
  }

  /** Write the codes one after another behind the front. */
  method WriteCodes(out: array<Byte>, ghost before: seq<Byte>, ghost front: seq<Byte>, from: nat, dtcs: seq<Dtc>)
    requires from == |front| && from + |dtcs| * 4 <= out.Length
    requires Overwritten(out[..], before, front)
    modifies out
    ensures Overwritten(out[..], before, front + Codes(dtcs))
  {
    ghost var written := front;
    var i := 0;
    while i < |dtcs|
      invariant 0 <= i <= |dtcs|
      invariant written == front + Codes(dtcs[..i])
      invariant Overwritten(out[..], before, written)
    {
      CodesSnoc(dtcs[..i], dtcs[i]);
      assert dtcs[..i + 1] == dtcs[..i] + [dtcs[i]];
      CopyInto(out, before, written, from + i * 4, EncodeDtc(dtcs[i]));
      written := written + EncodeDtc(dtcs[i]);
      i := i + 1;
    }
    assert dtcs[..i] == dtcs;
  }

  /** Write a DM1 or DM2 into a caller's buffer. */
  method Encode(lamps: Lamps, dtcs: seq<Dtc>, out: array<Byte>) returns (r: Result<nat>)
    modifies out
    ensures Written(r, Payload(lamps, dtcs), old(out[..]), out[..])
  {
    var body := LAMP_LEN + |dtcs| * 4;
    var len := if |dtcs| <= 1 then Max(body, FRAME_LEN) else body;
    if out.Length < len {
      return Err(ShortPayload(len, out.Length));
    }
    ghost var before := out[..];
    ghost var front := [lamps.status, lamps.flash];
    CopyInto(out, before, [], 0, [lamps.status, lamps.flash]);
    assert [] + front == front;
    WriteCodes(out, before, front, LAMP_LEN, dtcs);
    front := front + Codes(dtcs);
    Pad(out, before, front, body, len);
    assert front + seq(len - body, _ => 0xFF as Byte) == Payload(lamps, dtcs);
    r := Ok(len);
  }

  /** A parsed message: its lamps and the bytes its codes are read from. */
  datatype DmMessage = DmMessage(lamps: Lamps, dtcBytes: seq<Byte>)

  function Parse(data: seq<Byte>): Result<DmMessage> {
    if |data| < LAMP_LEN then Err(ShortPayload(LAMP_LEN, |data|))
    else Ok(DmMessage(Lamps(data[0], data[1]), data[2..]))
  }

  /** Every whole code; bytes that do not make up one are ignored. */
  function DecodeAll(b: seq<Byte>): (dtcs: seq<Dtc>)
    ensures |dtcs| == |b| / 4
  {
    if |b| < 4 then [] else [DecodeDtc(b[..4])] + DecodeAll(b[4..])
  }

  function Dtcs(m: DmMessage): seq<Dtc> {
    DecodeAll(m.dtcBytes)
  }

  predicate IsFaultFree(m: DmMessage) {
    var dtcs := Dtcs(m);
    |dtcs| == 0 || (IsNoFault(dtcs[0]) && |dtcs| == 1)
  }

  ghost predicate AllInRange(dtcs: seq<Dtc>) {
    forall d :: d in dtcs ==> InRange(d)
  }

  /** Decoding printed codes, followed by less than one whole code. */
  lemma {:induction false} CodesRoundTrip(dtcs: seq<Dtc>, tail: seq<Byte>)
    requires |tail| < 4
    ensures DecodeAll(Codes(dtcs) + tail) == dtcs <==> AllInRange(dtcs)
  {
    if dtcs == [] {
      assert Codes(dtcs) + tail == tail;
    } else {
      var b := Codes(dtcs) + tail;
      assert b[..4] == EncodeDtc(dtcs[0]);
      assert b[4..] == Codes(dtcs[1..]) + tail;
      DtcRoundTrip(dtcs[0]);
      CodesRoundTrip(dtcs[1..], tail);
      assert dtcs == [dtcs[0]] + dtcs[1..];
      assert DecodeAll(b) == [DecodeDtc(b[..4])] + DecodeAll(b[4..]);
      assert DecodeAll(b)[1..] == DecodeAll(b[4..]);
    }
  }

  lemma PaddingReadsAsOneCode()
    ensures DecodeAll([0xFF, 0xFF, 0xFF, 0xFF, 0xFF, 0xFF]) == [Dtc(MAX_SPN, MAX_FMI, MAX_OCCURRENCE_COUNT, true)]
  {
    var b: seq<Byte> := [0xFF, 0xFF, 0xFF, 0xFF, 0xFF, 0xFF];
    assert b[..4] == [0xFF, 0xFF, 0xFF, 0xFF];
    assert DecodeAll(b[4..]) == [];
  }

  /** What is printed is read back, lamps and codes in order, for every list but
      the empty one: its padding is read as one all-ones placeholder. */
  lemma PayloadRoundTrip(lamps: Lamps, dtcs: seq<Dtc>)
    ensures var m := Parse(Payload(lamps, dtcs));
      && m.Ok? && m.value.lamps == lamps
      && (Dtcs(m.value) == dtcs <==> dtcs != [] && AllInRange(dtcs))
      && (dtcs == [] ==> Dtcs(m.value) == [Dtc(MAX_SPN, MAX_FMI, MAX_OCCURRENCE_COUNT, true)])
  {
    var b := Payload(lamps, dtcs);
    var tail := seq(EncodedLen(|dtcs|) - BodyLen(|dtcs|), _ => 0xFF as Byte);
    assert b[2..] == Codes(dtcs) + tail;
    if dtcs == [] {
      assert tail == [0xFF, 0xFF, 0xFF, 0xFF, 0xFF, 0xFF];
      PaddingReadsAsOneCode();
    } else {
      CodesRoundTrip(dtcs, tail);
    }
  }

  lemma {:induction false} DecodedCodesReencode(b: seq<Byte>)
    requires |b| % 4 == 0
    ensures Codes(DecodeAll(b)) == b
  {
    if |b| >= 4 {
      DtcBytesRoundTrip(b[..4]);
      DecodedCodesReencode(b[4..]);
      assert DecodeAll(b)[1..] == DecodeAll(b[4..]);
      assert b == b[..4] + b[4..];
    }
  }

  /** Which payloads are exactly what their own parse would print: a frame
      with its padding, or ten bytes and more with no bytes left over. */
  predicate IsCanonical(data: seq<Byte>) {
    if |data| == 8 then data[6] == 0xFF && data[7] == 0xFF
    else |data| >= 10 && (|data| - 2) % 4 == 0
  }

  lemma ReencodedPayload(data: seq<Byte>)
    requires |data| >= LAMP_LEN
    ensures var m := Parse(data).value;
      Payload(m.lamps, Dtcs(m)) == data <==> IsCanonical(data)
  {
    var n := (|data| - 2) / 4;
    PayloadOfParse(data);
    var p := data[..2 + n * 4] + seq(EncodedLen(n) - BodyLen(n), _ => 0xFF as Byte);
    if |data| == 8 {
      assert p == data[..6] + [0xFF, 0xFF];
      assert data == data[..6] + data[6..];
      assert p == data <==> data[6..] == [0xFF, 0xFF];
    } else if |data| == 2 + n * 4 {
      assert data == data[..2 + n * 4];
    }
  }

  /** Printing a parsed payload keeps its whole codes and pads them afresh. */
  lemma PayloadOfParse(data: seq<Byte>)
    requires |data| >= LAMP_LEN
    ensures var m, n := Parse(data).value, (|data| - 2) / 4;
      Payload(m.lamps, Dtcs(m)) == data[..2 + n * 4] + seq(EncodedLen(n) - BodyLen(n), _ => 0xFF as Byte)
  {
    var n := (|data| - 2) / 4;
    var body := data[2..][..n * 4];
    WholeCodesOnly(data[2..]);
    DecodedCodesReencode(body);
    assert data[..2 + n * 4] == [data[0], data[1]] + body;
  }

  lemma {:induction false} WholeCodesOnly(b: seq<Byte>)
    ensures DecodeAll(b) == DecodeAll(b[..|b| / 4 * 4])
  {
    if |b| >= 4 {
      var w := b[..|b| / 4 * 4];
      assert w[..4] == b[..4];
      assert w[4..] == b[4..][..|b[4..]| / 4 * 4];
      WholeCodesOnly(b[4..]);
    } else {
      assert b[..0] == [];
    }
  }

  /** A printed list reads as fault-free exactly when it is empty or holds one
      code that is a placeholder. */
  lemma PrintedFaultFree(lamps: Lamps, dtcs: seq<Dtc>)
    requires AllInRange(dtcs)
    ensures IsFaultFree(Parse(Payload(lamps, dtcs)).value) <==> dtcs == [] || (|dtcs| == 1 && IsNoFault(dtcs[0]))
  {
    PayloadRoundTrip(lamps, dtcs);
  }
}
