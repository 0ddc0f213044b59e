/** What crosses the bus: the 29-bit identifier, the eight-byte frame, and the
    transport protocol's two payloads. */
module Wire {
  import opened Types
  import opened Arith
  import opened Bits
  import opened TpSpec

  const TP_CM: Pgn := 0xEC00
  const TP_DT: Pgn := 0xEB00
  const REQUEST: Pgn := 0xEA00
  const ADDRESS_CLAIMED: Pgn := 0xEE00
  const DM1: Pgn := 0xFECA

  const MAX_PAYLOAD := 8

  // ------------------------------------------------------------ identifiers

  type Priority = p: int | 0 <= p < 8
  type Id = x: int | 0 <= x < 0x2000_0000

  const DEFAULT_PRIORITY: Priority := 6
  const LOWEST_PRIORITY: Priority := 7

  function IdFromParts(priority: Priority, pgn: Pgn, destination: Address, source: Address): Result<Id> {
    if !IsPdu1(pgn) && destination != GLOBAL_ADDRESS then Err(DestinationMismatch)
    else Ok(priority * 0x400_0000 + pgn * 0x100 + (if IsPdu1(pgn) then destination * 0x100 else 0) + source)
  }

  function PriorityOf(id: Id): Priority {
    id / 0x400_0000 % 8
  }

  function PgnOf(id: Id): Pgn {
    PgnMasked(id / 0x100 % 0x4_0000)
  }

  function SourceOf(id: Id): Address {
    id % 0x100
  }

  /** The destination byte, which only a destination-specific group has. */
  function DestinationOf(id: Id): Option<Address> {
    if id / 0x1_0000 % 0x100 < 0xF0 then Some(id / 0x100 % 0x100) else None
  }

  predicate IsBroadcast(id: Id) {
    var d := DestinationOf(id);
    d.None? || d.value == GLOBAL_ADDRESS
  }

  predicate IsAddressedTo(id: Id, a: Address) {
    IsBroadcast(id) || DestinationOf(id) == Some(a)
  }

  /** The identifier is one number written in mixed radix. */
  lemma IdDigits(priority: Priority, group: nat, specific: Byte, source: Address)
    requires group < 0x400
    ensures var id := priority * 0x400_0000 + group * 0x1_0000 + specific * 0x100 + source;
      && 0 <= id < 0x2000_0000
      && id / 0x400_0000 % 8 == priority
      && id / 0x100 % 0x4_0000 == group * 0x100 + specific
      && id / 0x1_0000 % 0x100 == group % 0x100
      && id / 0x100 % 0x100 == specific
      && id % 0x100 == source
  {
    var id := priority * 0x400_0000 + group * 0x1_0000 + specific * 0x100 + source;
    assert id / 0x100 == priority * 0x4_0000 + group * 0x100 + specific;
    assert id / 0x1_0000 == priority * 0x400 + group;
  }

  /** Masking clears the byte only of a destination-specific group. */
  lemma MaskedPgn(group: nat, low: Byte)
    requires group < 0x400
    ensures IsPdu1(group * 0x100 + low) <==> group % 0x100 < 0xF0
    ensures PgnMasked(group * 0x100 + low) == group * 0x100 + (if group % 0x100 < 0xF0 then 0 else low)
  {
    var raw := group * 0x100 + low;
    assert raw / 0x100 == group && raw % 0x100 == low;
    assert raw < 0x4_0000;
  }

  lemma PgnDigits(pgn: Pgn)
    ensures pgn / 0x100 < 0x400 && pgn == pgn / 0x100 * 0x100 + pgn % 0x100
    ensures IsPdu1(pgn) <==> pgn / 0x100 % 0x100 < 0xF0
  {
  }

  /** Every identifier that can be built is read back, field by field. */
  lemma IdRoundTrip(priority: Priority, pgn: Pgn, destination: Address, source: Address)
    ensures var id := IdFromParts(priority, pgn, destination, source);
      && (id.Ok? <==> IsPdu1(pgn) || destination == GLOBAL_ADDRESS)
      && (id.Ok? ==>
            && PriorityOf(id.value) == priority
            && PgnOf(id.value) == pgn
            && SourceOf(id.value) == source
            && DestinationOf(id.value) == (if IsPdu1(pgn) then Some(destination) else None)
            && (IsBroadcast(id.value) <==> destination == GLOBAL_ADDRESS))
  {
    var group := pgn / 0x100;
    var specific := if IsPdu1(pgn) then destination else pgn % 0x100;
    PgnDigits(pgn);
    MaskedPgn(group, specific);
    IdDigits(priority, group, specific, source);
    if IsPdu1(pgn) || destination == GLOBAL_ADDRESS {
      assert priority * 0x400_0000 + pgn * 0x100 + (if IsPdu1(pgn) then destination * 0x100 else 0) + source
        == priority * 0x400_0000 + group * 0x1_0000 + specific * 0x100 + source;
    }
  }

  /** And every identifier is what its fields build: nothing of it is lost. */
  lemma FieldsRebuildId(id: Id)
    ensures var destination := if DestinationOf(id).Some? then DestinationOf(id).value else GLOBAL_ADDRESS;
      IdFromParts(PriorityOf(id), PgnOf(id), destination, SourceOf(id)) == Ok(id)
  {
    var priority, group, specific, source := id / 0x400_0000, id / 0x1_0000 % 0x400, id / 0x100 % 0x100, id % 0x100;
    SumOfDigits(id);
    assert id / 0x1_0000 == priority * 0x400 + group;
    IdDigits(priority, group, specific, source);
    MaskedPgn(group, specific);
    MaskedPgn(group, 0);
  }

  // ----------------------------------------------------------------- frames

  type Octets = b: seq<Byte> | |b| == 8 witness [0, 0, 0, 0, 0, 0, 0, 0]

  /** A frame keeps all eight bytes, unused ones 0xFF, and its length. */
  datatype Frame = Frame(id: Id, payload: Octets, len: nat)

  function Filled(data: seq<Byte>): (b: Octets)
    requires |data| <= MAX_PAYLOAD
    ensures b[..|data|] == data
  {
    data + seq(MAX_PAYLOAD - |data|, _ => FILL)
  }

  function NewFrame(id: Id, data: seq<Byte>): (r: Result<Frame>)
    ensures r.Ok? <==> |data| <= MAX_PAYLOAD
    ensures r.Ok? ==> Data(r.value) == data
  {
    if |data| > MAX_PAYLOAD then Err(ShortPayload(MAX_PAYLOAD, |data|))
    else Ok(Frame(id, Filled(data), |data|))
  }

  function FromPayload(id: Id, payload: Octets): Frame {
    Frame(id, payload, MAX_PAYLOAD)
  }

  /** The payload trimmed to the frame's length. */
  function Data(f: Frame): seq<Byte> {
    f.payload[..Min(f.len, 8)]
  }

  // ------------------------------------------------- connection management

  const CB_RTS: Byte := 0x10
  const CB_CTS: Byte := 0x11
  const CB_EOM_ACK: Byte := 0x13
  const CB_BAM: Byte := 0x20
  const CB_ABORT: Byte := 0xFF

  function ReasonToByte(r: AbortReason): Byte {
    match r
    case AlreadyInSession => 1
    case ResourcesUnavailable => 2
    case Timeout => 3
    case UnexpectedCts => 4
    case RetransmitLimit => 5
    case UnexpectedDataPacket => 6
    case BadSequenceNumber => 7
    case DuplicateSequenceNumber => 8
    case Other(raw) => raw
  }

  function ReasonFromByte(b: Byte): (r: AbortReason)
    ensures ReasonToByte(r) == b
  {
    match b
    case 1 => AlreadyInSession
    case 2 => ResourcesUnavailable
    case 3 => Timeout
    case 4 => UnexpectedCts
    case 5 => RetransmitLimit
    case 6 => UnexpectedDataPacket
    case 7 => BadSequenceNumber
    case 8 => DuplicateSequenceNumber
    case _ => Other(b)
  }

  /** Three bytes, the lowest first. */
  function Three(n: U24): (b: seq<Byte>)
    ensures |b| == 3
  {
    [n % 0x100, n / 0x100 % 0x100, n / 0x1_0000]
  }

  function FromThree(low: Byte, mid: Byte, high: Byte): U24 {
    (low as int) + (mid as int) * 0x100 + (high as int) * 0x1_0000
  }

  lemma ThreeRoundTrip(n: U24)
    ensures FromThree(Three(n)[0], Three(n)[1], Three(n)[2]) == n
  {
    SumOfDigits(n);
  }

  function PgnBytes(p: Pgn): seq<Byte> {
    Three(p)
  }

  function PgnFromBytes(low: Byte, mid: Byte, high: Byte): Pgn {
    PgnMasked(FromThree(low, mid, high))
  }

  lemma PgnRoundTrip(p: Pgn)
    ensures PgnFromBytes(PgnBytes(p)[0], PgnBytes(p)[1], PgnBytes(p)[2]) == p
  {
    ThreeRoundTrip(p);
    Normalised(p);
  }

  lemma Normalised(p: Pgn)
    ensures PgnMasked(p) == p
  {
  }

  lemma SumOfDigits(p: nat)
    ensures p == p % 0x100 + p / 0x100 % 0x100 * 0x100 + p / 0x1_0000 * 0x1_0000
  {
    var mid := p / 0x100;
    assert p == mid * 0x100 + p % 0x100;
    assert mid == mid / 0x100 * 0x100 + mid % 0x100;
    assert mid / 0x100 == p / 0x1_0000;
  }

  function Low(size: U16): Byte {
    size % 0x100
  }

  function High(size: U16): Byte {
    size / 0x100
  }

  function EncodeCm(cm: TpCm): Octets {
    (match cm
     case Rts(size, packets, max, _) => [CB_RTS, Low(size), High(size), packets, max]
     case Cts(packets, next, _) => [CB_CTS, packets, next, FILL, FILL]
     case EndOfMsgAck(size, packets, _) => [CB_EOM_ACK, Low(size), High(size), packets, FILL]
     case Bam(size, packets, _) => [CB_BAM, Low(size), High(size), packets, FILL]
     case Abort(reason, _) => [CB_ABORT, ReasonToByte(reason), FILL, FILL, FILL]) + PgnBytes(cm.pgn)
  }

  function DecodeCm(b: Octets): Result<TpCm> {
    var pgn := PgnFromBytes(b[5], b[6], b[7]);
    var size := (b[1] as int) + (b[2] as int) * 0x100;
    match b[0]
    case 0x10 => Ok(Rts(size, b[3], b[4], pgn))
    case 0x11 => Ok(Cts(b[1], b[2], pgn))
    case 0x13 => Ok(EndOfMsgAck(size, b[3], pgn))
    case 0x20 => Ok(Bam(size, b[3], pgn))
    case 0xFF => Ok(Abort(ReasonFromByte(b[1]), pgn))
    case _ => Err(UnknownControlByte(b[0]))
  }

  /** Where its parts stand: the kind in byte 1, a size in bytes 2 and 3, counts
      and numbers in a byte each, the group in the last three, low bytes first. */
  lemma CmLayout(cm: TpCm)
    ensures var b := EncodeCm(cm);
      && LeInt(b[5..8]) == cm.pgn
      && match cm
         case Rts(size, packets, max, _) => b[0] == 16 && LeInt(b[1..3]) == size && b[3] == packets && b[4] == max
         case Cts(packets, next, _) => b[0] == 17 && b[1] == packets && b[2] == next && b[3] == b[4] == 255
         case EndOfMsgAck(size, packets, _) => b[0] == 19 && LeInt(b[1..3]) == size && b[3] == packets && b[4] == 255
         case Bam(size, packets, _) => b[0] == 32 && LeInt(b[1..3]) == size && b[3] == packets && b[4] == 255
         case Abort(_, _) => b[0] == 255 && b[2] == b[3] == b[4] == 255
  {
    var b := EncodeCm(cm);
    assert b[5..8] == PgnBytes(cm.pgn);
    ThreeIsLittleEndian(cm.pgn);
    if cm.Rts? || cm.EndOfMsgAck? || cm.Bam? {
      assert b[1..3] == [Low(cm.size), High(cm.size)];
      TwoAreLittleEndian(Low(cm.size), High(cm.size));
    }
  }

  lemma TwoAreLittleEndian(low: Byte, high: Byte)
    ensures LeInt([low, high]) == low + 256 * high
  {
    assert [low, high][1..] == [high] && [high][1..] == [];
    assert LeInt([high]) == high;
  }

  lemma ThreeIsLittleEndian(n: U24)
    ensures LeInt(Three(n)) == n
  {
    var b := Three(n);
    assert b[1..] == [b[1], b[2]];
    TwoAreLittleEndian(b[1], b[2]);
    SumOfDigits(n);
  }

  /** A message survives the wire unless it is an abort whose "other" reason
      is one of the eight bytes that have a name of their own. */
  lemma CmRoundTrip(cm: TpCm)
    ensures DecodeCm(EncodeCm(cm)) == Ok(cm) <==> !(cm.Abort? && cm.reason.Other? && 1 <= cm.reason.raw <= 8)
  {
    PgnRoundTrip(cm.pgn);
  }

  /** For example, this one comes back as a timeout. */
  lemma OtherThreeIsATimeout(pgn: Pgn)
    ensures DecodeCm(EncodeCm(Abort(Other(3), pgn))) == Ok(Abort(Timeout, pgn))
  {
    PgnRoundTrip(pgn);
  }

  /** Reserved bytes that are not 0xFF, and a group number that is not in its
      normal form, are what decoding drops; nothing else is. */
  predicate IsCanonicalCm(b: Octets) {
    var raw := FromThree(b[5], b[6], b[7]);
    && PgnMasked(raw) == raw
    && (b[0] == CB_CTS ==> b[3] == FILL && b[4] == FILL)
    && (b[0] == CB_EOM_ACK || b[0] == CB_BAM ==> b[4] == FILL)
    && (b[0] == CB_ABORT ==> b[2] == FILL && b[3] == FILL && b[4] == FILL)
  }

  lemma PgnBytesRoundTrip(low: Byte, mid: Byte, high: Byte)
    ensures PgnBytes(PgnFromBytes(low, mid, high)) == [low, mid, high]
      <==> PgnMasked(FromThree(low, mid, high)) == FromThree(low, mid, high)
  {
    var raw := FromThree(low, mid, high);
    var p := PgnMasked(raw);
    ThreeOfFromThree(low, mid, high);
    ThreeRoundTrip(p);
    if Three(p) == [low, mid, high] {
      assert Three(p)[0] == low && Three(p)[1] == mid && Three(p)[2] == high;
    }
  }

  lemma ThreeOfFromThree(low: Byte, mid: Byte, high: Byte)
    ensures Three(FromThree(low, mid, high)) == [low, mid, high]
  {
    var raw := FromThree(low, mid, high);
    var upper := mid + high * 0x100;
    DigitBelow(raw, low, upper);
    DigitBelow(upper, mid, high);
    TwoDigitsDown(raw);
  }

  lemma DigitBelow(n: nat, digit: Byte, rest: nat)
    requires n == digit + rest * 0x100
    ensures n % 0x100 == digit && n / 0x100 == rest
  {
    DivIs(n, 0x100, rest);
  }

  lemma TwoDigitsDown(n: nat)
    ensures n / 0x1_0000 == n / 0x100 / 0x100
  {
    var upper := n / 0x100;
    var top := upper / 0x100;
    assert n == upper * 0x100 + n % 0x100;
    assert upper == top * 0x100 + upper % 0x100;
    DivIs(n, 0x1_0000, top);
  }

  lemma DecodedCmReencodes(b: Octets)
    requires DecodeCm(b).Ok?
    ensures EncodeCm(DecodeCm(b).value) == b <==> IsCanonicalCm(b)
  {
    var e := EncodeCm(DecodeCm(b).value);
    PgnBytesRoundTrip(b[5], b[6], b[7]);
    assert e[5..] == PgnBytes(PgnFromBytes(b[5], b[6], b[7]));
    assert b[5..] == [b[5], b[6], b[7]];
    assert e == e[..5] + e[5..] && b == b[..5] + b[5..];
    assert b[..5] == [b[0], b[1], b[2], b[3], b[4]];
  }

  // ----------------------------------------------------------- data packets

  function EncodeDt(dt: TpDt): Octets {
    [dt.sequence] + dt.data
  }

  function DecodeDt(b: Octets): TpDt {
    TpDt(b[0], b[1..])
  }

  lemma DtRoundTrip(dt: TpDt, b: Octets)
    ensures DecodeDt(EncodeDt(dt)) == dt
    ensures EncodeDt(DecodeDt(b)) == b
  {
  }

  /** The group a Request asks for. */
  function DecodeRequest(data: seq<Byte>): Result<Pgn> {
    if |data| < 3 then Err(ShortPayload(3, |data|))
    else Ok(PgnFromBytes(data[0], data[1], data[2]))
  }
}
