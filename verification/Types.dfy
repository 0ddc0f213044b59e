/** The value types the protocol modules share: machine integers with their
    widths, addresses, parameter group numbers and the crate's error type. */
module Types {

  type Byte = x: int | 0 <= x < 0x100
  type U16 = x: int | 0 <= x < 0x1_0000
  type U24 = x: int | 0 <= x < 0x100_0000
  type U32 = x: int | 0 <= x < 0x1_0000_0000
  type U64 = x: int | 0 <= x < 0x1_0000_0000_0000_0000

  const U8_MAX: Byte := 0xFF
  const U16_MAX: U16 := 0xFFFF
  const U32_MAX: U32 := 0xFFFF_FFFF

  /** A node address; 0xFE and 0xFF are reserved. */
  type Address = Byte

  const NULL_ADDRESS: Address := 0xFE
  const GLOBAL_ADDRESS: Address := 0xFF

  predicate IsSpecific(a: Address) {
    a < 0xFE
  }

  /** An 18-bit parameter group number. A destination-specific (PDU1) group has
      its low byte cleared, because that byte carries a destination. */
  type Pgn = p: int | 0 <= p < 0x4_0000 && (IsPdu1(p) ==> p % 0x100 == 0)

  predicate IsPdu1(raw: nat) {
    raw / 0x100 % 0x100 < 0xF0
  }

  /** Mask to 18 bits and clear the byte a PDU1 group does not own. */
  function PgnMasked(raw: nat): (p: Pgn) {
    var r := raw % 0x4_0000;
    if IsPdu1(r) then r - r % 0x100 else r
  }

  datatype Option<+T> = None | Some(value: T)

  datatype Error =
    | DestinationMismatch
    | ShortPayload(expected: nat, actual: nat)
    | InvalidMessageSize(size: U16)
    | UnknownControlByte(control: Byte)
    | InvalidDtc
    | ValueOutOfRange(field: string, value: nat)

  datatype Result<+T> = Ok(value: T) | Err(error: Error)

  function Min(a: int, b: int): (m: int)
    ensures m <= a && m <= b && (m == a || m == b)
  {
    if a <= b then a else b
  }

  function Max(a: int, b: int): (m: int)
    ensures m >= a && m >= b && (m == a || m == b)
  {
    if a >= b then a else b
  }

  function SatAdd16(a: U16, b: U16): U16 {
    Min(a + b, U16_MAX)
  }

  function SatSub(a: nat, b: nat): (r: nat)
    ensures r <= a
  {
    if a >= b then a - b else 0
  }

  /** A sequence with one element left out. */
  function Without<T>(s: seq<T>, i: nat): (r: seq<T>)
    requires i < |s|
    ensures |r| == |s| - 1
  {
    s[..i] + s[i + 1..]
  }

  /** What is in progress with a peer, if anything. */
  function Peer<T>(peers: map<Address, T>, a: Address): Option<T> {
    if a in peers then Some(peers[a]) else None
  }
}
