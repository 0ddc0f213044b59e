/** The extended transport protocol's connection-management payload. */
module EtpWire {
  import opened Types
  import opened Bits
  import opened Wire
  import E = EtpSpec

  const CB_RTS: Byte := 20
  const CB_CTS: Byte := 21
  const CB_DPO: Byte := 22
  const CB_EOMA: Byte := 23
  const CB_ABORT: Byte := 255

  function Four(n: U32): (b: seq<Byte>)
    ensures |b| == 4
  {
    Three(n % 0x100_0000) + [n / 0x100_0000]
  }

  function FromFour(a: Byte, b: Byte, c: Byte, d: Byte): U32 {
    FromThree(a, b, c) as int + (d as int) * 0x100_0000
  }

  lemma FourRoundTrip(n: U32)
    ensures FromFour(Four(n)[0], Four(n)[1], Four(n)[2], Four(n)[3]) == n
  {
    ThreeRoundTrip(n % 0x100_0000);
    assert Four(n)[..3] == Three(n % 0x100_0000);
  }

  function Encode(cm: E.EtpCm): Octets {
    (match cm
     case Rts(size, _) => [CB_RTS] + Four(size)
     case Eoma(size, _) => [CB_EOMA] + Four(size)
     case Cts(packets, next, _) => [CB_CTS, packets] + Three(next)
     case Dpo(packets, offset, _) => [CB_DPO, packets] + Three(offset)
     case Abort(reason, _) => [CB_ABORT, ReasonToByte(reason), 0xFF, 0xFF, 0xFF]) + PgnBytes(cm.pgn)
  }

  function Decode(b: Octets): Result<E.EtpCm> {
    var pgn := PgnFromBytes(b[5], b[6], b[7]);
    var four := FromFour(b[1], b[2], b[3], b[4]);
    var three := FromThree(b[2], b[3], b[4]);
    match b[0]
    case 20 => Ok(E.Rts(four, pgn))
    case 21 => Ok(E.Cts(b[1], three, pgn))
    case 22 => Ok(E.Dpo(b[1], three, pgn))
    case 23 => Ok(E.Eoma(four, pgn))
    case 255 => Ok(E.Abort(ReasonFromByte(b[1]), pgn))
    case _ => Err(UnknownControlByte(b[0]))
  }

  lemma FourIsLittleEndian(n: U32)
    ensures LeInt(Four(n)) == n
  {
    var low, high := n % 0x100_0000, n / 0x100_0000;
    var b, t := Four(n), Three(low);
    assert t[1..] == [t[1], t[2]] && b[1..] == [t[1], t[2], high] && [t[1], t[2], high][1..] == [t[2], high];
    TwoAreLittleEndian(t[1], t[2]);
    TwoAreLittleEndian(t[2], high);
    ThreeIsLittleEndian(low);
  }

  /** Where its parts stand: the kind in byte 1, a size in bytes 2 to 5 or a count
      in byte 2 and a packet number in bytes 3 to 5, the group in the last three,
      low bytes first. */
  lemma Layout(cm: E.EtpCm)
    ensures var b := Encode(cm);
      && LeInt(b[5..8]) == cm.pgn
      && match cm
         case Rts(size, _) => b[0] == 20 && LeInt(b[1..5]) == size
         case Cts(packets, next, _) => b[0] == 21 && b[1] == packets && LeInt(b[2..5]) == next
         case Dpo(packets, offset, _) => b[0] == 22 && b[1] == packets && LeInt(b[2..5]) == offset
         case Eoma(size, _) => b[0] == 23 && LeInt(b[1..5]) == size
         case Abort(_, _) => b[0] == 255 && b[2] == b[3] == b[4] == 255
  {
    var b := Encode(cm);
    assert b[5..8] == PgnBytes(cm.pgn);
    ThreeIsLittleEndian(cm.pgn);
    match cm
    case Rts(size, _) => assert b[1..5] == Four(size); FourIsLittleEndian(size);
    case Eoma(size, _) => assert b[1..5] == Four(size); FourIsLittleEndian(size);
    case Cts(_, next, _) => assert b[2..5] == Three(next); ThreeIsLittleEndian(next);
    case Dpo(_, offset, _) => assert b[2..5] == Three(offset); ThreeIsLittleEndian(offset);
    case Abort(_, _) =>
  }

  /** A message survives the wire unless it is an abort whose "other" reason is
      one of the eight bytes that have a name of their own. */
  lemma RoundTrip(cm: E.EtpCm)
    ensures Decode(Encode(cm)) == Ok(cm) <==> !(cm.Abort? && cm.reason.Other? && 1 <= cm.reason.raw <= 8)
  {
    PgnRoundTrip(cm.pgn);
    match cm
    case Rts(size, _) => FourRoundTrip(size);
    case Eoma(size, _) => FourRoundTrip(size);
    case Cts(_, next, _) => ThreeRoundTrip(next);
    case Dpo(_, offset, _) => ThreeRoundTrip(offset);
    case Abort(_, _) =>
  }
}
