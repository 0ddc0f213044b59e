/** The extended transport protocol of ISO 11783-3 on values. A data packet's
    one-byte sequence number is relative to the offset announced for its block. */
module EtpSpec {
  import opened Types
  import Tp = TpSpec

  const MIN_MESSAGE_SIZE := 1786
  const MAX_MESSAGE_SIZE := 117_440_505
  const MAX_PACKETS_PER_BLOCK := 255
  const MAX_PACKETS := 0xFF_FFFF

  datatype EtpCm =
    | Rts(size: U32, pgn: Pgn)
    | Cts(packets: Byte, nextPacket: U24, pgn: Pgn)
    | Dpo(packets: Byte, offset: U24, pgn: Pgn)
    | Eoma(size: U32, pgn: Pgn)
    | Abort(reason: Tp.AbortReason, pgn: Pgn)

  datatype EtpDt = EtpDt(sequence: Byte, data: Tp.Chunk)

  function PacketCount(size: U32): U24 {
    if size > MAX_MESSAGE_SIZE then MAX_PACKETS else (size + 6) / 7
  }

  /** How many packets to grant, capped by what one byte can number. */
  function BlockSize(remaining: nat): Byte {
    if remaining > 255 then 255 else remaining
  }

  // ------------------------------------------------------------- receiving

  datatype Session = Session(
    source: Address,
    pgn: Pgn,
    size: U32,
    packets: U24,
    blockStart: U24,
    blockPackets: Byte,
    offset: Option<U24>,
    nextSequence: Byte,
    idleMs: U16)

  datatype Rx =
    | Idle
    | Send(cm: EtpCm)
    | Message(pgn: Pgn, source: Address, data: seq<Byte>, ack: EtpCm)

  datatype Transfer = Transfer(session: Session, filled: seq<Byte>)

  /** The receiver's inductive invariant: blocks start at multiples of 255, are
      as long as what is left allows, and an announced offset is the block's. */
  ghost predicate ValidSession(s: Session, capacity: nat) {
    && MIN_MESSAGE_SIZE <= s.size <= MAX_MESSAGE_SIZE
    && s.size <= capacity
    && s.packets == PacketCount(s.size)
    && 1 <= s.blockStart <= s.packets
    && (s.blockStart - 1) % 255 == 0
    && s.blockPackets == BlockSize(s.packets - s.blockStart + 1)
    && 1 <= s.nextSequence <= s.blockPackets
    && (if s.offset.Some? then s.offset.value == s.blockStart - 1 else s.nextSequence == 1)
  }

  /** Packets accepted so far. */
  function Position(s: Session): int {
    s.blockStart + s.nextSequence - 2
  }

  ghost predicate ValidTransfer(t: Transfer, capacity: nat) {
    && ValidSession(t.session, capacity)
    && |t.filled| == Position(t.session) * 7
  }

  function Begin(source: Address, pgn: Pgn, size: U32): Session {
    var packets := PacketCount(size);
    Session(source, pgn, size, packets, 1, BlockSize(packets), None, 1, 0)
  }

  /** The offset for a block: accepted only if it is the block just granted,
      and then the block starts over. */
  function TakeDpo(t: Transfer, packets: Byte, offset: U24, ghost capacity: nat): (r: (Option<Transfer>, Rx))
    requires ValidTransfer(t, capacity)
    ensures r.0.Some? ==> ValidTransfer(r.0.value, capacity) && r.0.value.session.source == t.session.source
  {
    var s := t.session;
    if offset + 1 != s.blockStart || packets != s.blockPackets then
      (None, Send(Abort(Tp.UnexpectedDataPacket, s.pgn)))
    else
      (Some(Transfer(s.(offset := Some(offset), nextSequence := 1, idleMs := 0),
                     t.filled[..(s.blockStart - 1) * 7])),
       Idle)
  }

  /** The session after one more packet, and the CTS for the next block when
      this one is full. */
  function Progressed(s: Session, ghost capacity: nat): (r: (Session, Rx))
    requires ValidSession(s, capacity) && s.offset.Some? && Position(s) + 1 < s.packets
    ensures ValidSession(r.0, capacity)
    ensures r.0.source == s.source && Position(r.0) == Position(s) + 1
  {
    if s.nextSequence >= s.blockPackets then
      var nextStart := s.blockStart + s.blockPackets;
      var block := BlockSize(s.packets - nextStart + 1);
      (s.(blockStart := nextStart, blockPackets := block, offset := None, nextSequence := 1, idleMs := 0),
       Send(Cts(block, nextStart, s.pgn)))
    else
      (s.(nextSequence := s.nextSequence + 1, idleMs := 0), Idle)
  }

  /** One data packet, as one peer's session sees it. */
  function TakeData(t: Transfer, dt: EtpDt, ghost capacity: nat): (r: (Option<Transfer>, Rx))
    requires ValidTransfer(t, capacity)
    ensures r.0.Some? ==> ValidTransfer(r.0.value, capacity) && r.0.value.session.source == t.session.source
  {
    var s := t.session;
    if s.offset.None? then (None, Send(Abort(Tp.UnexpectedDataPacket, s.pgn)))
    else if dt.sequence != s.nextSequence then
      var reason := if dt.sequence < s.nextSequence then Tp.DuplicateSequenceNumber else Tp.BadSequenceNumber;
      (None, Send(Abort(reason, s.pgn)))
    else
      var absolute := s.offset.value + dt.sequence;
      var start := (absolute - 1) * 7;
      var end := Min(start + 7, s.size);
      if start >= end then (None, Send(Abort(Tp.BadSequenceNumber, s.pgn)))
      else
        var filled := t.filled + dt.data[..end - start];
        if absolute >= s.packets then
          (None, Message(s.pgn, s.source, filled, Eoma(s.size, s.pgn)))
        else
          var (s', rx) := Progressed(s, capacity);
          (Some(Transfer(s', filled)), rx)
  }

  /** The branch of TakeData that aborts because a packet would start past the
      end of the message is never reached, and a message is handed over only
      when it is complete to the byte. */
  lemma EveryPacketHasRoom(t: Transfer, dt: EtpDt, capacity: nat)
    requires ValidTransfer(t, capacity)
    requires t.session.offset.Some? && dt.sequence == t.session.nextSequence
    ensures var absolute := t.session.offset.value + dt.sequence;
      && (absolute - 1) * 7 == |t.filled|
      && (absolute - 1) * 7 < Min((absolute - 1) * 7 + 7, t.session.size)
      && absolute <= t.session.packets
    ensures var (_, rx) := TakeData(t, dt, capacity);
      (rx.Message? ==> |rx.data| == t.session.size) && (rx.Message? <==> |t.filled| + 7 >= t.session.size)
  {
  }

  type Peers = map<Address, Transfer>

  ghost predicate ValidPeers(peers: Peers, capacity: nat) {
    forall a :: a in peers ==> ValidTransfer(peers[a], capacity) && peers[a].session.source == a
  }

  function SetPeer(peers: Peers, a: Address, t: Option<Transfer>): Peers {
    match t
    case Some(v) => peers[a := v]
    case None => peers - {a}
  }

  function RtsRefusal(peers: Peers, source: Address, size: U32, capacity: nat, sessions: nat): Option<Tp.AbortReason> {
    if !(MIN_MESSAGE_SIZE <= size <= MAX_MESSAGE_SIZE) then Some(Tp.Other(0xFF))
    else if size > capacity then Some(Tp.ResourcesUnavailable)
    else if source in peers then Some(Tp.AlreadyInSession)
    else if |peers| >= sessions then Some(Tp.ResourcesUnavailable)
    else None
  }

  function TakeRts(peers: Peers, source: Address, size: U32, pgn: Pgn, capacity: nat, sessions: nat): (r: (Peers, Rx))
    requires ValidPeers(peers, capacity)
    ensures ValidPeers(r.0, capacity)
  {
    match RtsRefusal(peers, source, size, capacity, sessions)
    case Some(reason) => (peers, Send(Abort(reason, pgn)))
    case None =>
      var s := Begin(source, pgn, size);
      (peers[source := Transfer(s, [])], Send(Cts(s.blockPackets, 1, pgn)))
  }

  /** A connection-management message from `source`. A DPO is matched on its
      offset and packet count, never on its group. */
  function TakeCm(peers: Peers, source: Address, cm: EtpCm, capacity: nat, sessions: nat): (r: (Peers, Rx))
    requires ValidPeers(peers, capacity)
    ensures ValidPeers(r.0, capacity)
  {
    match cm
    case Rts(size, pgn) => TakeRts(peers, source, size, pgn, capacity, sessions)
    case Dpo(packets, offset, _) =>
      if source !in peers then (peers, Idle)
      else
        var (t, rx) := TakeDpo(peers[source], packets, offset, capacity);
        (SetPeer(peers, source, t), rx)
    case Abort(_, pgn) =>
      (if source in peers && peers[source].session.pgn == pgn then peers - {source} else peers, Idle)
    case Cts(_, _, _) => (peers, Idle)
    case Eoma(_, _) => (peers, Idle)
  }

  function TakeDt(peers: Peers, source: Address, dt: EtpDt, ghost capacity: nat): (r: (Peers, Rx))
    requires ValidPeers(peers, capacity)
    ensures ValidPeers(r.0, capacity)
  {
    if source !in peers then (peers, Idle)
    else
      var (t, rx) := TakeData(peers[source], dt, capacity);
      (SetPeer(peers, source, t), rx)
  }

  /** What is filled once the packet a session expects has come. */
  function Extended(t: Transfer, dt: EtpDt): seq<Byte>
    requires |t.filled| <= t.session.size
  {
    t.filled + dt.data[..Min(|t.filled| + 7, t.session.size) - |t.filled|]
  }

  lemma ExpectedPacketFits(t: Transfer, dt: EtpDt, capacity: nat)
    requires ValidTransfer(t, capacity) && t.session.offset.Some?
    ensures var s := t.session;
      && |t.filled| == (s.offset.value + s.nextSequence - 1) * 7 < s.size
      && |Extended(t, dt)| == Min(|t.filled| + 7, s.size) <= capacity
      && s.offset.value + s.nextSequence == Position(s) + 1
      && |Extended(t, dt)| == if Position(s) + 1 < s.packets then (Position(s) + 1) * 7 else s.size
  {
    EveryPacketHasRoom(t, dt.(sequence := t.session.nextSequence), capacity);
  }

  /** What becomes of that packet. */
  lemma ExpectedPacketIs(peers: Peers, source: Address, dt: EtpDt, capacity: nat)
    requires ValidPeers(peers, capacity) && source in peers
    requires peers[source].session.offset.Some? && dt.sequence == peers[source].session.nextSequence
    ensures |peers[source].filled| <= peers[source].session.size
    ensures var s, filled := peers[source].session, Extended(peers[source], dt);
      TakeDt(peers, source, dt, capacity) ==
        if Position(s) + 1 < s.packets then
          (peers[source := Transfer(Progressed(s, capacity).0, filled)], Progressed(s, capacity).1)
        else
          (peers - {source}, Message(s.pgn, source, filled, Eoma(s.size, s.pgn)))
  {
    ExpectedPacketFits(peers[source], dt, capacity);
  }

  function Aged(t: Transfer, elapsed: U16): Transfer {
    t.(session := t.session.(idleMs := SatAdd16(t.session.idleMs, elapsed)))
  }

  predicate Expires(t: Transfer, elapsed: U16, timeout: U16) {
    Aged(t, elapsed).session.idleMs > timeout
  }

  function TickPeers(peers: Peers, elapsed: U16, timeout: U16): Peers {
    map a | a in peers && !Expires(peers[a], elapsed, timeout) :: Aged(peers[a], elapsed)
  }

  lemma PutKeepsValid(peers: Peers, t: Transfer, capacity: nat)
    requires ValidPeers(peers, capacity) && ValidTransfer(t, capacity)
    ensures ValidPeers(peers[t.session.source := t], capacity)
  {
  }

  lemma TickKeepsValid(peers: Peers, elapsed: U16, timeout: U16, capacity: nat)
    requires ValidPeers(peers, capacity)
    ensures ValidPeers(TickPeers(peers, elapsed, timeout), capacity)
  {
    forall a | a in TickPeers(peers, elapsed, timeout)
      ensures ValidTransfer(TickPeers(peers, elapsed, timeout)[a], capacity)
    {
      assert ValidTransfer(peers[a], capacity);
    }
  }

  // --------------------------------------------------------------- sending

  datatype Tx = TxIdle | SendData | Complete | Aborted(reason: Tp.AbortReason)

  datatype Sender = Sender(
    pgn: Pgn,
    data: seq<Byte>,
    packets: U24,
    blockStart: U24,
    blockPackets: Byte,
    offsetSent: bool,
    nextSequence: U16,
    complete: bool)

  ghost predicate ValidSender(s: Sender) {
    && MIN_MESSAGE_SIZE <= |s.data| <= MAX_MESSAGE_SIZE
    && s.packets == PacketCount(|s.data|)
    && 1 <= s.blockStart
    && s.blockStart - 1 + s.blockPackets <= s.packets
    && 1 <= s.nextSequence <= s.blockPackets + 1
  }

  function Build(pgn: Pgn, data: seq<Byte>): (r: Result<Sender>)
    ensures r.Ok? <==> MIN_MESSAGE_SIZE <= |data| <= MAX_MESSAGE_SIZE
    ensures r.Ok? ==> ValidSender(r.value)
  {
    if |data| < MIN_MESSAGE_SIZE || |data| > MAX_MESSAGE_SIZE then Err(InvalidMessageSize(Min(|data|, U16_MAX)))
    else Ok(Sender(pgn, data, PacketCount(|data|), 1, 0, false, 1, false))
  }

  function Start(s: Sender): EtpCm
    requires ValidSender(s)
  {
    Rts(|s.data|, s.pgn)
  }

  predicate Accepts(s: Sender, cm: EtpCm) {
    cm.Cts? && cm.pgn == s.pgn && cm.packets != 0 && 1 <= cm.nextPacket <= s.packets
  }

  function OnCm(s: Sender, cm: EtpCm): (r: (Sender, Tx))
    requires ValidSender(s)
    ensures ValidSender(r.0)
  {
    if cm.pgn != s.pgn then (s, TxIdle)
    else
      match cm
      case Cts(packets, nextPacket, _) =>
        if packets == 0 || nextPacket == 0 || nextPacket > s.packets then (s, TxIdle)
        else
          (s.(blockStart := nextPacket,
              blockPackets := Min(BlockSize(s.packets - nextPacket + 1), packets),
              offsetSent := false,
              nextSequence := 1),
           SendData)
      case Eoma(_, _) => (s.(complete := true), Complete)
      case Abort(reason, _) => (s, Aborted(reason))
      case Rts(_, _) => (s, TxIdle)
      case Dpo(_, _, _) => (s, TxIdle)
  }

  function NextOffset(s: Sender): (r: (Sender, Option<EtpCm>))
    requires ValidSender(s)
    ensures ValidSender(r.0)
  {
    if s.offsetSent || s.blockPackets == 0 then (s, None)
    else (s.(offsetSent := true), Some(Dpo(s.blockPackets, s.blockStart - 1, s.pgn)))
  }

  /** Absolute packet n of a message, numbered q within its block. */
  function Packet(data: seq<Byte>, n: nat, q: Byte): EtpDt
    requires 1 <= n && (n - 1) * 7 <= |data|
  {
    EtpDt(q, Tp.Padded(data[(n - 1) * 7..Tp.ChunkEnd(n, |data|)]))
  }

  function NextPacket(s: Sender): (r: (Sender, Option<EtpDt>))
    requires ValidSender(s)
    ensures ValidSender(r.0)
  {
    if s.blockPackets == 0 || s.nextSequence > s.blockPackets then (s, None)
    else
      var absolute := s.blockStart + s.nextSequence - 1;
      if absolute > s.packets then (s, None)
      else (s.(nextSequence := s.nextSequence + 1), Some(Packet(s.data, absolute, s.nextSequence)))
  }
}
