/** The J1939-21 transport protocol on values: what one announcement, one data
    packet or one tick does to a receive session and to a sender. The classes in
    TpReassembler.dfy and TpTransmitter.dfy are proved to compute exactly this. */
module TpSpec {
  import opened Types

  const BYTES_PER_PACKET := 7
  const MIN_MESSAGE_SIZE := 9
  const MAX_MESSAGE_SIZE := 1785
  const FILL: Byte := 0xFF
  const T1_TIMEOUT_MS: U16 := 750

  type Chunk = c: seq<Byte> | |c| == 7 witness [0, 0, 0, 0, 0, 0, 0]

  datatype AbortReason =
    | AlreadyInSession
    | ResourcesUnavailable
    | Timeout
    | UnexpectedCts
    | RetransmitLimit
    | UnexpectedDataPacket
    | BadSequenceNumber
    | DuplicateSequenceNumber
    | Other(raw: Byte)

  datatype TpCm =
    | Rts(size: U16, packets: Byte, maxPacketsPerCts: Byte, pgn: Pgn)
    | Cts(packets: Byte, nextPacket: Byte, pgn: Pgn)
    | EndOfMsgAck(size: U16, packets: Byte, pgn: Pgn)
    | Bam(size: U16, packets: Byte, pgn: Pgn)
    | Abort(reason: AbortReason, pgn: Pgn)

  datatype TpDt = TpDt(sequence: Byte, data: Chunk)

  function PacketCount(size: U16): Byte {
    if size > MAX_MESSAGE_SIZE then 255 else (size + 6) / 7
  }

  predicate ValidAnnouncement(size: U16, packets: Byte) {
    MIN_MESSAGE_SIZE <= size <= MAX_MESSAGE_SIZE && packets == PacketCount(size)
  }

  /** How many packets to ask for in one CTS; 0 and 0xFF state no limit. */
  function GrantWindow(packets: Byte, maxPacketsPerCts: Byte): Byte {
    if maxPacketsPerCts == 0 || maxPacketsPerCts == 0xFF then packets
    else if maxPacketsPerCts < packets then maxPacketsPerCts
    else packets
  }

  // ------------------------------------------------------------- receiving

  datatype Session = Session(
    source: Address,
    pgn: Pgn,
    size: U16,
    packets: Byte,
    nextSequence: Byte,
    windowRemaining: Byte,
    maxPacketsPerCts: Byte,
    broadcast: bool,
    idleMs: U16)

  /** What a receiver wants its caller to do. */
  datatype Rx =
    | Idle
    | Send(cm: TpCm)
    | Message(pgn: Pgn, source: Address, data: seq<Byte>, ack: Option<TpCm>)

  /** One transfer in progress: its session and the bytes accepted so far. */
  datatype Transfer = Transfer(session: Session, filled: seq<Byte>)

  ghost predicate ValidSession(s: Session, capacity: nat) {
    && ValidAnnouncement(s.size, s.packets)
    && s.size <= capacity
    && 1 <= s.nextSequence <= s.packets
    && (!s.broadcast ==> 1 <= s.windowRemaining <= s.packets - s.nextSequence + 1)
  }

  ghost predicate ValidTransfer(t: Transfer, capacity: nat) {
    && ValidSession(t.session, capacity)
    && |t.filled| == (t.session.nextSequence - 1) * 7
  }

  function Begin(
      source: Address, pgn: Pgn, size: U16, packets: Byte, broadcast: bool, window: Byte, max: Byte): Session {
    Session(source, pgn, size, packets, 1, window, max, broadcast, 0)
  }

  function AckFor(s: Session): Option<TpCm> {
    if s.broadcast then None else Some(EndOfMsgAck(s.size, s.packets, s.pgn))
  }

  /** Where packet q of a size-byte message ends. */
  function ChunkEnd(q: nat, size: nat): nat {
    Min(q * 7, size)
  }

  /** The answer to a packet out of sequence: a repeat and a gap differ. */
  function Rejection(s: Session, dt: TpDt): Rx {
    if s.broadcast then Idle
    else Send(Abort(if dt.sequence < s.nextSequence then DuplicateSequenceNumber else BadSequenceNumber, s.pgn))
  }

  /** The session after one more packet, and the CTS that opens the next window
      when this one is used up. */
  function Progressed(s: Session, ghost capacity: nat): (r: (Session, Rx))
    requires ValidSession(s, capacity) && s.nextSequence < s.packets
    ensures ValidSession(r.0, capacity)
    ensures r.0.source == s.source && r.0.nextSequence == s.nextSequence + 1
  {
    var s' := s.(nextSequence := s.nextSequence + 1,
                 windowRemaining := SatSub(s.windowRemaining, 1),
                 idleMs := 0);
    if !s.broadcast && s'.windowRemaining == 0 then
      var window := GrantWindow(s'.packets - s'.nextSequence + 1, s'.maxPacketsPerCts);
      (s'.(windowRemaining := window), Send(Cts(window, s'.nextSequence, s.pgn)))
    else
      (s', Idle)
  }

  /** One data packet, as one peer's session sees it: the transfer that is left
      and the answer. */
  function TakeData(t: Transfer, dt: TpDt, ghost capacity: nat): (r: (Option<Transfer>, Rx))
    requires ValidTransfer(t, capacity)
    ensures r.0.Some? ==> ValidTransfer(r.0.value, capacity) && r.0.value.session.source == t.session.source
  {
    var s := t.session;
    if dt.sequence != s.nextSequence then (None, Rejection(s, dt))
    else
      var filled := t.filled + dt.data[..ChunkEnd(dt.sequence, s.size) - (dt.sequence - 1) * 7];
      if dt.sequence == s.packets then (None, Message(s.pgn, s.source, filled, AckFor(s)))
      else
        var (s', rx) := Progressed(s, capacity);
        (Some(Transfer(s', filled)), rx)
  }

  /** Every transfer in progress, keyed by the peer sending it. */
  type Peers = map<Address, Transfer>

  ghost predicate ValidPeers(peers: Peers, capacity: nat) {
    forall a :: a in peers ==> ValidTransfer(peers[a], capacity) && peers[a].session.source == a
  }

  function SetPeer(peers: Peers, a: Address, t: Option<Transfer>): Peers {
    match t
    case Some(v) => peers[a := v]
    case None => peers - {a}
  }

  predicate HasRoom(peers: Peers, source: Address, sessions: nat) {
    source in peers || |peers| < sessions
  }

  function TakeBam(
      peers: Peers, source: Address, size: U16, packets: Byte, pgn: Pgn, capacity: nat, sessions: nat): (p: Peers)
    requires ValidPeers(peers, capacity)
    ensures ValidPeers(p, capacity)
  {
    if !ValidAnnouncement(size, packets) || size > capacity then peers - {source}
    else if !HasRoom(peers, source, sessions) then peers
    else peers[source := Transfer(Begin(source, pgn, size, packets, true, packets, 0), [])]
  }

  /** Why a request to send is turned away, or nothing if it is granted. */
  function RtsRefusal(
      peers: Peers, source: Address, size: U16, packets: Byte, capacity: nat, sessions: nat): Option<AbortReason> {
    if !ValidAnnouncement(size, packets) then Some(Other(FILL))
    else if size > capacity then Some(ResourcesUnavailable)
    else if source in peers && !peers[source].session.broadcast then Some(AlreadyInSession)
    else if !HasRoom(peers, source, sessions) then Some(ResourcesUnavailable)
    else None
  }

  function TakeRts(
      peers: Peers, source: Address, size: U16, packets: Byte, max: Byte, pgn: Pgn, capacity: nat,
      sessions: nat): (r: (Peers, Rx))
    requires ValidPeers(peers, capacity)
    ensures ValidPeers(r.0, capacity)
  {
    match RtsRefusal(peers, source, size, packets, capacity, sessions)
    case Some(reason) => (peers, Send(Abort(reason, pgn)))
    case None =>
      var window := GrantWindow(packets, max);
      (peers[source := Transfer(Begin(source, pgn, size, packets, false, window, max), [])],
       Send(Cts(window, 1, pgn)))
  }

  function TakeAbort(peers: Peers, source: Address, pgn: Pgn): Peers {
    if source in peers && peers[source].session.pgn == pgn then peers - {source} else peers
  }

  /** A connection-management message from `source`. */
  function TakeCm(peers: Peers, source: Address, cm: TpCm, capacity: nat, sessions: nat): (r: (Peers, Rx))
    requires ValidPeers(peers, capacity)
    ensures ValidPeers(r.0, capacity)
  {
    match cm
    case Bam(size, packets, pgn) => (TakeBam(peers, source, size, packets, pgn, capacity, sessions), Idle)
    case Rts(size, packets, max, pgn) => TakeRts(peers, source, size, packets, max, pgn, capacity, sessions)
    case Abort(_, pgn) => (TakeAbort(peers, source, pgn), Idle)
    case Cts(_, _, _) => (peers, Idle)
    case EndOfMsgAck(_, _, _) => (peers, Idle)
  }

  /** A data packet from `source`. */
  function TakeDt(peers: Peers, source: Address, dt: TpDt, ghost capacity: nat): (r: (Peers, Rx))
    requires ValidPeers(peers, capacity)
    ensures ValidPeers(r.0, capacity)
  {
    if source !in peers then (peers, Idle)
    else
      var (t, rx) := TakeData(peers[source], dt, capacity);
      (SetPeer(peers, source, t), rx)
  }

  function Aged(t: Transfer, elapsed: U16): Transfer {
    t.(session := t.session.(idleMs := SatAdd16(t.session.idleMs, elapsed)))
  }

  predicate Expires(t: Transfer, elapsed: U16, timeout: U16) {
    Aged(t, elapsed).session.idleMs > timeout
  }

  function ExpiryAbort(s: Session): Option<TpCm> {
    if s.broadcast then None else Some(Abort(Timeout, s.pgn))
  }

  /** Time passing: every session ages, and those idle too long are dropped. */
  function TickPeers(peers: Peers, elapsed: U16, timeout: U16): Peers {
    map a | a in peers && !Expires(peers[a], elapsed, timeout) :: Aged(peers[a], elapsed)
  }

  lemma PutKeepsValid(peers: Peers, t: Transfer, capacity: nat)
    requires ValidPeers(peers, capacity) && ValidTransfer(t, capacity)
    ensures ValidPeers(peers[t.session.source := t], capacity)
  {
  }

  lemma TickKeepsValid(peers: Peers, elapsed: U16, timeout: U16, capacity: nat)
    requires ValidPeers(peers, capacity)
    ensures ValidPeers(TickPeers(peers, elapsed, timeout), capacity)
  {
    forall a | a in TickPeers(peers, elapsed, timeout)
      ensures ValidTransfer(TickPeers(peers, elapsed, timeout)[a], capacity)
    {
      assert ValidTransfer(peers[a], capacity);
    }
  }

  // --------------------------------------------------------------- sending

  datatype Tx = TxIdle | SendData | Complete | Aborted(reason: AbortReason)

  datatype Sender = Sender(
    pgn: Pgn,
    data: seq<Byte>,
    packets: Byte,
    nextSequence: U16,
    windowRemaining: Byte,
    broadcast: bool,
    complete: bool,
    maxPacketsPerCts: Byte)

  ghost predicate ValidSender(s: Sender) {
    && MIN_MESSAGE_SIZE <= |s.data| <= MAX_MESSAGE_SIZE
    && s.packets == PacketCount(|s.data|)
    && 1 <= s.nextSequence <= s.packets + 1
    && s.windowRemaining <= s.packets + 1 - s.nextSequence
  }

  function Build(pgn: Pgn, data: seq<Byte>, broadcast: bool): (r: Result<Sender>)
    ensures r.Ok? <==> MIN_MESSAGE_SIZE <= |data| <= MAX_MESSAGE_SIZE
    ensures r.Ok? ==> ValidSender(r.value)
  {
    if |data| < MIN_MESSAGE_SIZE || |data| > MAX_MESSAGE_SIZE then
      Err(InvalidMessageSize(Min(|data|, U16_MAX)))
    else
      var packets := PacketCount(|data|);
      Ok(Sender(pgn, data, packets, 1, if broadcast then packets else 0, broadcast, false, 0xFF))
  }

  function Start(s: Sender): TpCm
    requires ValidSender(s)
  {
    if s.broadcast then Bam(|s.data|, s.packets, s.pgn)
    else Rts(|s.data|, s.packets, s.maxPacketsPerCts, s.pgn)
  }

  predicate Accepts(s: Sender, cm: TpCm) {
    cm.Cts? && cm.pgn == s.pgn && cm.packets != 0 && 1 <= cm.nextPacket <= s.packets
  }

  function OnCm(s: Sender, cm: TpCm): (r: (Sender, Tx))
    requires ValidSender(s)
    ensures ValidSender(r.0)
  {
    if cm.pgn != s.pgn then (s, TxIdle)
    else
      match cm
      case Cts(packets, nextPacket, _) =>
        if packets == 0 || nextPacket == 0 || nextPacket > s.packets then (s, TxIdle)
        else (s.(nextSequence := nextPacket, windowRemaining := Min(packets, s.packets - nextPacket + 1)), SendData)
      case EndOfMsgAck(_, _, _) => (s.(complete := true), Complete)
      case Abort(reason, _) => (s, Aborted(reason))
      case Rts(_, _, _, _) => (s, TxIdle)
      case Bam(_, _, _) => (s, TxIdle)
  }

  /** Seven bytes, the payload first and 0xFF after it. */
  function Padded(data: seq<Byte>): (c: Chunk)
    ensures forall i :: 0 <= i < 7 ==> c[i] == if i < |data| then data[i] else FILL
  {
    seq(7, i requires 0 <= i < 7 => if i < |data| then data[i] else FILL)
  }

  /** Packet q of a message: its q-th seven bytes, padded. */
  function Packet(data: seq<Byte>, q: nat): TpDt
    requires 1 <= q <= 255 && (q - 1) * 7 <= |data|
  {
    TpDt(q, Padded(data[(q - 1) * 7..ChunkEnd(q, |data|)]))
  }

  function NextPacket(s: Sender): (r: (Sender, Option<TpDt>))
    requires ValidSender(s)
    ensures ValidSender(r.0)
  {
    if s.windowRemaining == 0 || s.nextSequence > s.packets then (s, None)
    else
      var next := s.nextSequence + 1;
      (s.(nextSequence := next,
          windowRemaining := s.windowRemaining - 1,
          complete := s.complete || (s.broadcast && next > s.packets)),
       Some(Packet(s.data, s.nextSequence)))
  }
}
