/** One ETP transfer over channels that keep order but may lose anything, while
    the receiver serves others, times sessions out or is reset: whatever is
    delivered is exactly the payload. */
module EtpSafety {
  import opened Types
  import opened EtpSpec

  datatype Event =
    | Cm(source: Address, cm: EtpCm)
    | Dt(source: Address, dt: EtpDt)
    | Ticked(elapsed: U16, timeout: U16)
    | Abandoned(source: Address)
    | Reset

  function Step(peers: Peers, e: Event, capacity: nat, sessions: nat): (r: (Peers, Rx))
    requires ValidPeers(peers, capacity)
    ensures ValidPeers(r.0, capacity)
  {
    match e
    case Cm(source, cm) => TakeCm(peers, source, cm, capacity, sessions)
    case Dt(source, dt) => TakeDt(peers, source, dt, capacity)
    case Ticked(elapsed, timeout) =>
      TickKeepsValid(peers, elapsed, timeout, capacity);
      (TickPeers(peers, elapsed, timeout), Idle)
    case Abandoned(source) => (peers - {source}, Idle)
    case Reset => (map[], Idle)
  }

  function After(peers: Peers, events: seq<Event>, capacity: nat, sessions: nat): (p: Peers)
    requires ValidPeers(peers, capacity)
    ensures ValidPeers(p, capacity)
    decreases |events|
  {
    if events == [] then peers
    else After(Step(peers, events[0], capacity, sessions).0, events[1..], capacity, sessions)
  }

  /** Blocks start at 1 + 255k, are as long as what is left allows, an offset is
      the block's or none, and exactly the bytes before the next expected packet
      have been accepted. */
  ghost predicate BlocksAreRight(t: Transfer, capacity: nat) {
    var s := t.session;
    && 1 <= s.blockStart <= s.packets
    && (s.blockStart - 1) % 255 == 0
    && s.blockPackets == Min(255, s.packets - s.blockStart + 1)
    && (s.offset == None || s.offset == Some(s.blockStart - 1))
    && 1 <= s.nextSequence <= s.blockPackets
    && |t.filled| == (s.blockStart - 1 + s.nextSequence - 1) * 7
    && |t.filled| < s.size <= capacity
  }

  lemma ValidMeansBlocksAreRight(t: Transfer, capacity: nat)
    requires ValidTransfer(t, capacity)
    ensures BlocksAreRight(t, capacity)
  {
  }

  /** The receiver's invariant over every run of decoded messages, from an idle
      receiver on. */
  lemma EveryRunKeepsTheBlocks(events: seq<Event>, a: Address, capacity: nat, sessions: nat)
    ensures var peers := After(map[], events, capacity, sessions);
      a in peers ==> BlocksAreRight(peers[a], capacity)
  {
    var peers := After(map[], events, capacity, sessions);
    if a in peers {
      ValidMeansBlocksAreRight(peers[a], capacity);
    }
  }

  predicate IsFrom(e: Event, a: Address) {
    (e.Cm? || e.Dt? || e.Abandoned?) && e.source == a
  }

  /** What a peer that is sending us a transfer of this group says of others. */
  predicate IsAside(cm: EtpCm, pgn: Pgn) {
    cm.Cts? || cm.Eoma? || (cm.Abort? && cm.pgn != pgn)
  }

  lemma AsidesChangeNothing(peers: Peers, a: Address, cm: EtpCm, pgn: Pgn, capacity: nat, sessions: nat)
    requires ValidPeers(peers, capacity) && IsAside(cm, pgn)
    requires a in peers ==> peers[a].session.pgn == pgn
    ensures Step(peers, Cm(a, cm), capacity, sessions) == (peers, Idle)
  {
  }

  /** An event from one source leaves every other session and its bytes alone. */
  lemma NonInterference(peers: Peers, e: Event, a: Address, b: Address, capacity: nat, sessions: nat)
    requires ValidPeers(peers, capacity)
    requires IsFrom(e, a) && a != b
    ensures var (peers', rx) := Step(peers, e, capacity, sessions);
      && Peer(peers', b) == Peer(peers, b)
      && (rx.Message? ==> rx.source == a)
  {
  }

  // ------------------------------------------------------- the closed system

  datatype Frame = Announce(cm: EtpCm) | Data(dt: EtpDt)

  datatype System = System(
    tx: Sender,
    peers: Peers,
    forward: seq<Frame>,
    back: seq<EtpCm>,
    delivered: seq<Rx>)

  datatype Link = Link(source: Address, capacity: nat, sessions: nat)

  datatype Move =
    | SendOffset
    | SendPacket
    | ReceiverTakes
    | SenderTakes
    | Elsewhere(e: Event)
    | LoseForward(i: nat)
    | LoseBack(i: nat)

  /** The sender puts a block's offset out before the block's packets, as its
      caller is told to. */
  predicate Enabled(sys: System, move: Move, link: Link)
    requires ValidSender(sys.tx)
  {
    match move
    case SendOffset => NextOffset(sys.tx).1.Some?
    case SendPacket => sys.tx.offsetSent && NextPacket(sys.tx).1.Some?
    case ReceiverTakes => sys.forward != []
    case SenderTakes => sys.back != []
    case Elsewhere(e) =>
      IsFrom(e, link.source) ==> e.Abandoned? || (e.Cm? && (e.cm.Cts? || e.cm.Eoma? || e.cm.Abort?))
    case LoseForward(i) => i < |sys.forward|
    case LoseBack(i) => i < |sys.back|
  }

  function Taken(sys: System, rx: Rx): System {
    match rx
    case Idle => sys
    case Send(cm) => sys.(back := sys.back + [cm])
    case Message(_, _, _, ack) => sys.(delivered := sys.delivered + [rx], back := sys.back + [ack])
  }

  function Apply(sys: System, move: Move, link: Link): (r: System)
    requires ValidSender(sys.tx) && ValidPeers(sys.peers, link.capacity)
    requires Enabled(sys, move, link)
    ensures ValidSender(r.tx) && ValidPeers(r.peers, link.capacity)
  {
    match move
    case SendOffset =>
      var (tx, cm) := NextOffset(sys.tx);
      sys.(tx := tx, forward := sys.forward + [Announce(cm.value)])
    case SendPacket =>
      var (tx, dt) := NextPacket(sys.tx);
      sys.(tx := tx, forward := sys.forward + [Data(dt.value)])
    case ReceiverTakes =>
      var rest := sys.(forward := sys.forward[1..]);
      var (peers, rx) := match sys.forward[0]
        case Announce(cm) => TakeCm(sys.peers, link.source, cm, link.capacity, link.sessions)
        case Data(dt) => TakeDt(sys.peers, link.source, dt, link.capacity);
      Taken(rest.(peers := peers), rx)
    case SenderTakes =>
      sys.(tx := OnCm(sys.tx, sys.back[0]).0, back := sys.back[1..])
    case Elsewhere(e) =>
      var (peers, rx) := Step(sys.peers, e, link.capacity, link.sessions);
      if IsFrom(e, link.source) then Taken(sys.(peers := peers), rx) else sys.(peers := peers)
    case LoseForward(i) => sys.(forward := Without(sys.forward, i))
    case LoseBack(i) => sys.(back := Without(sys.back, i))
  }

  function Initial(tx: Sender, peers: Peers): System
    requires ValidSender(tx)
  {
    System(tx, peers, [Announce(Start(tx))], [], [])
  }

  ghost predicate CanBegin(tx: Sender, peers: Peers, link: Link) {
    && ValidSender(tx) && tx.blockPackets == 0 && tx.blockStart == 1 && tx.nextSequence == 1
    && !tx.offsetSent && !tx.complete
    && ValidPeers(peers, link.capacity)
    && link.source !in peers
  }

  // ------------------------------------------------------- safety under loss

  /** Where in the sender's current block a frame belongs: 0 is the offset, q
      the q-th packet; -1 is no frame of this block. */
  function Place(tx: Sender, f: Frame): int
    requires ValidSender(tx)
  {
    match f
    case Announce(cm) => if cm == Dpo(tx.blockPackets, tx.blockStart - 1, tx.pgn) then 0 else -1
    case Data(dt) =>
      if 1 <= dt.sequence <= tx.blockPackets && dt == Packet(tx.data, tx.blockStart - 1 + dt.sequence, dt.sequence)
      then dt.sequence else -1
  }

  /** The next place the sender will fill. */
  function Cursor(tx: Sender): nat {
    if tx.offsetSent then tx.nextSequence else 0
  }

  /** In-flight frames all belong to the sender's block, in order, after `low`
      and before the sender's cursor. */
  ghost predicate InBlock(tx: Sender, forward: seq<Frame>, low: int)
    requires ValidSender(tx)
  {
    && (forall i :: 0 <= i < |forward| ==> low < Place(tx, forward[i]) < Cursor(tx) && Place(tx, forward[i]) >= 0)
    && (forall i, j :: 0 <= i < j < |forward| ==> Place(tx, forward[i]) < Place(tx, forward[j]))
  }

  predicate IsRts(f: Frame) {
    f.Announce? && f.cm.Rts?
  }

  function Whole(tx: Sender, source: Address): Rx
    requires ValidSender(tx)
  {
    Message(tx.pgn, source, tx.data, Eoma(|tx.data|, tx.pgn))
  }

  ghost predicate FaithfulTo(t: Transfer, tx: Sender) {
    && t.session.pgn == tx.pgn
    && t.session.size == |tx.data|
    && t.session.packets == tx.packets
    && t.filled <= tx.data
  }

  /** The session's last accepted place in its block. */
  function Low(s: Session): int {
    if s.offset.Some? then s.nextSequence - 1 else -1
  }

  /** The sender is working through the block the receiver is filling. */
  ghost predicate InStep(sys: System, s: Session)
    requires ValidSender(sys.tx)
  {
    && sys.tx.blockStart == s.blockStart && sys.tx.blockPackets == s.blockPackets
    && sys.back == []
    && Low(s) < Cursor(sys.tx)
    && InBlock(sys.tx, sys.forward, Low(s))
  }

  /** The receiver has granted a block the sender does not know of yet. */
  ghost predicate Ahead(sys: System, s: Session)
    requires ValidSender(sys.tx)
  {
    && s.offset == None
    && sys.forward == []
    && Cursor(sys.tx) == (if sys.tx.blockPackets == 0 then 0 else sys.tx.blockPackets + 1)
    && (sys.back == [] || sys.back == [Cts(s.blockPackets, s.blockStart, sys.tx.pgn)])
  }

  /** An acknowledgement exists only for a message that was delivered. */
  ghost predicate Honest(sys: System, link: Link)
    requires ValidSender(sys.tx)
  {
    && (sys.delivered == [] || sys.delivered == [Whole(sys.tx, link.source)])
    && (forall cm :: cm in sys.back && cm.Eoma? ==> sys.delivered != [])
    && (sys.tx.complete ==> sys.delivered != [])
  }

  ghost predicate Safe(sys: System, link: Link) {
    && ValidSender(sys.tx) && ValidPeers(sys.peers, link.capacity)
    && Honest(sys, link)
    && (!sys.tx.offsetSent ==> sys.tx.nextSequence == 1)
    && if link.source in sys.peers then
         var t := sys.peers[link.source];
         && sys.delivered == []
         && FaithfulTo(t, sys.tx)
         && (InStep(sys, t.session) || Ahead(sys, t.session))
       else
         || (forall f :: f in sys.forward ==> !IsRts(f))
         || (sys.forward == [Announce(Start(sys.tx))] && sys.back == [] && sys.delivered == []
             && sys.tx.blockPackets == 0 && !sys.tx.offsetSent)
  }

  /** Sending adds one frame behind the others, at the sender's cursor. */
  lemma FrameAdded(sys: System, move: Move, link: Link)
    requires Safe(sys, link) && Enabled(sys, move, link)
    requires move.SendOffset? || move.SendPacket?
    ensures var sys' := Apply(sys, move, link);
      && |sys'.forward| == |sys.forward| + 1 && sys'.forward[..|sys.forward|] == sys.forward
      && Place(sys'.tx, sys'.forward[|sys.forward|]) == Cursor(sys.tx) == Cursor(sys'.tx) - 1
      && !IsRts(sys'.forward[|sys.forward|])
      && (forall f :: Place(sys'.tx, f) == Place(sys.tx, f))
  {
  }

  lemma SendingKeepsSafe(sys: System, move: Move, link: Link)
    requires Safe(sys, link) && Enabled(sys, move, link)
    requires move.SendOffset? || move.SendPacket?
    ensures Safe(Apply(sys, move, link), link)
  {
    FrameAdded(sys, move, link);
    var sys' := Apply(sys, move, link);
    assert forall i :: 0 <= i < |sys.forward| ==> sys'.forward[i] == sys.forward[i];
  }

  /** The bytes of packet q of the sender's block extend the accepted prefix. */
  lemma PrefixGrows(filled: seq<Byte>, data: seq<Byte>, n: nat, q: Byte)
    requires 1 <= n && (n - 1) * 7 < |data|
    requires filled <= data && |filled| == (n - 1) * 7
    ensures filled + Packet(data, n, q).data[..Min(n * 7, |data|) - (n - 1) * 7] == data[..Min(n * 7, |data|)]
  {
  }

  lemma TailInBlock(tx: Sender, forward: seq<Frame>, low: int)
    requires ValidSender(tx) && forward != [] && InBlock(tx, forward, low)
    ensures low < Place(tx, forward[0]) && 0 <= Place(tx, forward[0]) < Cursor(tx)
    ensures InBlock(tx, forward[1..], Place(tx, forward[0]))
    ensures Place(tx, forward[0]) == Cursor(tx) - 1 ==> forward[1..] == []
    ensures forall f :: f in forward ==> !IsRts(f)
  {
    assert |forward| > 1 ==> Place(tx, forward[0]) < Place(tx, forward[1]) < Cursor(tx);
    assert forall i :: 0 <= i < |forward[1..]| ==> forward[1..][i] == forward[i + 1];
  }

  lemma OffsetTakenKeepsSafe(sys: System, link: Link)
    requires Safe(sys, link) && link.source in sys.peers
    requires sys.forward != [] && sys.forward[0].Announce?
    ensures Safe(Apply(sys, ReceiverTakes, link), link)
  {
    var t := sys.peers[link.source];
    TailInBlock(sys.tx, sys.forward, Low(t.session));
    assert t.filled[..(t.session.blockStart - 1) * 7] == t.filled;
  }

  /** What the receiver makes of a packet of the sender's block. */
  lemma PacketIsPlaced(t: Transfer, tx: Sender, q: Byte, capacity: nat)
    requires ValidTransfer(t, capacity) && ValidSender(tx) && FaithfulTo(t, tx)
    requires tx.blockStart == t.session.blockStart && 1 <= q <= tx.blockPackets
    requires t.session.offset.Some? && q == t.session.nextSequence
    ensures var n := tx.blockStart - 1 + q;
      TakeData(t, Packet(tx.data, n, q), capacity) ==
        if n == tx.packets then (None, Whole(tx, t.session.source))
        else
          var (s, rx) := Progressed(t.session, capacity);
          (Some(Transfer(s, tx.data[..n * 7])), rx)
  {
    var n := tx.blockStart - 1 + q;
    EveryPacketHasRoom(t, Packet(tx.data, n, q), capacity);
    PrefixGrows(t.filled, tx.data, n, q);
    if n == tx.packets {
      assert tx.data[..|tx.data|] == tx.data;
    }
  }

  /** The packet the receiver expects, q of its block, is at the head. */
  ghost predicate AtHead(sys: System, link: Link, t: Transfer, q: Byte) {
    && ValidSender(sys.tx) && ValidPeers(sys.peers, link.capacity)
    && link.source in sys.peers && t == sys.peers[link.source] && FaithfulTo(t, sys.tx)
    && sys.tx.blockStart == t.session.blockStart && 1 <= q <= sys.tx.blockPackets
    && t.session.offset.Some? && q == t.session.nextSequence
    && sys.forward != [] && sys.forward[0] == Data(Packet(sys.tx.data, sys.tx.blockStart - 1 + q, q))
  }

  /** The transfer after such a packet, when it is not the message's last. */
  function Grown(sys: System, t: Transfer, q: Byte, ghost capacity: nat): Transfer
    requires ValidSender(sys.tx) && ValidTransfer(t, capacity) && t.session.offset.Some?
    requires sys.tx.blockStart == t.session.blockStart && q == t.session.nextSequence
    requires sys.tx.blockStart - 1 + q < sys.tx.packets == t.session.packets
  {
    Transfer(Progressed(t.session, capacity).0, sys.tx.data[..(sys.tx.blockStart - 1 + q) * 7])
  }

  lemma GrownIsFaithful(sys: System, link: Link, t: Transfer, q: Byte)
    requires AtHead(sys, link, t, q) && sys.tx.blockStart - 1 + q < sys.tx.packets
    ensures ValidTransfer(Grown(sys, t, q, link.capacity), link.capacity)
    ensures FaithfulTo(Grown(sys, t, q, link.capacity), sys.tx)
  {
  }

  lemma PacketTaken(sys: System, link: Link, t: Transfer, q: Byte)
    requires AtHead(sys, link, t, q) && sys.tx.blockStart - 1 + q < sys.tx.packets
    ensures var u := Grown(sys, t, q, link.capacity);
      var sys' := sys.(forward := sys.forward[1..], peers := sys.peers[link.source := u]);
      Apply(sys, ReceiverTakes, link) ==
        if q < t.session.blockPackets then sys'
        else sys'.(back := sys.back + [Cts(u.session.blockPackets, u.session.blockStart, t.session.pgn)])
  {
    PacketIsPlaced(t, sys.tx, q, link.capacity);
  }

  /** The head of the stretch in flight is the packet the receiver expects. */
  ghost predicate TakesPacket(sys: System, link: Link, t: Transfer, q: Byte) {
    && Safe(sys, link) && link.source in sys.peers && t == sys.peers[link.source]
    && sys.forward != [] && sys.forward[0].Data? && q == sys.forward[0].dt.sequence
    && t.session.offset.Some? && q == t.session.nextSequence
  }

  lemma LastPacketKeepsSafe(sys: System, link: Link, t: Transfer, q: Byte)
    requires TakesPacket(sys, link, t, q) && sys.tx.blockStart - 1 + q == sys.tx.packets
    ensures Safe(Apply(sys, ReceiverTakes, link), link)
  {
    TailInBlock(sys.tx, sys.forward, Low(t.session));
    PacketIsPlaced(t, sys.tx, q, link.capacity);
    var whole := Whole(sys.tx, link.source);
    var sys' := sys.(forward := sys.forward[1..], peers := sys.peers - {link.source},
                     delivered := [whole], back := [whole.ack]);
    assert Apply(sys, ReceiverTakes, link) == sys';
    assert forall f :: f in sys'.forward ==> f in sys.forward;
  }

  lemma LastOfBlockKeepsSafe(sys: System, link: Link, t: Transfer, q: Byte)
    requires TakesPacket(sys, link, t, q) && sys.tx.blockStart - 1 + q < sys.tx.packets
    requires q == t.session.blockPackets
    ensures Safe(Apply(sys, ReceiverTakes, link), link)
  {
    TailInBlock(sys.tx, sys.forward, Low(t.session));
    PacketTaken(sys, link, t, q);
    GrownIsFaithful(sys, link, t, q);
    assert Ahead(Apply(sys, ReceiverTakes, link), Grown(sys, t, q, link.capacity).session);
  }

  lemma InsideBlockKeepsSafe(sys: System, link: Link, t: Transfer, q: Byte)
    requires TakesPacket(sys, link, t, q) && sys.tx.blockStart - 1 + q < sys.tx.packets
    requires q < t.session.blockPackets
    ensures Safe(Apply(sys, ReceiverTakes, link), link)
  {
    TailInBlock(sys.tx, sys.forward, Low(t.session));
    PacketTaken(sys, link, t, q);
    GrownIsFaithful(sys, link, t, q);
    assert InStep(Apply(sys, ReceiverTakes, link), Grown(sys, t, q, link.capacity).session);
  }

  lemma DataTakenKeepsSafe(sys: System, link: Link)
    requires Safe(sys, link) && link.source in sys.peers
    requires sys.forward != [] && sys.forward[0].Data?
    ensures Safe(Apply(sys, ReceiverTakes, link), link)
  {
    var t := sys.peers[link.source];
    var q := sys.forward[0].dt.sequence;
    TailInBlock(sys.tx, sys.forward, Low(t.session));
    if t.session.offset.None? || q != t.session.nextSequence {
      assert Apply(sys, ReceiverTakes, link).peers == sys.peers - {link.source};
      assert forall f :: f in sys.forward[1..] ==> f in sys.forward;
    } else if sys.tx.blockStart - 1 + q == sys.tx.packets {
      LastPacketKeepsSafe(sys, link, t, q);
    } else if q == t.session.blockPackets {
      LastOfBlockKeepsSafe(sys, link, t, q);
    } else {
      InsideBlockKeepsSafe(sys, link, t, q);
    }
  }

  /** With no session, what is not a request to send opens none. */
  lemma StrayKeepsSafe(sys: System, link: Link)
    requires Safe(sys, link) && link.source !in sys.peers && sys.forward != []
    requires forall f :: f in sys.forward ==> !IsRts(f)
    ensures Safe(Apply(sys, ReceiverTakes, link), link)
  {
    assert sys.forward[0] in sys.forward;
    assert forall f :: f in sys.forward[1..] ==> f in sys.forward;
  }

  lemma OfferKeepsSafe(sys: System, link: Link)
    requires Safe(sys, link) && link.source !in sys.peers && sys.forward == [Announce(Start(sys.tx))]
    requires sys.back == [] && sys.delivered == [] && sys.tx.blockPackets == 0 && !sys.tx.offsetSent
    ensures Safe(Apply(sys, ReceiverTakes, link), link)
  {
  }

  lemma ReceiverKeepsSafe(sys: System, link: Link)
    requires Safe(sys, link) && sys.forward != []
    ensures Safe(Apply(sys, ReceiverTakes, link), link)
  {
    if link.source !in sys.peers {
      if forall f :: f in sys.forward ==> !IsRts(f) {
        StrayKeepsSafe(sys, link);
      } else {
        OfferKeepsSafe(sys, link);
      }
    } else if sys.forward[0].Announce? {
      OffsetTakenKeepsSafe(sys, link);
    } else {
      DataTakenKeepsSafe(sys, link);
    }
  }

  lemma SenderKeepsSafe(sys: System, link: Link)
    requires Safe(sys, link) && sys.back != []
    ensures Safe(Apply(sys, SenderTakes, link), link)
  {
    assert sys.back[0] in sys.back;
  }

  /** The same transfer, perhaps older. */
  predicate Alike(t: Option<Transfer>, u: Option<Transfer>) {
    t == u || (t.Some? && u.Some? && u.value == t.value.(session := t.value.session.(idleMs := u.value.session.idleMs)))
  }

  /** What happens elsewhere leaves a peer's transfer as it is, or ends it. */
  lemma ElsewhereIsAlike(peers: Peers, e: Event, a: Address, capacity: nat, sessions: nat)
    requires ValidPeers(peers, capacity)
    requires IsFrom(e, a) ==> e.Abandoned? || (e.Cm? && (e.cm.Cts? || e.cm.Eoma? || e.cm.Abort?))
    ensures IsFrom(e, a) ==> Step(peers, e, capacity, sessions).1 == Idle
    ensures var after := Peer(Step(peers, e, capacity, sessions).0, a);
      && (after == None || Alike(Peer(peers, a), after))
      && (after == None && a in peers ==>
            e.Reset? || IsFrom(e, a) || (e.Ticked? && Expires(peers[a], e.elapsed, e.timeout)))
  {
    if (e.Cm? || e.Dt? || e.Abandoned?) && e.source != a {
      NonInterference(peers, e, e.source, a, capacity, sessions);
    }
  }

  lemma PeersChangedKeepsSafe(sys: System, peers: Peers, link: Link)
    requires Safe(sys, link) && ValidPeers(peers, link.capacity)
    requires link.source !in peers || Alike(Peer(sys.peers, link.source), Peer(peers, link.source))
    ensures Safe(sys.(peers := peers), link)
  {
    if link.source in sys.peers && link.source !in peers {
      assert forall f :: f in sys.forward ==> !IsRts(f);
    }
  }

  lemma ElsewhereKeepsSafe(sys: System, e: Event, link: Link)
    requires Safe(sys, link) && Enabled(sys, Elsewhere(e), link)
    ensures Safe(Apply(sys, Elsewhere(e), link), link)
  {
    ElsewhereIsAlike(sys.peers, e, link.source, link.capacity, link.sessions);
    PeersChangedKeepsSafe(sys, Step(sys.peers, e, link.capacity, link.sessions).0, link);
  }

  lemma LossKeepsSafe(sys: System, move: Move, link: Link)
    requires Safe(sys, link) && Enabled(sys, move, link)
    requires move.LoseForward? || move.LoseBack?
    ensures Safe(Apply(sys, move, link), link)
  {
    var sys' := Apply(sys, move, link);
    if move.LoseForward? {
      assert forall k :: 0 <= k < |sys'.forward| ==> sys'.forward[k] == sys.forward[if k < move.i then k else k + 1];
    } else {
      assert forall k :: 0 <= k < |sys'.back| ==> sys'.back[k] == sys.back[if k < move.i then k else k + 1];
    }
  }

  ghost predicate IsRun(sys: System, moves: seq<Move>, link: Link)
    requires ValidSender(sys.tx) && ValidPeers(sys.peers, link.capacity)
    decreases |moves|
  {
    moves == [] || (Enabled(sys, moves[0], link) && IsRun(Apply(sys, moves[0], link), moves[1..], link))
  }

  function End(sys: System, moves: seq<Move>, link: Link): System
    requires ValidSender(sys.tx) && ValidPeers(sys.peers, link.capacity)
    requires IsRun(sys, moves, link)
    decreases |moves|
  {
    if moves == [] then sys else End(Apply(sys, moves[0], link), moves[1..], link)
  }

  lemma MoveKeepsSafe(sys: System, move: Move, link: Link)
    requires Safe(sys, link) && Enabled(sys, move, link)
    ensures Safe(Apply(sys, move, link), link)
  {
    match move
    case SendOffset => SendingKeepsSafe(sys, move, link);
    case SendPacket => SendingKeepsSafe(sys, move, link);
    case ReceiverTakes => ReceiverKeepsSafe(sys, link);
    case SenderTakes => SenderKeepsSafe(sys, link);
    case Elsewhere(e) => ElsewhereKeepsSafe(sys, e, link);
    case LoseForward(_) => LossKeepsSafe(sys, move, link);
    case LoseBack(_) => LossKeepsSafe(sys, move, link);
  }

  lemma MoveKeepsPayload(sys: System, move: Move, link: Link)
    requires ValidSender(sys.tx) && ValidPeers(sys.peers, link.capacity)
    requires Enabled(sys, move, link)
    ensures Apply(sys, move, link).tx.data == sys.tx.data && Apply(sys, move, link).tx.pgn == sys.tx.pgn
  {
  }

  lemma {:induction false} RunKeepsSafe(sys: System, moves: seq<Move>, link: Link)
    requires Safe(sys, link) && IsRun(sys, moves, link)
    ensures Safe(End(sys, moves, link), link)
    ensures End(sys, moves, link).tx.data == sys.tx.data && End(sys, moves, link).tx.pgn == sys.tx.pgn
    decreases |moves|
  {
    if moves != [] {
      MoveKeepsSafe(sys, moves[0], link);
      MoveKeepsPayload(sys, moves[0], link);
      RunKeepsSafe(Apply(sys, moves[0], link), moves[1..], link);
    }
  }

  /** If the channels keep order, then whatever frames they lose, whatever times
      out and whatever else the receiver is doing, one transfer delivers nothing
      or exactly its payload, once; and a sender that believes it is complete is
      right. */
  lemma NothingButThePayload(tx: Sender, peers: Peers, link: Link, moves: seq<Move>)
    requires CanBegin(tx, peers, link)
    requires IsRun(Initial(tx, peers), moves, link)
    ensures var end := End(Initial(tx, peers), moves, link);
      && (end.delivered == [] || end.delivered == [Message(tx.pgn, link.source, tx.data, Eoma(|tx.data|, tx.pgn))])
      && (end.tx.complete ==> end.delivered != [])
  {
    RunKeepsSafe(Initial(tx, peers), moves, link);
  }
}
