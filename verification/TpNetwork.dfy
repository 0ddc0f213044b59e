/** An addressed sender and a receiver on a network that may lose, repeat and
    reorder what either says, while the receiver goes on serving other peers. */
module TpNetwork {
  import opened Types
  import opened TpSpec
  import S = TpSafety
  import X = TpTransmitter

  datatype Frame = Announce(cm: TpCm) | Data(dt: TpDt)

  /** `sent` and `answered` hold all that was ever put on the network: any of it
      may arrive, in any order, any number of times or never. */
  datatype System = System(tx: Sender, peers: Peers, sent: set<Frame>, answered: set<TpCm>, delivered: seq<Rx>)

  datatype Link = Link(source: Address, capacity: nat, sessions: nat)

  datatype Move = SenderPulls | ReceiverHears(f: Frame) | SenderHears(cm: TpCm) | Elsewhere(e: S.Event)

  predicate Enabled(sys: System, move: Move, link: Link)
    requires ValidSender(sys.tx)
  {
    match move
    case SenderPulls => NextPacket(sys.tx).1.Some?
    case ReceiverHears(f) => f in sys.sent
    case SenderHears(cm) => cm in sys.answered
    case Elsewhere(e) => !S.IsOffer(e, link.source) && !(e.Dt? && e.source == link.source)
  }

  function Answered(sys: System, rx: Rx): System {
    match rx
    case Idle => sys
    case Send(cm) => sys.(answered := sys.answered + {cm})
    case Message(_, _, _, ack) =>
      sys.(delivered := sys.delivered + [rx], answered := sys.answered + if ack.Some? then {ack.value} else {})
  }

  /** A frame of the transfer, as the receiver's event. */
  function Heard(f: Frame, source: Address): S.Event {
    match f
    case Announce(cm) => S.Cm(source, cm)
    case Data(dt) => S.Dt(source, dt)
  }

  function Apply(sys: System, move: Move, link: Link): (r: System)
    requires ValidSender(sys.tx) && ValidPeers(sys.peers, link.capacity) && Enabled(sys, move, link)
    ensures ValidSender(r.tx) && ValidPeers(r.peers, link.capacity)
  {
    match move
    case SenderPulls =>
      var (tx, dt) := NextPacket(sys.tx);
      sys.(tx := tx, sent := sys.sent + {Data(dt.value)})
    case ReceiverHears(f) =>
      var (peers, rx) := S.Step(sys.peers, Heard(f, link.source), link.capacity, link.sessions);
      Answered(sys.(peers := peers), rx)
    case SenderHears(cm) => sys.(tx := OnCm(sys.tx, cm).0)
    case Elsewhere(e) => sys.(peers := S.Step(sys.peers, e, link.capacity, link.sessions).0)
  }

  function Initial(tx: Sender, peers: Peers): System
    requires ValidSender(tx)
  {
    System(tx, peers, {Announce(Start(tx))}, {}, [])
  }

  /** A frame this sender may have put out. */
  predicate IsOwn(f: Frame, tx: Sender)
    requires ValidSender(tx)
  {
    match f
    case Announce(cm) => cm == Start(tx)
    case Data(dt) => X.IsChunk(dt, tx.data)
  }

  predicate IsItsMessage(rx: Rx, tx: Sender, source: Address) {
    rx.Message? && rx.pgn == tx.pgn && rx.source == source && rx.data == tx.data
  }

  ghost predicate Safe(sys: System, link: Link) {
    && ValidSender(sys.tx) && !sys.tx.broadcast && ValidPeers(sys.peers, link.capacity)
    && S.Faithful(sys.peers, link.source, sys.tx)
    && (forall f :: f in sys.sent ==> IsOwn(f, sys.tx))
    && (forall rx :: rx in sys.delivered ==> IsItsMessage(rx, sys.tx, link.source))
    && (forall cm :: cm in sys.answered && cm.EndOfMsgAck? ==> sys.delivered != [])
    && (sys.tx.complete ==> sys.delivered != [])
  }

  lemma OwnFramesAreGenuine(f: Frame, tx: Sender, source: Address)
    requires ValidSender(tx) && IsOwn(f, tx)
    ensures S.Genuine(Heard(f, source), source, tx)
  {
  }

  lemma HearingKeepsSafe(sys: System, f: Frame, link: Link)
    requires Safe(sys, link) && f in sys.sent
    ensures Safe(Apply(sys, ReceiverHears(f), link), link)
  {
    var e := Heard(f, link.source);
    OwnFramesAreGenuine(f, sys.tx, link.source);
    S.GenuineStep(sys.peers, e, link.source, sys.tx, link.capacity, link.sessions);
    AnswersAreItsOwn(sys.peers, f, link);
    var (peers, rx) := S.Step(sys.peers, e, link.capacity, link.sessions);
    AnsweredKeepsSafe(sys.(peers := peers), rx, link);
  }

  /** What the receiver says to a frame is no acknowledgement, unless with the
      message it delivers, and that is its sender's. */
  lemma AnswersAreItsOwn(peers: Peers, f: Frame, link: Link)
    requires ValidPeers(peers, link.capacity)
    ensures var rx := S.Step(peers, Heard(f, link.source), link.capacity, link.sessions).1;
      && (rx.Send? ==> !rx.cm.EndOfMsgAck?)
      && (rx.Message? ==> rx.source == link.source)
  {
    if f.Data? && link.source in peers {
      assert ValidTransfer(peers[link.source], link.capacity);
    }
  }

  lemma AnsweredKeepsSafe(sys: System, rx: Rx, link: Link)
    requires Safe(sys, link) && (rx.Send? ==> !rx.cm.EndOfMsgAck?)
    requires rx.Message? ==> IsItsMessage(rx, sys.tx, link.source)
    ensures Safe(Answered(sys, rx), link)
  {
  }

  lemma SendingKeepsSafe(sys: System, link: Link)
    requires Safe(sys, link) && NextPacket(sys.tx).1.Some?
    ensures Safe(Apply(sys, SenderPulls, link), link)
  {
    var tx := NextPacket(sys.tx).0;
    assert forall f :: IsOwn(f, tx) == IsOwn(f, sys.tx);
  }

  lemma AnswerKeepsSafe(sys: System, cm: TpCm, link: Link)
    requires Safe(sys, link) && cm in sys.answered
    ensures Safe(Apply(sys, SenderHears(cm), link), link)
  {
    var tx := OnCm(sys.tx, cm).0;
    assert forall f :: IsOwn(f, tx) == IsOwn(f, sys.tx);
  }

  lemma ElsewhereKeepsSafe(sys: System, e: S.Event, link: Link)
    requires Safe(sys, link) && Enabled(sys, Elsewhere(e), link)
    ensures Safe(Apply(sys, Elsewhere(e), link), link)
  {
    S.GenuineStep(sys.peers, e, link.source, sys.tx, link.capacity, link.sessions);
  }

  lemma MoveKeepsSafe(sys: System, move: Move, link: Link)
    requires Safe(sys, link) && Enabled(sys, move, link)
    ensures Safe(Apply(sys, move, link), link)
    ensures var tx := Apply(sys, move, link).tx; tx.data == sys.tx.data && tx.pgn == sys.tx.pgn
  {
    match move
    case SenderPulls => SendingKeepsSafe(sys, link);
    case ReceiverHears(f) => HearingKeepsSafe(sys, f, link);
    case SenderHears(cm) => AnswerKeepsSafe(sys, cm, link);
    case Elsewhere(e) => ElsewhereKeepsSafe(sys, e, link);
  }

  ghost predicate IsRun(sys: System, moves: seq<Move>, link: Link)
    requires ValidSender(sys.tx) && ValidPeers(sys.peers, link.capacity)
    decreases |moves|
  {
    moves == [] || (Enabled(sys, moves[0], link) && IsRun(Apply(sys, moves[0], link), moves[1..], link))
  }

  function End(sys: System, moves: seq<Move>, link: Link): System
    requires ValidSender(sys.tx) && ValidPeers(sys.peers, link.capacity) && IsRun(sys, moves, link)
    decreases |moves|
  {
    if moves == [] then sys else End(Apply(sys, moves[0], link), moves[1..], link)
  }

  lemma {:induction false} RunKeepsSafe(sys: System, moves: seq<Move>, link: Link)
    requires Safe(sys, link) && IsRun(sys, moves, link)
    ensures var end := End(sys, moves, link);
      Safe(end, link) && end.tx.data == sys.tx.data && end.tx.pgn == sys.tx.pgn
    decreases |moves|
  {
    if moves != [] {
      MoveKeepsSafe(sys, moves[0], link);
      RunKeepsSafe(Apply(sys, moves[0], link), moves[1..], link);
    }
  }

  /** Whatever the network does to either side, everything delivered is exactly
      the payload; and a sender that is complete has been told so by a receiver
      that delivered it. */
  lemma NothingButThePayload(tx: Sender, peers: Peers, link: Link, moves: seq<Move>)
    requires ValidSender(tx) && !tx.broadcast && !tx.complete
    requires ValidPeers(peers, link.capacity) && link.source !in peers
    requires IsRun(Initial(tx, peers), moves, link)
    ensures var end := End(Initial(tx, peers), moves, link);
      && (forall rx :: rx in end.delivered ==>
            rx.Message? && rx.pgn == tx.pgn && rx.source == link.source && rx.data == tx.data)
      && (end.tx.complete ==> end.delivered != [])
  {
    RunKeepsSafe(Initial(tx, peers), moves, link);
  }
}
