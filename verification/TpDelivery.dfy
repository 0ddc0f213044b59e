/** An addressed sender and a receiver joined by two FIFO channels, each free to
    move whenever it can, while the receiver goes on serving other peers. */
module TpDelivery {
  import opened Types
  import opened TpSpec
  import opened Arith
  import TpSafety

  datatype Frame = Announce(cm: TpCm) | Data(dt: TpDt)

  /** `granted` lists the windows the receiver has opened, `delivered` what it
      has handed to its application for this peer. */
  datatype System = System(
    tx: Sender,
    peers: Peers,
    forward: seq<Frame>,
    back: seq<TpCm>,
    granted: seq<Byte>,
    delivered: seq<Rx>)

  /** Who is talking to whom, and the receiver's buffer and slots. */
  datatype Link = Link(source: Address, capacity: nat, sessions: nat)

  datatype Step = SenderPulls | ReceiverTakes | SenderTakes | Elsewhere(e: TpSafety.Event)

  predicate IsProtocol(step: Step) {
    !step.Elsewhere?
  }

  /** Traffic that is not this transfer's: any event of another source, as long
      as it leaves a slot for a transfer still to be announced; what this source
      says of other transfers, ours to it among them; and any tick that does not
      time this transfer out. */
  predicate Unrelated(sys: System, e: TpSafety.Event, link: Link)
    requires ValidPeers(sys.peers, link.capacity)
  {
    && !e.Reset?
    && (TpSafety.IsFrom(e, link.source) ==> e.Cm? && TpSafety.IsAside(e.cm, sys.tx.pgn))
    && (e.Ticked? && link.source in sys.peers ==> !Expires(sys.peers[link.source], e.elapsed, e.timeout))
    && (link.source !in sys.peers && sys.forward != [] ==>
          |TpSafety.Step(sys.peers, e, link.capacity, link.sessions).0| < link.sessions)
  }

  predicate Enabled(sys: System, step: Step, link: Link)
    requires ValidSender(sys.tx) && ValidPeers(sys.peers, link.capacity)
  {
    match step
    case SenderPulls => NextPacket(sys.tx).1.Some?
    case ReceiverTakes => sys.forward != []
    case SenderTakes => sys.back != []
    case Elsewhere(e) => Unrelated(sys, e, link)
  }

  function Taken(sys: System, rx: Rx): System {
    match rx
    case Idle => sys
    case Send(cm) => sys.(back := sys.back + [cm],
                          granted := if cm.Cts? then sys.granted + [cm.packets] else sys.granted)
    case Message(_, _, _, ack) => sys.(delivered := sys.delivered + [rx],
                                       back := if ack.Some? then sys.back + [ack.value] else sys.back)
  }

  function Apply(sys: System, step: Step, link: Link): (r: System)
    requires ValidSender(sys.tx) && ValidPeers(sys.peers, link.capacity)
    requires Enabled(sys, step, link)
    ensures ValidSender(r.tx) && ValidPeers(r.peers, link.capacity)
  {
    match step
    case SenderPulls =>
      var (tx, dt) := NextPacket(sys.tx);
      sys.(tx := tx, forward := sys.forward + [Data(dt.value)])
    case ReceiverTakes =>
      var rest := sys.(forward := sys.forward[1..]);
      (match sys.forward[0]
       case Announce(cm) =>
         var (peers, rx) := TakeCm(sys.peers, link.source, cm, link.capacity, link.sessions);
         Taken(rest.(peers := peers), rx)
       case Data(dt) =>
         var (peers, rx) := TakeDt(sys.peers, link.source, dt, link.capacity);
         Taken(rest.(peers := peers), rx))
    case SenderTakes =>
      sys.(tx := OnCm(sys.tx, sys.back[0]).0, back := sys.back[1..])
    case Elsewhere(e) =>
      var (peers, rx) := TpSafety.Step(sys.peers, e, link.capacity, link.sessions);
      if TpSafety.IsFrom(e, link.source) then Taken(sys.(peers := peers), rx) else sys.(peers := peers)
  }

  /** Packets per window: the sender's limit, or everything if it states none. */
  function Limit(tx: Sender): nat {
    if tx.maxPacketsPerCts == 0 || tx.maxPacketsPerCts == 0xFF then tx.packets else tx.maxPacketsPerCts
  }

  function Initial(tx: Sender, peers: Peers): System
    requires ValidSender(tx)
  {
    System(tx, peers, [Announce(Start(tx))], [], [], [])
  }

  /** A fresh addressed sender, and a receiver that can take what it offers. */
  ghost predicate CanBegin(tx: Sender, peers: Peers, link: Link) {
    && ValidSender(tx) && !tx.broadcast && !tx.complete
    && tx.nextSequence == 1 && tx.windowRemaining == 0
    && ValidPeers(peers, link.capacity)
    && link.source !in peers && |peers| < link.sessions
    && |tx.data| <= link.capacity
  }

  // ------------------------------------------------------------- invariant

  /** Packets m up to, not including, n, in order. */
  function Packets(data: seq<Byte>, m: nat, n: nat): (s: seq<Frame>)
    requires 1 <= m <= n <= 256 && (n > m ==> (n - 2) * 7 <= |data|)
    ensures |s| == n - m
    decreases n - m
  {
    if m == n then [] else Packets(data, m, n - 1) + [Data(Packet(data, n - 1))]
  }

  lemma {:induction false} PacketsHead(data: seq<Byte>, m: nat, n: nat)
    requires 1 <= m < n <= 256 && (n - 2) * 7 <= |data|
    ensures Packets(data, m, n)[0] == Data(Packet(data, m))
    ensures Packets(data, m, n)[1..] == Packets(data, m + 1, n)
    decreases n - m
  {
    if m + 1 < n {
      PacketsHead(data, m, n - 1);
      assert Packets(data, m, n)[1..] == Packets(data, m, n - 1)[1..] + [Data(Packet(data, n - 1))];
    } else {
      assert Packets(data, m, n) == [] + [Data(Packet(data, m))];
    }
  }

  /** Where the transfer stands. */
  datatype Phase =
    | Offered
    | Granting(window: Byte)
    | Flowing
    | Acknowledging
    | Done

  function PhaseOf(sys: System, link: Link): Phase {
    if link.source in sys.peers then
      if sys.back != [] && sys.back[0].Cts? then Granting(sys.back[0].packets) else Flowing
    else if sys.delivered == [] then Offered
    else if sys.back != [] then Acknowledging
    else Done
  }

  /** The windows opened so far: full ones, and only the last may be short. */
  ghost predicate WindowsAre(granted: seq<Byte>, limit: nat, packets: nat, end: nat) {
    && (forall k :: 0 <= k < |granted| ==> 1 <= granted[k] <= limit)
    && end == Min(|granted| * limit, packets)
    && (|granted| > 0 ==> (|granted| - 1) * limit < packets)
  }

  ghost predicate Receiving(sys: System, link: Link, next: nat, window: nat) {
    && link.source in sys.peers
    && var t := sys.peers[link.source];
       && t.session.pgn == sys.tx.pgn
       && t.session.size == |sys.tx.data|
       && t.session.packets == sys.tx.packets
       && !t.session.broadcast
       && t.session.maxPacketsPerCts == sys.tx.maxPacketsPerCts
       && t.session.nextSequence == next
       && t.session.windowRemaining == window
       && t.filled <= sys.tx.data
  }

  ghost predicate Delivered(sys: System, link: Link)
    requires ValidSender(sys.tx)
  {
    && sys.delivered == [Message(sys.tx.pgn, link.source, sys.tx.data,
                                 Some(EndOfMsgAck(|sys.tx.data|, sys.tx.packets, sys.tx.pgn)))]
    && sys.forward == []
    && sys.tx.windowRemaining == 0 && sys.tx.nextSequence == sys.tx.packets + 1
    && link.source !in sys.peers
  }

  ghost predicate Inv(sys: System, link: Link) {
    && ValidSender(sys.tx) && !sys.tx.broadcast
    && ValidPeers(sys.peers, link.capacity)
    && |sys.tx.data| <= link.capacity
    && var p := sys.tx.packets;
       var l := Limit(sys.tx);
       match PhaseOf(sys, link)
       case Offered =>
         && !sys.tx.complete && sys.tx.nextSequence == 1 && sys.tx.windowRemaining == 0
         && link.source !in sys.peers && |sys.peers| < link.sessions
         && sys.forward == [Announce(Start(sys.tx))] && sys.back == []
         && sys.granted == [] && sys.delivered == []
       case Granting(w) =>
         && !sys.tx.complete && sys.delivered == []
         && sys.tx.windowRemaining == 0 && sys.forward == []
         && sys.tx.nextSequence <= p && w >= 1
         && sys.back == [Cts(w, sys.tx.nextSequence, sys.tx.pgn)]
         && Receiving(sys, link, sys.tx.nextSequence, w)
         && WindowsAre(sys.granted, l, p, sys.tx.nextSequence - 1 + w)
       case Flowing =>
         && !sys.tx.complete && sys.delivered == [] && sys.back == []
         && var n := sys.tx.nextSequence;
            var m := n - |sys.forward|;
            && 1 <= m
            && sys.forward == Packets(sys.tx.data, m, n)
            && Receiving(sys, link, m, n - m + sys.tx.windowRemaining)
            && WindowsAre(sys.granted, l, p, n - 1 + sys.tx.windowRemaining)
       case Acknowledging =>
         && !sys.tx.complete && Delivered(sys, link)
         && sys.back == [EndOfMsgAck(|sys.tx.data|, p, sys.tx.pgn)]
         && WindowsAre(sys.granted, l, p, p)
       case Done =>
         && sys.tx.complete && Delivered(sys, link) && sys.back == []
         && WindowsAre(sys.granted, l, p, p)
  }

  lemma PullKeepsInv(sys: System, link: Link)
    requires Inv(sys, link) && Enabled(sys, SenderPulls, link)
    ensures Inv(Apply(sys, SenderPulls, link), link)
    ensures Measure(Apply(sys, SenderPulls, link), link) == Measure(sys, link) - 1
  {
  }

  lemma SenderTakesKeepsInv(sys: System, link: Link)
    requires Inv(sys, link) && Enabled(sys, SenderTakes, link)
    ensures Inv(Apply(sys, SenderTakes, link), link)
    ensures Measure(Apply(sys, SenderTakes, link), link) == Measure(sys, link) - 1
  {
  }

  /** Opening one more window, at its full width or at what is left. */
  lemma WindowOpens(granted: seq<Byte>, limit: nat, packets: nat, end: nat, w: Byte)
    requires limit >= 1 && end < packets
    requires WindowsAre(granted, limit, packets, end)
    requires w == Min(limit, packets - end)
    ensures WindowsAre(granted + [w], limit, packets, end + w)
  {
    assert |granted| * limit == end;
    assert (|granted| + 1) * limit == |granted| * limit + limit;
  }

  lemma OfferKeepsInv(sys: System, link: Link)
    requires Inv(sys, link) && PhaseOf(sys, link).Offered?
    ensures Inv(Apply(sys, ReceiverTakes, link), link)
    ensures Measure(Apply(sys, ReceiverTakes, link), link) == Measure(sys, link) - 1
  {
    var w := GrantWindow(sys.tx.packets, sys.tx.maxPacketsPerCts);
    WindowOpens([], Limit(sys.tx), sys.tx.packets, 0, w);
    assert [] + [w] == [w];
  }

  /** The transfer in progress, with its first m packets accepted. */
  function Accepted(sys: System, link: Link, m: nat, window: Byte): Transfer
    requires ValidSender(sys.tx) && link.source in sys.peers && m < sys.tx.packets
  {
    Transfer(sys.peers[link.source].session.(nextSequence := m + 1, windowRemaining := window, idleMs := 0),
             sys.tx.data[..m * 7])
  }

  /** The receiver takes packet m, the head of the stretch in flight. */
  ghost predicate TakesPacket(sys: System, link: Link, m: nat) {
    && Inv(sys, link) && PhaseOf(sys, link).Flowing? && sys.forward != []
    && m == sys.tx.nextSequence - |sys.forward|
  }

  function Answer(sys: System, link: Link): (r: (Peers, Rx))
    requires ValidSender(sys.tx) && ValidPeers(sys.peers, link.capacity)
    requires sys.forward != [] && sys.forward[0].Data?
  {
    TakeDt(sys.peers, link.source, sys.forward[0].dt, link.capacity)
  }

  /** What the receiver makes of packet m: the end of the message, the end of a
      window, or one more packet. */
  lemma AnswerIs(sys: System, link: Link, m: nat)
    requires TakesPacket(sys, link, m)
    ensures sys.forward[0] == Data(Packet(sys.tx.data, m)) && 1 <= m <= sys.tx.packets
    ensures sys.forward[1..] == Packets(sys.tx.data, m + 1, sys.tx.nextSequence)
    ensures
      var window := sys.peers[link.source].session.windowRemaining;
      var ack := EndOfMsgAck(|sys.tx.data|, sys.tx.packets, sys.tx.pgn);
      Answer(sys, link) ==
        if m == sys.tx.packets then
          (sys.peers - {link.source}, Message(sys.tx.pgn, link.source, sys.tx.data, Some(ack)))
        else if window == 1 then
          var w := GrantWindow(sys.tx.packets - m, sys.tx.maxPacketsPerCts);
          (sys.peers[link.source := Accepted(sys, link, m, w)], Send(Cts(w, m + 1, sys.tx.pgn)))
        else
          (sys.peers[link.source := Accepted(sys, link, m, window - 1)], Idle)
  {
    PacketsHead(sys.tx.data, m, sys.tx.nextSequence);
    TpSafety.PrefixGrows(sys.peers[link.source].filled, sys.tx.data, m);
    if m == sys.tx.packets {
      assert ChunkEnd(m, |sys.tx.data|) == |sys.tx.data|;
      assert sys.tx.data[..|sys.tx.data|] == sys.tx.data;
    } else {
      assert ChunkEnd(m, |sys.tx.data|) == m * 7;
    }
  }

  lemma LastPacketKeepsInv(sys: System, link: Link, m: nat)
    requires TakesPacket(sys, link, m) && m == sys.tx.packets
    ensures Inv(Apply(sys, ReceiverTakes, link), link)
    ensures Measure(Apply(sys, ReceiverTakes, link), link) == Measure(sys, link) - 1
  {
    AnswerIs(sys, link, m);
    var (peers, rx) := Answer(sys, link);
    assert Apply(sys, ReceiverTakes, link) ==
      sys.(forward := [], peers := peers, delivered := [rx], back := [rx.ack.value]);
  }

  /** The system once a window is used up and the next one granted. */
  lemma WindowGrantedKeepsInv(sys: System, sys': System, link: Link, m: nat, w: Byte)
    requires TakesPacket(sys, link, m) && m < sys.tx.packets
    requires sys.tx.windowRemaining == 0 && sys.tx.nextSequence == m + 1
    requires w == Min(Limit(sys.tx), sys.tx.packets - m)
    requires ValidPeers(sys'.peers, link.capacity)
    requires sys' == sys.(forward := [], peers := sys.peers[link.source := Accepted(sys, link, m, w)],
                          granted := sys.granted + [w], back := [Cts(w, m + 1, sys.tx.pgn)])
    ensures Inv(sys', link)
    ensures Measure(sys', link) == Measure(sys, link) - 1
  {
    WindowOpens(sys.granted, Limit(sys.tx), sys.tx.packets, m, w);
  }

  lemma LastOfWindowKeepsInv(sys: System, link: Link, m: nat)
    requires TakesPacket(sys, link, m) && m < sys.tx.packets
    requires sys.peers[link.source].session.windowRemaining == 1
    ensures Inv(Apply(sys, ReceiverTakes, link), link)
    ensures Measure(Apply(sys, ReceiverTakes, link), link) == Measure(sys, link) - 1
  {
    AnswerIs(sys, link, m);
    var (peers, rx) := Answer(sys, link);
    var w := rx.cm.packets;
    assert Apply(sys, ReceiverTakes, link) ==
      sys.(forward := [], peers := peers, granted := sys.granted + [w], back := [rx.cm]);
    WindowGrantedKeepsInv(sys, Apply(sys, ReceiverTakes, link), link, m, w);
  }

  lemma InsideWindowKeepsInv(sys: System, link: Link, m: nat)
    requires TakesPacket(sys, link, m) && m < sys.tx.packets
    requires sys.peers[link.source].session.windowRemaining > 1
    ensures Inv(Apply(sys, ReceiverTakes, link), link)
    ensures Measure(Apply(sys, ReceiverTakes, link), link) == Measure(sys, link) - 1
  {
    AnswerIs(sys, link, m);
    assert Apply(sys, ReceiverTakes, link) ==
      sys.(forward := sys.forward[1..], peers := Answer(sys, link).0);
  }

  lemma DataKeepsInv(sys: System, link: Link)
    requires Inv(sys, link) && PhaseOf(sys, link).Flowing? && sys.forward != []
    ensures Inv(Apply(sys, ReceiverTakes, link), link)
    ensures Measure(Apply(sys, ReceiverTakes, link), link) == Measure(sys, link) - 1
  {
    var m := sys.tx.nextSequence - |sys.forward|;
    AnswerIs(sys, link, m);
    if m == sys.tx.packets {
      LastPacketKeepsInv(sys, link, m);
    } else if sys.peers[link.source].session.windowRemaining == 1 {
      LastOfWindowKeepsInv(sys, link, m);
    } else {
      InsideWindowKeepsInv(sys, link, m);
    }
  }

  /** The same transfer, perhaps older. */
  predicate Alike(t: Option<Transfer>, u: Option<Transfer>) {
    t == u || (t.Some? && u.Some? && u.value == t.value.(session := t.value.session.(idleMs := u.value.session.idleMs)))
  }

  lemma UnrelatedIsAlike(sys: System, e: TpSafety.Event, link: Link)
    requires ValidPeers(sys.peers, link.capacity) && Unrelated(sys, e, link) && !TpSafety.IsFrom(e, link.source)
    ensures var peers := TpSafety.Step(sys.peers, e, link.capacity, link.sessions).0;
      Alike(Peer(sys.peers, link.source), Peer(peers, link.source))
  {
    if !e.Ticked? {
      TpSafety.NonInterference(sys.peers, e, e.source, link.source, link.capacity, link.sessions);
    }
  }

  lemma PeersChangedKeepsMeasure(sys: System, peers: Peers, link: Link)
    requires ValidSender(sys.tx)
    requires Alike(Peer(sys.peers, link.source), Peer(peers, link.source))
    ensures PhaseOf(sys.(peers := peers), link) == PhaseOf(sys, link)
    ensures Measure(sys.(peers := peers), link) == Measure(sys, link)
  {
  }

  lemma PeersChangedKeepsInv(sys: System, peers: Peers, link: Link)
    requires Inv(sys, link) && ValidPeers(peers, link.capacity)
    requires Alike(Peer(sys.peers, link.source), Peer(peers, link.source))
    requires link.source !in peers && sys.forward != [] ==> |peers| < link.sessions
    ensures Inv(sys.(peers := peers), link)
  {
    PeersChangedKeepsMeasure(sys, peers, link);
  }

  lemma ElsewhereKeepsInv(sys: System, e: TpSafety.Event, link: Link)
    requires Inv(sys, link) && Enabled(sys, Elsewhere(e), link)
    ensures Inv(Apply(sys, Elsewhere(e), link), link)
    ensures Measure(Apply(sys, Elsewhere(e), link), link) == Measure(sys, link)
  {
    if TpSafety.IsFrom(e, link.source) {
      TpSafety.AsidesChangeNothing(sys.peers, link.source, e.cm, sys.tx.pgn, link.capacity, link.sessions);
      return;
    }
    UnrelatedIsAlike(sys, e, link);
    var peers := TpSafety.Step(sys.peers, e, link.capacity, link.sessions).0;
    PeersChangedKeepsInv(sys, peers, link);
    PeersChangedKeepsMeasure(sys, peers, link);
  }

  /** Protocol steps still to come: one per packet pulled, one per frame taken,
      one per answer taken. */
  function Measure(sys: System, link: Link): int
    requires ValidSender(sys.tx)
  {
    var p := sys.tx.packets;
    var r := if link.source in sys.peers then sys.peers[link.source].session.nextSequence
             else if sys.delivered == [] then 1 else p + 1;
    (p + 1 - sys.tx.nextSequence) + (p + 1 - r)
    + (if PhaseOf(sys, link).Offered? then 1 else 0)
    + CeilDiv(p, Limit(sys.tx)) - |sys.granted|
    + |sys.back| + (if sys.delivered == [] then 1 else 0)
  }

  /** Every step keeps the invariant, and every protocol step uses up exactly
      one of the steps still to come. */
  lemma StepKeepsInv(sys: System, step: Step, link: Link)
    requires Inv(sys, link) && Enabled(sys, step, link)
    ensures Inv(Apply(sys, step, link), link)
    ensures Measure(Apply(sys, step, link), link) == Measure(sys, link) - (if IsProtocol(step) then 1 else 0)
  {
    match step
    case SenderPulls => PullKeepsInv(sys, link);
    case SenderTakes => SenderTakesKeepsInv(sys, link);
    case Elsewhere(e) => ElsewhereKeepsInv(sys, e, link);
    case ReceiverTakes =>
      if PhaseOf(sys, link).Offered? {
        OfferKeepsInv(sys, link);
      } else {
        DataKeepsInv(sys, link);
      }
  }

  // -------------------------------------------------------------- theorems

  /** steps is a run from sys, each step enabled where it is taken. */
  ghost predicate IsRun(sys: System, steps: seq<Step>, link: Link)
    requires ValidSender(sys.tx) && ValidPeers(sys.peers, link.capacity)
    decreases |steps|
  {
    steps == [] || (Enabled(sys, steps[0], link) && IsRun(Apply(sys, steps[0], link), steps[1..], link))
  }

  function After(sys: System, steps: seq<Step>, link: Link): (end: System)
    requires ValidSender(sys.tx) && ValidPeers(sys.peers, link.capacity)
    requires IsRun(sys, steps, link)
    ensures ValidSender(end.tx) && ValidPeers(end.peers, link.capacity)
    decreases |steps|
  {
    if steps == [] then sys else After(Apply(sys, steps[0], link), steps[1..], link)
  }

  function ProtocolSteps(steps: seq<Step>): nat
    decreases |steps|
  {
    if steps == [] then 0 else (if IsProtocol(steps[0]) then 1 else 0) + ProtocolSteps(steps[1..])
  }

  lemma {:induction false} RunKeepsInv(sys: System, steps: seq<Step>, link: Link)
    requires Inv(sys, link) && IsRun(sys, steps, link)
    ensures Inv(After(sys, steps, link), link)
    ensures Measure(After(sys, steps, link), link) == Measure(sys, link) - ProtocolSteps(steps)
    decreases |steps|
  {
    if steps != [] {
      StepKeepsInv(sys, steps[0], link);
      RunKeepsInv(Apply(sys, steps[0], link), steps[1..], link);
    }
  }

  ghost predicate Stuck(sys: System, link: Link)
    requires ValidSender(sys.tx) && ValidPeers(sys.peers, link.capacity)
  {
    forall step :: IsProtocol(step) ==> !Enabled(sys, step, link)
  }

  /** Wherever no protocol step is possible, the transfer is finished: the
      receiver has handed over exactly this payload, exactly once, and the
      sender knows. */
  lemma StuckIsDone(sys: System, link: Link)
    requires Inv(sys, link) && Stuck(sys, link)
    ensures sys.tx.complete && Delivered(sys, link)
    ensures |sys.granted| == CeilDiv(sys.tx.packets, Limit(sys.tx))
    ensures Measure(sys, link) == 0
  {
    assert !Enabled(sys, SenderPulls, link);
    assert !Enabled(sys, ReceiverTakes, link);
    assert !Enabled(sys, SenderTakes, link);
    assert PhaseOf(sys, link).Done?;
    CeilIs(sys.tx.packets, Limit(sys.tx), |sys.granted|);
  }

  lemma CompleteIsDelivered(sys: System, link: Link)
    requires Inv(sys, link) && sys.tx.complete
    ensures Delivered(sys, link)
  {
  }

  /** An abort of its own group, at whatever point, leaves no session. */
  ghost predicate AbortsClean(sys: System, link: Link)
    requires ValidPeers(sys.peers, link.capacity)
  {
    forall reason :: link.source !in
      TakeCm(sys.peers, link.source, Abort(reason, sys.tx.pgn), link.capacity, link.sessions).0
  }

  lemma EveryStateAbortsClean(sys: System, link: Link)
    requires Inv(sys, link)
    ensures AbortsClean(sys, link)
  {
  }

  /** End-to-end delivery: for every payload of 9 to 1785 bytes, every stated
      limit and every interleaving, with whatever the receiver does for other
      peers in between, no run takes more than 2P + ceil(P/limit) + 2 protocol
      steps; when none is left to take, exactly that many were taken, exactly
      ceil(P/limit) windows were opened, none wider than the limit, the payload
      has been delivered once and the sender is complete. At no time is the sender
      complete before the payload has been delivered. */
  lemma EveryRunDelivers(tx: Sender, peers: Peers, link: Link, steps: seq<Step>)
    requires CanBegin(tx, peers, link)
    requires IsRun(Initial(tx, peers), steps, link)
    ensures var end := After(Initial(tx, peers), steps, link);
      var windows := CeilDiv(tx.packets, Limit(tx));
      && ProtocolSteps(steps) <= 2 * tx.packets + windows + 2
      && (forall k :: 0 <= k < |end.granted| ==> end.granted[k] <= Limit(tx))
      && (end.tx.complete ==> Delivered(end, link))
      && end.tx.pgn == tx.pgn && AbortsClean(end, link)
      && (Stuck(end, link) ==>
            && ProtocolSteps(steps) == 2 * tx.packets + windows + 2
            && |end.granted| == windows
            && end.delivered ==
                 [Message(tx.pgn, link.source, tx.data, Some(EndOfMsgAck(|tx.data|, tx.packets, tx.pgn)))]
            && end.tx.complete)
  {
    var start := Initial(tx, peers);
    var end := After(start, steps, link);
    assert Inv(start, link);
    RunKeepsInv(start, steps, link);
    SenderIsTheSame(start, steps, link);
    MeasureIsNatural(end, link);
    EveryStateAbortsClean(end, link);
    if end.tx.complete {
      CompleteIsDelivered(end, link);
    }
    if Stuck(end, link) {
      StuckIsDone(end, link);
    }
  }

  lemma MeasureIsNatural(sys: System, link: Link)
    requires Inv(sys, link)
    ensures Measure(sys, link) >= 0
  {
    var d := Limit(sys.tx);
    var p := sys.tx.packets;
    var g := |sys.granted|;
    var c := CeilDiv(p, d);
    if g > 0 {
      CeilAtLeast(p, d, g);
    }
  }

  /** A transfer's payload, group and limit never change. */
  lemma {:induction false} SenderIsTheSame(sys: System, steps: seq<Step>, link: Link)
    requires ValidSender(sys.tx) && ValidPeers(sys.peers, link.capacity)
    requires IsRun(sys, steps, link)
    ensures var tx := After(sys, steps, link).tx;
      sys.tx == tx.(nextSequence := sys.tx.nextSequence, windowRemaining := sys.tx.windowRemaining,
                    complete := sys.tx.complete)
    decreases |steps|
  {
    if steps != [] {
      SenderIsTheSame(Apply(sys, steps[0], link), steps[1..], link);
    }
  }
}
