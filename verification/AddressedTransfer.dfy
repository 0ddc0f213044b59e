/** An addressed message from one ECU's application to another's: pulled frame by
    frame, heard by a whole node, answered, and heard back by its sender. */
module AddressedTransfer {
  import opened Types
  import opened Arith
  import opened Wire
  import opened Node
  import AC = AddressClaim
  import D = TpDelivery
  import O = Outgoing
  import S = TpSafety
  import T = TpSpec

  /** `received` lists what the node's application has been handed from the
      sender that no single frame could carry. */
  datatype System = System(out: O.Out, node: State, forward: seq<Frame>, back: seq<Frame>, received: seq<Event>)

  datatype Step =
    | SenderPulls
    | NodeHears
    | SenderHears
    | NodeLives(i: Input)
    | SenderOverhears(f: Frame)

  predicate IsProtocol(step: Step) {
    step.SenderPulls? || step.NodeHears? || step.SenderHears?
  }

  ghost predicate ValidSystem(sys: System, link: D.Link) {
    && O.ValidOut(sys.out) && sys.out.state.Multi? && sys.out.source == link.source
    && T.ValidPeers(sys.node.peers, link.capacity)
  }

  /** The announcement is still to be heard, if the sender has no session. */
  predicate StillToBegin(sys: System) {
    sys.out.state.Multi? && (!sys.out.state.announced || sys.forward != [])
  }

  /** What else the node may live through: any frame of another ECU, and any of
      the sender's that is not of this transfer, as long as the node keeps its
      address and a slot for a transfer still to be announced; and any tick that
      does not time this transfer out. */
  predicate Unrelated(sys: System, i: Input, link: D.Link)
    requires T.ValidPeers(sys.node.peers, link.capacity)
  {
    var after := Live(sys.node, i, link.capacity, link.sessions).0;
    && after.ecu.address == sys.node.ecu.address
    && (link.source !in sys.node.peers && StillToBegin(sys) ==> |after.peers| < link.sessions)
    && match i
       case Ticked(ms) =>
         link.source in sys.node.peers ==> !T.Expires(sys.node.peers[link.source], ms, T.T1_TIMEOUT_MS)
       case Heard(f) =>
         SourceOf(f.id) == link.source ==>
           && PgnOf(f.id) != TP_DT
           && (PgnOf(f.id) == TP_CM && DecodeCm(f.payload).Ok? ==>
                 S.IsAside(DecodeCm(f.payload).value, sys.out.pgn))
  }

  /** What else the sender may hear: anything but what its destination says of
      this group. */
  predicate IsOther(o: O.Out, f: Frame) {
    O.Said(o, f).Some? ==> O.Said(o, f).value.Rts? || O.Said(o, f).value.Bam?
  }

  predicate Enabled(sys: System, step: Step, link: D.Link)
    requires O.ValidOut(sys.out) && T.ValidPeers(sys.node.peers, link.capacity)
  {
    match step
    case SenderPulls => O.PullFrame(sys.out).1.Some?
    case NodeHears => sys.forward != []
    case SenderHears => sys.back != []
    case NodeLives(i) => Unrelated(sys, i, link)
    case SenderOverhears(f) => IsOther(sys.out, f)
  }

  /** The frame an event sends this sender about transfers, if any. */
  function Reply(e: Event, source: Address): seq<Frame> {
    match Answer(e)
    case Some(f) => if PgnOf(f.id) == TP_CM && DestinationOf(f.id) == Some(source) then [f] else []
    case None => []
  }

  function Handed(e: Event, source: Address): seq<Event> {
    if e.Message? && e.source == source && |e.data| > 8 then [e] else []
  }

  function Happened(sys: System, n: State, e: Event, source: Address): System {
    sys.(node := n, back := sys.back + Reply(e, source), received := sys.received + Handed(e, source))
  }

  function Apply(sys: System, step: Step, link: D.Link): (r: System)
    requires ValidSystem(sys, link) && Enabled(sys, step, link)
    ensures ValidSystem(r, link)
  {
    match step
    case SenderPulls =>
      var (out, f) := O.PullFrame(sys.out);
      sys.(out := out, forward := sys.forward + [f.value])
    case NodeHears =>
      var (n, e) := HearFrame(sys.node, sys.forward[0], link.capacity, link.sessions);
      Happened(sys.(forward := sys.forward[1..]), n, e, link.source)
    case SenderHears =>
      sys.(out := O.HearFrame(sys.out, sys.back[0]).0, back := sys.back[1..])
    case NodeLives(i) =>
      var (n, e) := Live(sys.node, i, link.capacity, link.sessions);
      Happened(sys, n, e, link.source)
    case SenderOverhears(f) =>
      sys.(out := O.HearFrame(sys.out, f).0)
  }

  // ------------------------------------------------------ frames and messages

  /** The frames that carry the transfer's own messages. */
  function FrameFor(f: D.Frame, source: Address, destination: Address): Frame {
    match f
    case Announce(cm) => O.TpFrame(TP_CM, destination, source, EncodeCm(cm)).value
    case Data(dt) => O.TpFrame(TP_DT, destination, source, EncodeDt(dt)).value
  }

  function FramesFor(fs: seq<D.Frame>, source: Address, destination: Address): (r: seq<Frame>)
    ensures |r| == |fs| && forall i :: 0 <= i < |r| ==> r[i] == FrameFor(fs[i], source, destination)
  {
    seq(|fs|, i requires 0 <= i < |fs| => FrameFor(fs[i], source, destination))
  }

  function AnswersFor(cms: seq<T.TpCm>, source: Address, destination: Address): (r: seq<Frame>)
    ensures |r| == |cms| && forall i :: 0 <= i < |r| ==> r[i] == CmFrame(destination, source, cms[i]).value
  {
    seq(|cms|, i requires 0 <= i < |cms| => CmFrame(destination, source, cms[i]).value)
  }

  function ReceiptsFor(rxs: seq<T.Rx>, source: Address, destination: Address): (r: seq<Event>)
    ensures |r| == |rxs| && forall i :: 0 <= i < |r| ==> r[i] == Lift(rxs[i], destination, source)
  {
    seq(|rxs|, i requires 0 <= i < |rxs| => Lift(rxs[i], destination, source))
  }

  /** The system of frames shows the same transfer as the system of messages. */
  ghost predicate Shows(sys: System, a: D.System, link: D.Link) {
    && ValidSystem(sys, link) && sys.out.destination == sys.node.ecu.address
    && sys.out.state.sender == a.tx && sys.node.peers == a.peers
    && (if sys.out.state.announced then sys.forward == FramesFor(a.forward, link.source, sys.out.destination)
        else sys.forward == [] && D.PhaseOf(a, link).Offered?)
    && sys.back == AnswersFor(a.back, link.source, sys.out.destination)
    && sys.received == ReceiptsFor(a.delivered, link.source, sys.out.destination)
  }

  /** The frame goes from the one ECU to the other alone, in this group. */
  predicate Goes(f: Frame, group: Pgn, source: Address, destination: Address) {
    && PgnOf(f.id) == group && SourceOf(f.id) == source && DestinationOf(f.id) == Some(destination)
    && !IsBroadcast(f.id)
  }

  lemma TpFrameGoes(group: Pgn, destination: Address, source: Address, payload: Octets)
    requires IsPdu1(group) && destination != GLOBAL_ADDRESS
    ensures var f := O.TpFrame(group, destination, source, payload).value;
      Goes(f, group, source, destination) && f.payload == payload
  {
    IdRoundTrip(LOWEST_PRIORITY, group, destination, source);
  }

  lemma OwnFrameFields(f: D.Frame, source: Address, destination: Address)
    requires destination != GLOBAL_ADDRESS
    ensures var frame := FrameFor(f, source, destination);
      && Goes(frame, if f.Announce? then TP_CM else TP_DT, source, destination)
      && (f.Announce? && f.cm.Rts? ==> DecodeCm(frame.payload) == Ok(f.cm))
      && (f.Data? ==> DecodeDt(frame.payload) == f.dt)
  {
    match f
    case Announce(cm) =>
      TpFrameGoes(TP_CM, destination, source, EncodeCm(cm));
      CmRoundTrip(cm);
    case Data(dt) =>
      TpFrameGoes(TP_DT, destination, source, EncodeDt(dt));
      DtRoundTrip(dt, EncodeDt(dt));
  }

  lemma AnswerFields(cm: T.TpCm, source: Address, destination: Address)
    requires !cm.Abort?
    ensures var f := CmFrame(destination, source, cm).value;
      && PgnOf(f.id) == TP_CM && SourceOf(f.id) == destination && DestinationOf(f.id) == Some(source)
      && DecodeCm(f.payload) == Ok(cm)
  {
    CmFrameFields(destination, source, cm);
    CmRoundTrip(cm);
  }

  /** What the receiver makes of a frame of the transfer. */
  function Outcome(a: D.System, link: D.Link): (T.Peers, T.Rx)
    requires T.ValidPeers(a.peers, link.capacity) && a.forward != []
  {
    match a.forward[0]
    case Announce(cm) => T.TakeCm(a.peers, link.source, cm, link.capacity, link.sessions)
    case Data(dt) => T.TakeDt(a.peers, link.source, dt, link.capacity)
  }

  lemma NodeHearsAsReceiver(n: State, a: D.System, link: D.Link)
    requires T.ValidPeers(n.peers, link.capacity) && n.peers == a.peers && n.ecu.address != GLOBAL_ADDRESS
    requires a.forward != [] && (a.forward[0].Announce? ==> a.forward[0].cm.Rts?)
    ensures var (peers, rx) := Outcome(a, link);
      HearFrame(n, FrameFor(a.forward[0], link.source, n.ecu.address), link.capacity, link.sessions) ==
        (n.(peers := peers), Lift(rx, n.ecu.address, link.source))
  {
    OwnFrameFields(a.forward[0], link.source, n.ecu.address);
  }

  lemma MessagesAreLong(a: D.System, link: D.Link)
    requires T.ValidPeers(a.peers, link.capacity) && a.forward != []
    ensures var rx := Outcome(a, link).1; rx.Message? ==> |rx.data| > 8 && rx.source == link.source
  {
    if a.forward[0].Data? && link.source in a.peers {
      assert T.ValidTransfer(a.peers[link.source], link.capacity);
    }
  }

  lemma Appended(a: D.System, rx: T.Rx, source: Address, destination: Address)
    ensures var e, a' := Lift(rx, destination, source), D.Taken(a, rx);
      && AnswersFor(a'.back, source, destination) == AnswersFor(a.back, source, destination) + Reply(e, source)
      && (rx.Message? ==>
            ReceiptsFor(a'.delivered, source, destination) == ReceiptsFor(a.delivered, source, destination) + [e])
      && (!rx.Message? ==> a'.delivered == a.delivered)
  {
    LiftedAnswer(rx, destination, source);
  }

  // ---------------------------------------------------------- step by step

  /** Steps still to come. */
  function ToCome(sys: System, a: D.System, link: D.Link): int
    requires T.ValidSender(a.tx)
  {
    D.Measure(a, link) + if sys.out.state.Multi? && !sys.out.state.announced then 1 else 0
  }

  predicate SameMessage(s: T.Sender, t: T.Sender) {
    t.data == s.data && t.pgn == s.pgn && t.packets == s.packets && t.maxPacketsPerCts == s.maxPacketsPerCts
  }

  lemma StepKeepsMessage(a: D.System, step: D.Step, link: D.Link)
    requires T.ValidSender(a.tx) && T.ValidPeers(a.peers, link.capacity) && D.Enabled(a, step, link)
    ensures SameMessage(a.tx, D.Apply(a, step, link).tx)
  {
  }

  /** A step of the system of messages. */
  ghost predicate Onwards(a: D.System, a': D.System, uses: nat, link: D.Link) {
    && D.Inv(a, link) && D.Inv(a', link) && D.Measure(a', link) == D.Measure(a, link) - uses
    && SameMessage(a.tx, a'.tx)
  }

  lemma StepIsOnwards(a: D.System, step: D.Step, link: D.Link) returns (a': D.System)
    requires D.Inv(a, link) && D.Enabled(a, step, link)
    ensures a' == D.Apply(a, step, link) && Onwards(a, a', if D.IsProtocol(step) then 1 else 0, link)
  {
    a' := D.Apply(a, step, link);
    D.StepKeepsInv(a, step, link);
    StepKeepsMessage(a, step, link);
  }

  ghost predicate Follows(sys: System, a: D.System, a': D.System, step: Step, link: D.Link)
    requires Shows(sys, a, link) && T.ValidSender(a.tx) && Enabled(sys, step, link)
  {
    var announces := step.SenderPulls? && !sys.out.state.announced;
    && Shows(Apply(sys, step, link), a', link)
    && Apply(sys, step, link).out.state.announced == (sys.out.state.announced || announces)
    && Onwards(a, a', if IsProtocol(step) && !announces then 1 else 0, link)
  }

  lemma PullShows(sys: System, a: D.System, link: D.Link)
    requires Shows(sys, a, link) && T.ValidSender(a.tx) && Enabled(sys, SenderPulls, link)
    ensures var sys' := Apply(sys, SenderPulls, link);
      && sys'.out.state.announced
      && if sys.out.state.announced then
           D.Enabled(a, D.SenderPulls, link) && Shows(sys', D.Apply(a, D.SenderPulls, link), link)
         else a.forward == [D.Announce(T.Start(a.tx))] ==> Shows(sys', a, link)
  {
    var forward := Apply(sys, SenderPulls, link).forward;
    if sys.out.state.announced {
      var dt := T.NextPacket(a.tx).1.value;
      assert forward == FramesFor(a.forward + [D.Data(dt)], link.source, sys.out.destination);
    } else if a.forward == [D.Announce(T.Start(a.tx))] {
      assert forward == FramesFor(a.forward, link.source, sys.out.destination);
    }
  }

  lemma PullFollows(sys: System, a: D.System, link: D.Link) returns (a': D.System)
    requires Shows(sys, a, link) && D.Inv(a, link) && Enabled(sys, SenderPulls, link)
    ensures Follows(sys, a, a', SenderPulls, link)
  {
    PullShows(sys, a, link);
    if sys.out.state.announced {
      a' := StepIsOnwards(a, D.SenderPulls, link);
    } else {
      a' := a;
    }
  }

  lemma ForwardIsOwn(a: D.System, link: D.Link)
    requires D.Inv(a, link) && a.forward != []
    ensures a.forward[0].Announce? ==> a.forward[0].cm.Rts?
  {
    if D.PhaseOf(a, link).Flowing? {
      D.AnswerIs(a, link, a.tx.nextSequence - |a.forward|);
    }
  }

  lemma HearShows(sys: System, a: D.System, link: D.Link)
    requires Shows(sys, a, link) && T.ValidSender(a.tx) && sys.out.destination != GLOBAL_ADDRESS
    requires sys.forward != [] && (a.forward[0].Announce? ==> a.forward[0].cm.Rts?)
    ensures Shows(Apply(sys, NodeHears, link), D.Apply(a, D.ReceiverTakes, link), link)
    ensures Apply(sys, NodeHears, link).out == sys.out
  {
    NodeHearsAsReceiver(sys.node, a, link);
    MessagesAreLong(a, link);
    var (peers, rx) := Outcome(a, link);
    var rest := a.(forward := a.forward[1..], peers := peers);
    Appended(rest, rx, link.source, sys.out.destination);
    assert D.Apply(a, D.ReceiverTakes, link) == D.Taken(rest, rx);
    assert sys.forward[1..] == FramesFor(a.forward[1..], link.source, sys.out.destination);
  }

  lemma HearFollows(sys: System, a: D.System, link: D.Link) returns (a': D.System)
    requires Shows(sys, a, link) && D.Inv(a, link) && Enabled(sys, NodeHears, link)
    ensures Follows(sys, a, a', NodeHears, link)
  {
    ForwardIsOwn(a, link);
    HearShows(sys, a, link);
    a' := StepIsOnwards(a, D.ReceiverTakes, link);
  }

  lemma AnswerShows(sys: System, a: D.System, link: D.Link)
    requires Shows(sys, a, link) && T.ValidSender(a.tx) && sys.out.state.announced
    requires sys.back != [] && !a.back[0].Abort?
    ensures Shows(Apply(sys, SenderHears, link), D.Apply(a, D.SenderTakes, link), link)
    ensures Apply(sys, SenderHears, link).out.state.announced
  {
    AnswerFields(a.back[0], link.source, sys.out.destination);
    assert sys.back[1..] == AnswersFor(a.back[1..], link.source, sys.out.destination);
  }

  lemma AnswersAreGood(a: D.System, link: D.Link)
    requires D.Inv(a, link) && a.back != []
    ensures !a.back[0].Abort? && !D.PhaseOf(a, link).Offered?
  {
  }

  lemma AnswerFollows(sys: System, a: D.System, link: D.Link) returns (a': D.System)
    requires Shows(sys, a, link) && D.Inv(a, link) && Enabled(sys, SenderHears, link)
    ensures Follows(sys, a, a', SenderHears, link)
  {
    AnswersAreGood(a, link);
    AnswerShows(sys, a, link);
    a' := StepIsOnwards(a, D.SenderTakes, link);
  }

  lemma OverhearingFollows(sys: System, a: D.System, f: Frame, link: D.Link)
    requires Shows(sys, a, link) && D.Inv(a, link) && Enabled(sys, SenderOverhears(f), link)
    ensures Follows(sys, a, a, SenderOverhears(f), link)
  {
  }

  // ---------------------------------------------------- the rest of its life

  /** What an input is to the node's receiver, if anything. */
  function Seen(n: State, i: Input): Option<S.Event> {
    match i
    case Ticked(ms) => Some(S.Ticked(ms, T.T1_TIMEOUT_MS))
    case Heard(f) =>
      if !IsAddressedTo(f.id, n.ecu.address) then None
      else if PgnOf(f.id) == TP_DT then Some(S.Dt(SourceOf(f.id), DecodeDt(f.payload)))
      else if PgnOf(f.id) != TP_CM || DecodeCm(f.payload).Err? then None
      else if DecodeCm(f.payload).value.Rts? && IsBroadcast(f.id) then None
      else Some(S.Cm(SourceOf(f.id), DecodeCm(f.payload).value))
  }

  lemma LiveIsSeen(n: State, i: Input, capacity: nat, sessions: nat)
    requires T.ValidPeers(n.peers, capacity)
    ensures var peers := Live(n, i, capacity, sessions).0.peers;
      match Seen(n, i)
      case None => peers == n.peers
      case Some(e) => peers == S.Step(n.peers, e, capacity, sessions).0
  {
  }

  lemma LiftedIsFor(rx: T.Rx, address: Address, peer: Address, source: Address)
    requires peer != source && (rx.Message? ==> rx.source == peer)
    ensures Reply(Lift(rx, address, peer), source) == [] && Handed(Lift(rx, address, peer), source) == []
  {
    LiftedAnswer(rx, address, peer);
  }

  /** Nothing that is not of the transfer draws an answer to its sender, or hands
      over a long message of its own. */
  lemma LiveIsQuiet(n: State, i: Input, source: Address, capacity: nat, sessions: nat)
    requires T.ValidPeers(n.peers, capacity)
    requires match Seen(n, i)
      case None => true
      case Some(e) => S.IsFrom(e, source) ==> S.Step(n.peers, e, capacity, sessions).1 == T.Idle
    ensures var e := Live(n, i, capacity, sessions).1; Reply(e, source) == [] && Handed(e, source) == []
  {
    if i.Heard? && IsAddressedTo(i.frame.id, n.ecu.address) {
      var f, peer := i.frame, SourceOf(i.frame.id);
      if PgnOf(f.id) == ADDRESS_CLAIMED || AsksForClaim(f) {
        ClaimsAreNoReply(n, f, source, capacity, sessions);
      } else if Seen(n, i).Some? && peer != source {
        var rx := S.Step(n.peers, Seen(n, i).value, capacity, sessions).1;
        S.NonInterference(n.peers, Seen(n, i).value, peer, source, capacity, sessions);
        LiftedIsFor(rx, n.ecu.address, peer, source);
      }
    }
  }

  lemma ClaimsAreNoReply(n: State, f: Frame, source: Address, capacity: nat, sessions: nat)
    requires T.ValidPeers(n.peers, capacity)
    requires PgnOf(f.id) == ADDRESS_CLAIMED || AsksForClaim(f)
    ensures var e := HearFrame(n, f, capacity, sessions).1; Reply(e, source) == [] && Handed(e, source) == []
  {
    var claim := if PgnOf(f.id) == ADDRESS_CLAIMED
      then AC.OnClaim(n.ecu, SourceOf(f.id), AC.NameFromBytes(f.payload)).1 else Some(AC.CurrentClaim(n.ecu));
    if claim.Some? {
      IdRoundTrip(DEFAULT_PRIORITY, ADDRESS_CLAIMED, GLOBAL_ADDRESS, claim.value.source);
    }
  }

  /** An input that the receiver sees, in the system of messages. */
  lemma LifeIsElsewhere(sys: System, a: D.System, i: Input, e: S.Event, link: D.Link)
    requires Shows(sys, a, link) && T.ValidSender(a.tx) && Enabled(sys, NodeLives(i), link)
    requires Seen(sys.node, i) == Some(e)
    requires !sys.out.state.announced ==> a.forward != []
    ensures D.Unrelated(a, e, link)
  {
    LiveIsSeen(sys.node, i, link.capacity, link.sessions);
  }

  lemma LifeShows(sys: System, a: D.System, a': D.System, i: Input, link: D.Link)
    requires Shows(sys, a, link) && T.ValidSender(a.tx) && Enabled(sys, NodeLives(i), link)
    requires var (n, e) := Live(sys.node, i, link.capacity, link.sessions);
      a' == a.(peers := n.peers) && Reply(e, link.source) == [] && Handed(e, link.source) == []
    requires !sys.out.state.announced ==> D.PhaseOf(a', link).Offered?
    ensures Shows(Apply(sys, NodeLives(i), link), a', link)
    ensures Apply(sys, NodeLives(i), link).out == sys.out
  {
  }

  lemma OfferStaysOffered(a: D.System, a': D.System, link: D.Link)
    requires D.Inv(a, link) && D.Inv(a', link) && D.PhaseOf(a, link).Offered?
    requires a'.delivered == a.delivered && a'.forward == a.forward && a'.tx == a.tx
    ensures a.forward != [] && D.PhaseOf(a', link).Offered?
  {
  }

  lemma ElsewhereIsPeersOnly(a: D.System, e: S.Event, link: D.Link)
    requires T.ValidSender(a.tx) && T.ValidPeers(a.peers, link.capacity) && D.Unrelated(a, e, link)
    requires link.source in a.peers ==> a.peers[link.source].session.pgn == a.tx.pgn
    ensures var (peers, rx) := S.Step(a.peers, e, link.capacity, link.sessions);
      && D.Apply(a, D.Elsewhere(e), link) == a.(peers := peers)
      && (S.IsFrom(e, link.source) ==> rx == T.Idle)
  {
    if S.IsFrom(e, link.source) {
      S.AsidesChangeNothing(a.peers, link.source, e.cm, a.tx.pgn, link.capacity, link.sessions);
    }
  }

  /** What the receiver sees of other things, in the system of messages. */
  lemma SeenOnwards(sys: System, a: D.System, i: Input, e: S.Event, link: D.Link) returns (a': D.System)
    requires Shows(sys, a, link) && D.Inv(a, link) && Enabled(sys, NodeLives(i), link)
    requires Seen(sys.node, i) == Some(e)
    ensures Onwards(a, a', 0, link) && a' == a.(peers := S.Step(a.peers, e, link.capacity, link.sessions).0)
    ensures S.IsFrom(e, link.source) ==> S.Step(a.peers, e, link.capacity, link.sessions).1 == T.Idle
    ensures !sys.out.state.announced ==> D.PhaseOf(a', link).Offered?
  {
    OfferIsOut(a, link);
    LifeIsElsewhere(sys, a, i, e, link);
    SessionIsItsOwn(a, link);
    ElsewhereIsPeersOnly(a, e, link);
    a' := StepIsOnwards(a, D.Elsewhere(e), link);
    if !sys.out.state.announced {
      OfferStaysOffered(a, a', link);
    }
  }

  lemma LifeFollows(sys: System, a: D.System, i: Input, link: D.Link) returns (a': D.System)
    requires Shows(sys, a, link) && D.Inv(a, link) && Enabled(sys, NodeLives(i), link)
    ensures Follows(sys, a, a', NodeLives(i), link)
  {
    LiveIsSeen(sys.node, i, link.capacity, link.sessions);
    if Seen(sys.node, i).None? {
      a' := a;
    } else {
      a' := SeenOnwards(sys, a, i, Seen(sys.node, i).value, link);
    }
    LiveIsQuiet(sys.node, i, link.source, link.capacity, link.sessions);
    LifeShows(sys, a, a', i, link);
  }

  lemma OfferIsOut(a: D.System, link: D.Link)
    requires D.Inv(a, link)
    ensures D.PhaseOf(a, link).Offered? ==> a.forward == [D.Announce(T.Start(a.tx))]
  {
  }

  lemma SessionIsItsOwn(a: D.System, link: D.Link)
    requires D.Inv(a, link)
    ensures link.source in a.peers ==> a.peers[link.source].session.pgn == a.tx.pgn
  {
  }

  // -------------------------------------------------------------- theorems

  ghost predicate IsRun(sys: System, steps: seq<Step>, link: D.Link)
    requires ValidSystem(sys, link)
    decreases |steps|
  {
    steps == [] || (Enabled(sys, steps[0], link) && IsRun(Apply(sys, steps[0], link), steps[1..], link))
  }

  function End(sys: System, steps: seq<Step>, link: D.Link): (end: System)
    requires ValidSystem(sys, link) && IsRun(sys, steps, link)
    ensures ValidSystem(end, link)
    decreases |steps|
  {
    if steps == [] then sys else End(Apply(sys, steps[0], link), steps[1..], link)
  }

  function ProtocolSteps(steps: seq<Step>): nat {
    if steps == [] then 0 else (if IsProtocol(steps[0]) then 1 else 0) + ProtocolSteps(steps[1..])
  }

  lemma StepFollows(sys: System, a: D.System, step: Step, link: D.Link) returns (a': D.System)
    requires Shows(sys, a, link) && D.Inv(a, link) && Enabled(sys, step, link)
    ensures Follows(sys, a, a', step, link)
  {
    match step
    case SenderPulls => a' := PullFollows(sys, a, link);
    case NodeHears => a' := HearFollows(sys, a, link);
    case SenderHears => a' := AnswerFollows(sys, a, link);
    case NodeLives(i) => a' := LifeFollows(sys, a, i, link);
    case SenderOverhears(f) =>
      OverhearingFollows(sys, a, f, link);
      a' := a;
  }

  lemma {:induction false} RunFollows(sys: System, a: D.System, steps: seq<Step>, link: D.Link) returns (a': D.System)
    requires Shows(sys, a, link) && D.Inv(a, link) && IsRun(sys, steps, link)
    ensures var end := End(sys, steps, link);
      && Shows(end, a', link) && D.Inv(a', link) && SameMessage(a.tx, a'.tx)
      && ToCome(end, a', link) == ToCome(sys, a, link) - ProtocolSteps(steps)
    decreases |steps|
  {
    if steps == [] {
      a' := a;
    } else {
      var next := StepFollows(sys, a, steps[0], link);
      a' := RunFollows(Apply(sys, steps[0], link), next, steps[1..], link);
    }
  }

  /** The message as it is prepared: any of 9 to 1785 bytes can be. */
  function Prepared(pgn: Pgn, source: Address, destination: Address, data: seq<Byte>): (o: O.Out)
    requires T.MIN_MESSAGE_SIZE <= |data| <= T.MAX_MESSAGE_SIZE
    ensures O.NewOut(pgn, source, destination, data) == Ok(o) && O.ValidOut(o) && o.state.Multi?
  {
    O.NewOut(pgn, source, destination, data).value
  }

  /** Nothing pulled and nothing heard yet. */
  function Initial(o: O.Out, n: State): System {
    System(o, n, [], [], [])
  }

  ghost predicate Stuck(sys: System, link: D.Link)
    requires ValidSystem(sys, link)
  {
    forall step :: IsProtocol(step) ==> !Enabled(sys, step, link)
  }

  /** The frame is the node's acknowledgement of the message to its sender. */
  predicate Acknowledges(f: Frame, pgn: Pgn, source: Address, destination: Address, size: U16) {
    && PgnOf(f.id) == TP_CM && SourceOf(f.id) == destination && DestinationOf(f.id) == Some(source)
    && DecodeCm(f.payload) == Ok(T.EndOfMsgAck(size, T.PacketCount(size), pgn))
  }

  /** The application has been handed this message, once, with its reply. */
  predicate Arrived(received: seq<Event>, pgn: Pgn, source: Address, destination: Address, data: seq<Byte>)
    requires |data| <= T.MAX_MESSAGE_SIZE
  {
    && |received| == 1 && received[0].Message?
    && received[0].pgn == pgn && received[0].source == source && received[0].data == data
    && received[0].reply.Some? && Acknowledges(received[0].reply.value, pgn, source, destination, |data|)
  }

  lemma DeliveredOrNot(a: D.System, link: D.Link)
    requires D.Inv(a, link)
    ensures a.delivered == [] || D.Delivered(a, link)
    ensures a.tx.complete ==> D.Delivered(a, link)
  {
  }

  lemma ShownDelivery(sys: System, a: D.System, link: D.Link)
    requires Shows(sys, a, link) && T.ValidSender(a.tx) && D.Delivered(a, link)
    ensures Arrived(sys.received, a.tx.pgn, link.source, sys.out.destination, a.tx.data)
  {
    AnswerFields(T.EndOfMsgAck(|a.tx.data|, a.tx.packets, a.tx.pgn), link.source, sys.out.destination);
  }

  lemma StuckIsShown(sys: System, a: D.System, link: D.Link)
    requires Shows(sys, a, link) && T.ValidSender(a.tx) && Stuck(sys, link)
    ensures sys.out.state.announced && D.Stuck(a, link)
  {
    assert !Enabled(sys, SenderPulls, link) && !Enabled(sys, NodeHears, link) && !Enabled(sys, SenderHears, link);
  }

  lemma OneWindow(tx: T.Sender)
    requires T.ValidSender(tx) && tx.maxPacketsPerCts == 0xFF
    ensures CeilDiv(tx.packets, D.Limit(tx)) == 1
  {
    CeilIs(tx.packets, tx.packets, 1);
  }

  lemma MeasuredSoFar(sys: System, a: D.System, link: D.Link)
    requires Shows(sys, a, link) && D.Inv(a, link)
    ensures ToCome(sys, a, link) >= 0
    ensures Stuck(sys, link) ==> ToCome(sys, a, link) == 0 && a.tx.complete
  {
    D.MeasureIsNatural(a, link);
    if Stuck(sys, link) {
      StuckIsShown(sys, a, link);
      D.StuckIsDone(a, link);
    }
  }

  lemma Beginning(pgn: Pgn, data: seq<Byte>, n: State, link: D.Link) returns (a: D.System)
    requires T.MIN_MESSAGE_SIZE <= |data| <= T.MAX_MESSAGE_SIZE && |data| <= link.capacity
    requires n.ecu.address != GLOBAL_ADDRESS && T.ValidPeers(n.peers, link.capacity)
    requires link.source !in n.peers && |n.peers| < link.sessions
    ensures var sys := Initial(Prepared(pgn, link.source, n.ecu.address, data), n);
      && Shows(sys, a, link) && D.Inv(a, link)
      && ToCome(sys, a, link) == 2 * T.PacketCount(|data|) + 4
      && a.tx.pgn == pgn && a.tx.data == data
  {
    var o := Prepared(pgn, link.source, n.ecu.address, data);
    a := D.Initial(o.state.sender, n.peers);
    OneWindow(a.tx);
  }

  /** For every group, every payload of 9 to 1785 bytes, every ECU that has room
      for it and every interleaving of frames pulled, frames heard and whatever
      else either lives through: at no time has the node's application been
      handed anything but this message, once, with its acknowledgement as the
      reply; the sender is complete only when it has; no run takes more than
      2P + 4 steps; and when none is left to take, exactly that many were taken,
      the message has arrived and its sender is complete. */
  lemma AddressedMessageArrives(pgn: Pgn, data: seq<Byte>, n: State, steps: seq<Step>, link: D.Link)
    requires T.MIN_MESSAGE_SIZE <= |data| <= T.MAX_MESSAGE_SIZE && |data| <= link.capacity
    requires n.ecu.address != GLOBAL_ADDRESS && T.ValidPeers(n.peers, link.capacity)
    requires link.source !in n.peers && |n.peers| < link.sessions
    requires IsRun(Initial(Prepared(pgn, link.source, n.ecu.address, data), n), steps, link)
    ensures var end := End(Initial(Prepared(pgn, link.source, n.ecu.address, data), n), steps, link);
      var arrived := Arrived(end.received, pgn, link.source, n.ecu.address, data);
      && ProtocolSteps(steps) <= 2 * T.PacketCount(|data|) + 4
      && (end.received == [] || arrived)
      && (O.IsComplete(end.out) ==> arrived)
      && (Stuck(end, link) ==>
            ProtocolSteps(steps) == 2 * T.PacketCount(|data|) + 4 && arrived && O.IsComplete(end.out))
  {
    var start := Initial(Prepared(pgn, link.source, n.ecu.address, data), n);
    var a := Beginning(pgn, data, n, link);
    var a' := RunFollows(start, a, steps, link);
    var end := End(start, steps, link);
    MeasuredSoFar(end, a', link);
    DeliveredOrNot(a', link);
    DestinationIsKept(start, steps, link);
    if D.Delivered(a', link) {
      ShownDelivery(end, a', link);
    }
  }

  lemma {:induction false} DestinationIsKept(sys: System, steps: seq<Step>, link: D.Link)
    requires ValidSystem(sys, link) && IsRun(sys, steps, link)
    ensures End(sys, steps, link).out.destination == sys.out.destination
    decreases |steps|
  {
    if steps != [] {
      DestinationIsKept(Apply(sys, steps[0], link), steps[1..], link);
    }
  }
}
