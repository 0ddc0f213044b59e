/** A whole ECU: address claiming, reassembly, and the dispatch of every frame
    on the bus to one of them or to the application. */
module Node {
  import opened Types
  import opened Wire
  import opened Bits
  import T = TpSpec
  import TR = TpReassembler
  import AC = AddressClaim
  import O = Outgoing

  const ADDRESS_CLAIM_WINDOW_MS: U16 := 250

  /** What a node wants after a frame. */
  datatype Event =
    | Nothing
    | Transmit(frame: Frame)
    | Message(pgn: Pgn, source: Address, data: seq<Byte>, reply: Option<Frame>)

  datatype State = State(ecu: AC.Ecu, peers: T.Peers, claimElapsedMs: U16)

  function Fresh(name: AC.Name, preferred: Address): State {
    State(AC.New(name, preferred), map[], 0)
  }

  /** The little-endian bytes of a NAME. */
  function NameBytes(n: AC.Name): Octets {
    [n % 0x100, n / 0x100 % 0x100, n / 0x1_0000 % 0x100, n / 0x100_0000 % 0x100,
     n / 0x1_0000_0000 % 0x100, n / 0x100_0000_0000 % 0x100, n / 0x1_0000_0000_0000 % 0x100, n / 0x100_0000_0000_0000]
  }

  function ClaimFrame(c: AC.Claim): Frame {
    var id := IdFromParts(DEFAULT_PRIORITY, ADDRESS_CLAIMED, GLOBAL_ADDRESS, c.source);
    FromPayload(id.value, NameBytes(c.name))
  }

  function CmFrame(source: Address, destination: Address, cm: T.TpCm): (f: Option<Frame>)
    ensures f.Some?
  {
    O.TpFrame(TP_CM, destination, source, EncodeCm(cm))
  }

  /** Announcing a claim while claiming reopens the contention window. */
  function Announced(n: State, ecu: AC.Ecu, claim: Option<AC.Claim>): (State, Event) {
    match claim
    case None => (n.(ecu := ecu), Nothing)
    case Some(c) =>
      (n.(ecu := ecu, claimElapsedMs := if ecu.state.Claiming? then 0 else n.claimElapsedMs), Transmit(ClaimFrame(c)))
  }

  /** A reassembler's outcome, with the frame it asks to have sent. */
  function Lift(rx: T.Rx, address: Address, peer: Address): Event {
    match rx
    case Idle => Nothing
    case Send(cm) => Transmit(CmFrame(address, peer, cm).value)
    case Message(pgn, source, data, ack) =>
      Message(pgn, source, data, if ack.None? then None else CmFrame(address, peer, ack.value))
  }

  /** A request for Address Claimed, which is the node's own to answer. */
  predicate AsksForClaim(f: Frame) {
    PgnOf(f.id) == REQUEST && DecodeRequest(Data(f)) == Ok(ADDRESS_CLAIMED)
  }

  function HearFrame(n: State, f: Frame, capacity: nat, sessions: nat): (r: (State, Event))
    requires T.ValidPeers(n.peers, capacity)
    ensures T.ValidPeers(r.0.peers, capacity)
  {
    var source, group := SourceOf(f.id), PgnOf(f.id);
    if !IsAddressedTo(f.id, n.ecu.address) then (n, Nothing)
    else if group == ADDRESS_CLAIMED then
      var (ecu, claim) := AC.OnClaim(n.ecu, source, AC.NameFromBytes(f.payload));
      Announced(n, ecu, claim)
    else if AsksForClaim(f) then Announced(n, n.ecu, Some(AC.CurrentClaim(n.ecu)))
    else if group == TP_CM then
      match DecodeCm(f.payload)
      case Err(_) => (n, Nothing)
      case Ok(cm) =>
        if cm.Rts? && IsBroadcast(f.id) then (n, Nothing)
        else
          var (peers, rx) := T.TakeCm(n.peers, source, cm, capacity, sessions);
          (n.(peers := peers), Lift(rx, n.ecu.address, source))
    else if group == TP_DT then
      var (peers, rx) := T.TakeDt(n.peers, source, DecodeDt(f.payload), capacity);
      (n.(peers := peers), Lift(rx, n.ecu.address, source))
    else (n, Message(group, source, Data(f), None))
  }

  /** Time passing: the contention window closes, and stalled transfers go. */
  function TickState(n: State, elapsed: U16): State {
    var waited := SatAdd16(n.claimElapsedMs, elapsed);
    var ecu := if n.ecu.state.Claiming? && waited >= ADDRESS_CLAIM_WINDOW_MS then AC.WindowClosed(n.ecu) else n.ecu;
    State(ecu, T.TickPeers(n.peers, elapsed, T.T1_TIMEOUT_MS),
          if n.ecu.state.Claiming? then waited else n.claimElapsedMs)
  }

  function StartState(n: State): State {
    n.(ecu := AC.AfterClaim(n.ecu), claimElapsedMs := 0)
  }

  function Commanded(n: State, data: seq<Byte>): Result<(State, Option<Frame>)> {
    match AC.OnCommanded(n.ecu, data)
    case Err(e) => Err(e)
    case Ok((ecu, claim)) =>
      Ok(if claim.None? then (n.(ecu := ecu), None)
         else (n.(ecu := ecu, claimElapsedMs := 0), Some(ClaimFrame(claim.value))))
  }

  // -------------------------------------------------------------- dispatch

  /** A frame for another ECU changes nothing and asks for nothing. */
  lemma OthersTrafficIsIgnored(n: State, f: Frame, capacity: nat, sessions: nat)
    requires T.ValidPeers(n.peers, capacity)
    requires DestinationOf(f.id).Some? && DestinationOf(f.id).value != GLOBAL_ADDRESS
    requires DestinationOf(f.id).value != n.ecu.address
    ensures HearFrame(n, f, capacity, sessions) == (n, Nothing)
  {
  }

  /** A broadcast connection-management frame never draws an answer: no one bad
      frame, a broadcast request to send least of all, makes every ECU talk. */
  lemma NoStormOnBroadcast(n: State, f: Frame, capacity: nat, sessions: nat)
    requires T.ValidPeers(n.peers, capacity)
    requires IsBroadcast(f.id) && PgnOf(f.id) == TP_CM
    ensures HearFrame(n, f, capacity, sessions).1 == Nothing
  {
  }

  /** The low byte of a number, and the rest of it. */
  lemma LowByte(n: nat, pow: nat)
    requires pow > 0
    ensures n / pow == n / pow / 256 * 256 + n / pow % 256
    ensures n / pow / 256 == n / (pow * 256)
  {
    DivDiv(n, pow, 256);
  }

  lemma NameRoundTrip(n: AC.Name)
    ensures AC.NameFromBytes(NameBytes(n)) == n
  {
    LowByte(n, 1);
    LowByte(n, 0x100);
    LowByte(n, 0x1_0000);
    LowByte(n, 0x100_0000);
    LowByte(n, 0x1_0000_0000);
    LowByte(n, 0x100_0000_0000);
    LowByte(n, 0x1_0000_0000_0000);
    assert n / 1 == n;
  }

  /** A claim put on the bus by one node is, to every other, just that claim. */
  lemma ClaimsAreHeard(n: State, c: AC.Claim, capacity: nat, sessions: nat)
    requires T.ValidPeers(n.peers, capacity)
    ensures var (ecu, answer) := AC.OnClaim(n.ecu, c.source, c.name);
      HearFrame(n, ClaimFrame(c), capacity, sessions) == Announced(n, ecu, answer)
    ensures PriorityOf(ClaimFrame(c).id) == 6 && IsBroadcast(ClaimFrame(c).id)
  {
    IdRoundTrip(DEFAULT_PRIORITY, ADDRESS_CLAIMED, GLOBAL_ADDRESS, c.source);
    NameRoundTrip(c.name);
  }

  lemma RequestedGroup(low: Byte, mid: Byte, high: Byte)
    ensures PgnFromBytes(low, mid, high) == ADDRESS_CLAIMED <==> mid == 0xEE && high % 4 == 0
  {
    var group := (high as int) % 4 * 0x100 + mid;
    assert FromThree(low, mid, high) % 0x4_0000 == group * 0x100 + low;
    MaskedPgn(group, low);
    assert PgnMasked(FromThree(low, mid, high)) == PgnMasked(group * 0x100 + low);
  }

  /** A request that reaches a node is answered with the claim it holds exactly
      when it asks for that, in its second byte and two bits of its third; every
      other request is the application's. */
  lemma WhichRequestsAreAnswered(n: State, f: Frame, capacity: nat, sessions: nat)
    requires T.ValidPeers(n.peers, capacity)
    requires IsAddressedTo(f.id, n.ecu.address) && PgnOf(f.id) == REQUEST
    ensures var e, data := HearFrame(n, f, capacity, sessions).1, Data(f);
      e == if |data| >= 3 && data[1] == 0xEE && data[2] % 4 == 0 then Transmit(ClaimFrame(AC.CurrentClaim(n.ecu)))
           else Message(REQUEST, SourceOf(f.id), data, None)
  {
    var data := Data(f);
    if |data| >= 3 {
      RequestedGroup(data[0], data[1], data[2]);
    }
  }

  lemma CmFrameFields(source: Address, destination: Address, cm: T.TpCm)
    ensures var id := CmFrame(source, destination, cm).value.id;
      && PgnOf(id) == TP_CM && PriorityOf(id) == LOWEST_PRIORITY
      && DestinationOf(id) == Some(destination) && SourceOf(id) == source
  {
    IdRoundTrip(LOWEST_PRIORITY, TP_CM, destination, source);
  }

  lemma FramesToOthersDiffer(source: Address, a: Address, cm: T.TpCm, b: Address, other: T.TpCm)
    requires a != b
    ensures CmFrame(source, a, cm).value != CmFrame(source, b, other).value
  {
    CmFrameFields(source, a, cm);
    CmFrameFields(source, b, other);
  }

  /** The frame an event asks to have sent. */
  function Answer(e: Event): Option<Frame> {
    match e
    case Nothing => None
    case Transmit(f) => Some(f)
    case Message(_, _, _, reply) => reply
  }

  lemma LiftedAnswer(rx: T.Rx, address: Address, peer: Address)
    ensures var answer := Answer(Lift(rx, address, peer));
      answer.Some? ==> IsAnswerTo(answer.value, address, peer)
  {
    match rx
    case Idle =>
    case Send(cm) => CmFrameFields(address, peer, cm);
    case Message(_, _, _, ack) => if ack.Some? { CmFrameFields(address, peer, ack.value); }
  }

  predicate IsAnswerTo(f: Frame, from: Address, to: Address) {
    && PgnOf(f.id) == TP_CM && PriorityOf(f.id) == LOWEST_PRIORITY
    && DestinationOf(f.id) == Some(to) && SourceOf(f.id) == from
  }

  /** Whatever a node is told to send in a transfer goes back to the ECU whose
      frame it heard, from the address the node holds. */
  lemma AnswersGoToTheSender(n: State, f: Frame, capacity: nat, sessions: nat)
    requires T.ValidPeers(n.peers, capacity)
    requires PgnOf(f.id) == TP_CM || PgnOf(f.id) == TP_DT
    ensures var answer := Answer(HearFrame(n, f, capacity, sessions).1);
      answer.Some? ==> IsAnswerTo(answer.value, n.ecu.address, SourceOf(f.id))
  {
    var source := SourceOf(f.id);
    if PgnOf(f.id) == TP_DT {
      LiftedAnswer(T.TakeDt(n.peers, source, DecodeDt(f.payload), capacity).1, n.ecu.address, source);
    } else if DecodeCm(f.payload).Ok? {
      LiftedAnswer(T.TakeCm(n.peers, source, DecodeCm(f.payload).value, capacity, sessions).1, n.ecu.address, source);
    }
  }

  /** What a node's receiver asks to have sent after a frame. */
  function Asked(rx: T.Rx): Option<T.TpCm> {
    match rx
    case Idle => None
    case Send(cm) => Some(cm)
    case Message(_, _, _, ack) => ack
  }

  lemma AnswersSurvive(rx: T.Rx, address: Address, peer: Address)
    requires Asked(rx).Some? && Asked(rx).value.Abort? ==>
      !(Asked(rx).value.reason.Other? && 1 <= Asked(rx).value.reason.raw <= 8)
    ensures var answer := Answer(Lift(rx, address, peer));
      && answer.Some? == Asked(rx).Some?
      && (answer.Some? ==> DecodeCm(answer.value.payload) == Ok(Asked(rx).value))
  {
    if Asked(rx).Some? {
      CmRoundTrip(Asked(rx).value);
    }
  }

  /** A transfer frame addressed to a node alone is answered exactly when its
      receiver asks for that, and the frame sent says just what it asks. */
  lemma AnswersSayWhatIsAsked(n: State, f: Frame, capacity: nat, sessions: nat)
    requires T.ValidPeers(n.peers, capacity) && n.ecu.address != GLOBAL_ADDRESS
    requires DestinationOf(f.id) == Some(n.ecu.address)
    requires PgnOf(f.id) == TP_DT || (PgnOf(f.id) == TP_CM && DecodeCm(f.payload).Ok?)
    ensures var source, answer := SourceOf(f.id), Answer(HearFrame(n, f, capacity, sessions).1);
      var asked := Asked(if PgnOf(f.id) == TP_DT then T.TakeDt(n.peers, source, DecodeDt(f.payload), capacity).1
                         else T.TakeCm(n.peers, source, DecodeCm(f.payload).value, capacity, sessions).1);
      && answer.Some? == asked.Some?
      && (answer.Some? ==> DecodeCm(answer.value.payload) == Ok(asked.value))
  {
    var source := SourceOf(f.id);
    var rx := if PgnOf(f.id) == TP_DT then T.TakeDt(n.peers, source, DecodeDt(f.payload), capacity).1
      else T.TakeCm(n.peers, source, DecodeCm(f.payload).value, capacity, sessions).1;
    AnswersSurvive(rx, n.ecu.address, source);
  }

  // ----------------------------------------------------------- a command

  lemma CommandedName(name: AC.Name, a: Address, rest: seq<Byte>)
    ensures var data := NameBytes(name) + [a] + rest;
      |data| >= 9 && AC.NameFromBytes(data[..8]) == name && data[8] == a
  {
    var data := NameBytes(name) + [a] + rest;
    assert data[..8] == NameBytes(name);
    NameRoundTrip(name);
  }

  /** A command names one ECU and an address. The ECU of that NAME takes a
      specific address, announces it and contends for it afresh, and refuses
      another; any other ECU does nothing. */
  lemma CommandIsForOneName(n: State, name: AC.Name, a: Address, rest: seq<Byte>)
    ensures var r := Commanded(n, NameBytes(name) + [a] + rest);
      if name != n.ecu.name then r == Ok((n, None))
      else if a >= 254 then r.Err?
      else
        r == Ok((n.(ecu := n.ecu.(address := a, state := AC.Claiming), claimElapsedMs := 0),
                 Some(ClaimFrame(AC.Claim(a, name)))))
  {
    CommandedName(name, a, rest);
  }

  // ------------------------------------------------------ the claim window

  /** What a node lives through. */
  datatype Input = Heard(frame: Frame) | Ticked(ms: U16)

  function Live(n: State, i: Input, capacity: nat, sessions: nat): (r: (State, Event))
    requires T.ValidPeers(n.peers, capacity)
    ensures T.ValidPeers(r.0.peers, capacity)
  {
    match i
    case Heard(f) => HearFrame(n, f, capacity, sessions)
    case Ticked(ms) =>
      T.TickKeepsValid(n.peers, ms, T.T1_TIMEOUT_MS, capacity);
      (TickState(n, ms), Nothing)
  }

  function Lived(n: State, inputs: seq<Input>, capacity: nat, sessions: nat): (n': State)
    requires T.ValidPeers(n.peers, capacity)
    ensures T.ValidPeers(n'.peers, capacity)
    decreases |inputs|
  {
    if inputs == [] then n else Lived(Live(n, inputs[0], capacity, sessions).0, inputs[1..], capacity, sessions)
  }

  /** Whether an event is the announcement of a claim. */
  predicate IsClaimFrame(e: Event) {
    e.Transmit? && PgnOf(e.frame.id) == ADDRESS_CLAIMED
  }

  ghost predicate Unannounced(n: State, inputs: seq<Input>, capacity: nat, sessions: nat)
    requires T.ValidPeers(n.peers, capacity)
    decreases |inputs|
  {
    inputs != [] ==>
      && !IsClaimFrame(Live(n, inputs[0], capacity, sessions).1)
      && Unannounced(Live(n, inputs[0], capacity, sessions).0, inputs[1..], capacity, sessions)
  }

  function Waited(inputs: seq<Input>): nat {
    if inputs == [] then 0 else Waited(inputs[1..]) + if inputs[0].Ticked? then inputs[0].ms else 0
  }

  lemma ClaimFrameIsOne(c: AC.Claim)
    ensures IsClaimFrame(Transmit(ClaimFrame(c)))
  {
    IdRoundTrip(DEFAULT_PRIORITY, ADDRESS_CLAIMED, GLOBAL_ADDRESS, c.source);
  }

  /** Without an announcement a frame leaves the claim alone: it cannot change
      the node's address or state, or restart its window. */
  lemma SilentFramesKeepTheClaim(n: State, f: Frame, capacity: nat, sessions: nat)
    requires T.ValidPeers(n.peers, capacity)
    requires !IsClaimFrame(HearFrame(n, f, capacity, sessions).1)
    ensures var n' := HearFrame(n, f, capacity, sessions).0;
      && n'.ecu.address == n.ecu.address && n'.ecu.state == n.ecu.state && n'.claimElapsedMs == n.claimElapsedMs
  {
    var (n', e) := HearFrame(n, f, capacity, sessions);
    if e.Transmit? && (PgnOf(f.id) == ADDRESS_CLAIMED || AsksForClaim(f)) {
      var claim := if PgnOf(f.id) == ADDRESS_CLAIMED
        then AC.OnClaim(n.ecu, SourceOf(f.id), AC.NameFromBytes(f.payload)).1 else Some(AC.CurrentClaim(n.ecu));
      ClaimFrameIsOne(claim.value);
    }
  }

  /** From any announcement on, and until the next one, whatever frames arrive:
      the node holds its address exactly when 250 ms have been ticked. Every
      announcement, an answer to a request included, starts the count again. */
  lemma {:induction false} ClaimedAfterTheWindow(n: State, inputs: seq<Input>, capacity: nat, sessions: nat)
    requires T.ValidPeers(n.peers, capacity) && Unannounced(n, inputs, capacity, sessions)
    requires n.ecu.state.Claiming? && n.claimElapsedMs < ADDRESS_CLAIM_WINDOW_MS
    ensures var n' := Lived(n, inputs, capacity, sessions);
      && n'.ecu.address == n.ecu.address
      && n'.ecu.state == if n.claimElapsedMs + Waited(inputs) >= 250 then AC.Claimed else AC.Claiming
    decreases |inputs|
  {
    if inputs != [] {
      var n' := Live(n, inputs[0], capacity, sessions).0;
      if inputs[0].Heard? {
        SilentFramesKeepTheClaim(n, inputs[0].frame, capacity, sessions);
      }
      if n'.ecu.state.Claiming? {
        ClaimedAfterTheWindow(n', inputs[1..], capacity, sessions);
      } else {
        ClaimedStays(n', inputs[1..], capacity, sessions);
      }
    }
  }

  /** So from its start a node holds a specific address, unless contested, exactly
      when 250 ms have been ticked; one that prefers a reserved address gives up. */
  lemma StartedNodeWaits(n: State, inputs: seq<Input>, capacity: nat, sessions: nat)
    requires T.ValidPeers(n.peers, capacity) && Unannounced(StartState(n), inputs, capacity, sessions)
    ensures var n' := Lived(StartState(n), inputs, capacity, sessions);
      if n.ecu.address < 254 then
        && n'.ecu.address == n.ecu.address
        && n'.ecu.state == if Waited(inputs) >= 250 then AC.Claimed else AC.Claiming
      else StartState(n).ecu.state == AC.CannotClaim && StartState(n).ecu.address == 254
  {
    if n.ecu.address < 254 {
      ClaimedAfterTheWindow(StartState(n), inputs, capacity, sessions);
    }
  }

  lemma {:induction false} ClaimedStays(n: State, inputs: seq<Input>, capacity: nat, sessions: nat)
    requires T.ValidPeers(n.peers, capacity) && Unannounced(n, inputs, capacity, sessions)
    requires n.ecu.state.Claimed?
    ensures var n' := Lived(n, inputs, capacity, sessions);
      n'.ecu.state.Claimed? && n'.ecu.address == n.ecu.address
    decreases |inputs|
  {
    if inputs != [] {
      if inputs[0].Heard? {
        SilentFramesKeepTheClaim(n, inputs[0].frame, capacity, sessions);
      }
      ClaimedStays(Live(n, inputs[0], capacity, sessions).0, inputs[1..], capacity, sessions);
    }
  }

  /** Every announcement while claiming restarts the window. */
  lemma AnnouncementRestartsTheWindow(n: State, f: Frame, capacity: nat, sessions: nat)
    requires T.ValidPeers(n.peers, capacity)
    requires IsClaimFrame(HearFrame(n, f, capacity, sessions).1)
    requires HearFrame(n, f, capacity, sessions).0.ecu.state.Claiming?
    ensures HearFrame(n, f, capacity, sessions).0.claimElapsedMs == 0
  {
    IdRoundTrip(LOWEST_PRIORITY, TP_CM, SourceOf(f.id), n.ecu.address);
  }

  // ------------------------------------------------------------- the object

  class Node {
    const claimer: AC.AddressClaimer
    const reassembler: TR.Reassembler
    var claimElapsedMs: U16

    ghost function Footprint(): set<object>
    {
      {this, claimer, claimer.seen, reassembler, reassembler.slots, reassembler.buffers}
    }

    ghost predicate Valid()
      reads Footprint()
    {
      && (claimer.seen as object) !in {reassembler.slots as object, reassembler.buffers as object}
      && claimer.Valid() && reassembler.Valid()
    }

    ghost function View(): State
      reads Footprint()
      requires Valid()
    {
      State(claimer.View(), reassembler.peers, claimElapsedMs)
    }

    constructor (name: AC.Name, preferred: Address, capacity: nat, sessions: nat)
      ensures Valid() && fresh(Footprint())
      ensures View() == Fresh(name, preferred)
      ensures reassembler.capacity == capacity && reassembler.slots.Length == sessions
    {
      claimer := new AC.AddressClaimer(name, preferred);
      reassembler := new TR.Reassembler(capacity, sessions);
      claimElapsedMs := 0;
    }

    method Start() returns (f: Frame)
      requires Valid()
      modifies `claimElapsedMs, claimer
      ensures Valid() && View() == StartState(old(View()))
      ensures f == ClaimFrame(AC.CurrentClaim(View().ecu))
    {
      var claim := claimer.MakeClaim();
      claimElapsedMs := 0;
      f := ClaimFrame(claim);
    }

    /** Close the contention window if it is over. */
    method TickClaim(elapsed: U16)
      requires Valid()
      modifies `claimElapsedMs, claimer
      ensures Valid() && View() == TickState(old(View()), elapsed).(peers := old(View()).peers)
    {
      if claimer.state.Claiming? {
        claimElapsedMs := SatAdd16(claimElapsedMs, elapsed);
        if claimElapsedMs >= ADDRESS_CLAIM_WINDOW_MS {
          claimer.ContentionWindowElapsed();
        }
      }
    }

    /** Time passes. Every addressed transfer that stalls is aborted with one
        frame to its peer, from the address the node then holds. */
    method Tick(elapsed: U16) returns (frames: seq<Frame>)
      requires Valid()
      modifies Footprint()
      ensures Valid() && View() == TickState(old(View()), elapsed)
      ensures forall f :: f in frames <==>
        exists e :: TR.IsExpiry(old(View()).peers, e, elapsed, T.T1_TIMEOUT_MS) && e.1.Some?
          && f == CmFrame(old(View()).ecu.address, e.0, e.1.value).value
      ensures forall p, q :: 0 <= p < q < |frames| ==> frames[p] != frames[q]
    {
      TickClaim(elapsed);
      var expired := reassembler.Tick(elapsed);
      frames := [];
      for i := 0 to |expired|
        invariant forall p, q :: 0 <= p < q < |frames| ==> frames[p] != frames[q]
        invariant forall f :: f in frames <==>
          exists k :: 0 <= k < i && expired[k].1.Some?
            && f == CmFrame(claimer.address, expired[k].0, expired[k].1.value).value
      {
        if expired[i].1.Some? {
          var frame := CmFrame(claimer.address, expired[i].0, expired[i].1.value).value;
          forall k | 0 <= k < i && expired[k].1.Some?
            ensures CmFrame(claimer.address, expired[k].0, expired[k].1.value).value != frame
          {
            FramesToOthersDiffer(claimer.address, expired[k].0, expired[k].1.value, expired[i].0, expired[i].1.value);
          }
          assert frame !in frames;
          frames := frames + [frame];
        }
      }
    }

    method ActOnClaim(claim: Option<AC.Claim>) returns (e: Event)
      requires Valid()
      modifies `claimElapsedMs
      ensures Valid()
      ensures (View(), e) == Announced(old(View()), old(View()).ecu, claim)
    {
      match claim
      case None =>
        e := Nothing;
      case Some(c) =>
        if claimer.state.Claiming? {
          claimElapsedMs := 0;
        }
        e := Transmit(ClaimFrame(c));
    }

    method OnTpCmFrame(f: Frame) returns (e: Event)
      requires Valid() && PgnOf(f.id) == TP_CM && IsAddressedTo(f.id, claimer.address)
      modifies Footprint()
      ensures Valid()
      ensures (View(), e) == HearFrame(old(View()), f, reassembler.capacity, reassembler.slots.Length)
    {
      var source := SourceOf(f.id);
      var decoded := DecodeCm(f.payload);
      if decoded.Err? || (decoded.value.Rts? && IsBroadcast(f.id)) {
        return Nothing;
      }
      var rx := reassembler.OnTpCm(source, decoded.value);
      return Lift(rx, claimer.address, source);
    }

    method OnFrame(f: Frame) returns (e: Event)
      requires Valid()
      modifies Footprint()
      ensures Valid()
      ensures (View(), e) == HearFrame(old(View()), f, reassembler.capacity, reassembler.slots.Length)
    {
      var source, group := SourceOf(f.id), PgnOf(f.id);
      if !IsAddressedTo(f.id, claimer.address) {
        return Nothing;
      }
      if group == ADDRESS_CLAIMED {
        var claim := claimer.OnAddressClaimed(source, AC.NameFromBytes(f.payload));
        e := ActOnClaim(claim);
        return;
      }
      if group == REQUEST {
        var request := DecodeRequest(Data(f));
        if request.Ok? && request.value == ADDRESS_CLAIMED {
          var claim := claimer.OnRequest();
          e := ActOnClaim(Some(claim));
          return;
        }
      }
      if group == TP_CM {
        e := OnTpCmFrame(f);
        return;
      }
      if group == TP_DT {
        var rx := reassembler.OnTpDt(source, DecodeDt(f.payload));
        return Lift(rx, claimer.address, source);
      }
      e := Message(group, source, Data(f), None);
    }

    method OnCommandedAddress(data: seq<Byte>) returns (r: Result<Option<Frame>>)
      requires Valid()
      modifies `claimElapsedMs, claimer
      ensures Valid()
      ensures match Commanded(old(View()), data)
        case Err(error) => r == Err(error) && View() == old(View())
        case Ok((n, f)) => r == Ok(f) && View() == n
    {
      var done := claimer.OnCommandedAddress(data);
      if done.Err? {
        return Err(done.error);
      }
      if done.value.None? {
        return Ok(None);
      }
      claimElapsedMs := 0;
      return Ok(Some(ClaimFrame(done.value.value)));
    }

    method GiveUpAddress() returns (f: Frame)
      requires Valid()
      modifies claimer
      ensures Valid() && View() == old(View()).(ecu := AC.GaveUp(old(View()).ecu))
      ensures f == ClaimFrame(AC.CurrentClaim(View().ecu))
    {
      var claim := claimer.GiveUp();
      f := ClaimFrame(claim);
    }
  }
}
