/** A message on its way out, however many frames it takes: the choice of
    mechanism, and the frames it puts on the bus. */
module Outgoing {
  import opened Types
  import opened Wire
  import T = TpSpec
  import X = TpTransmitter

  datatype Progress = Waiting | Ready | Done | Aborted(reason: T.AbortReason)

  datatype State =
    | Single(data: seq<Byte>, sent: bool)
    | Multi(sender: T.Sender, announced: bool)

  datatype Out = Out(pgn: Pgn, priority: Priority, source: Address, destination: Address, state: State)

  ghost predicate ValidOut(o: Out) {
    match o.state
    case Single(data, _) => |data| <= MAX_PAYLOAD && IdFromParts(o.priority, o.pgn, o.destination, o.source).Ok?
    case Multi(sender, _) =>
      T.ValidSender(sender) && sender.pgn == o.pgn && (sender.broadcast <==> o.destination == GLOBAL_ADDRESS)
  }

  function NewOut(pgn: Pgn, source: Address, destination: Address, data: seq<Byte>): (r: Result<Out>)
    ensures r.Ok? ==> ValidOut(r.value)
  {
    if |data| <= MAX_PAYLOAD then
      match IdFromParts(DEFAULT_PRIORITY, pgn, destination, source)
      case Err(e) => Err(e)
      case Ok(_) => Ok(Out(pgn, DEFAULT_PRIORITY, source, destination, Single(data, false)))
    else
      match T.Build(pgn, data, destination == GLOBAL_ADDRESS)
      case Err(e) => Err(e)
      case Ok(s) => Ok(Out(pgn, DEFAULT_PRIORITY, source, destination, Multi(s, false)))
  }

  /** Transport-protocol frames are always of the lowest priority. */
  function TpFrame(group: Pgn, destination: Address, source: Address, payload: Octets): (f: Option<Frame>)
    ensures f.Some? <==> IsPdu1(group) || destination == GLOBAL_ADDRESS
  {
    match IdFromParts(LOWEST_PRIORITY, group, destination, source)
    case Err(_) => None
    case Ok(id) => Some(FromPayload(id, payload))
  }

  function PullFrame(o: Out): (r: (Out, Option<Frame>))
    requires ValidOut(o)
    ensures ValidOut(r.0)
  {
    match o.state
    case Single(data, sent) =>
      if sent then (o, None)
      else (o.(state := Single(data, true)),
            Some(NewFrame(IdFromParts(o.priority, o.pgn, o.destination, o.source).value, data).value))
    case Multi(sender, announced) =>
      if !announced then
        (o.(state := Multi(sender, true)), TpFrame(TP_CM, o.destination, o.source, EncodeCm(T.Start(sender))))
      else
        var (sender', dt) := T.NextPacket(sender);
        (o.(state := Multi(sender', true)),
         if dt.None? then None else TpFrame(TP_DT, o.destination, o.source, EncodeDt(dt.value)))
  }

  function ProgressOf(tx: T.Tx): Progress {
    match tx
    case TxIdle => Waiting
    case SendData => Ready
    case Complete => Done
    case Aborted(reason) => Progress.Aborted(reason)
  }

  /** A frame from the bus: only connection management from the destination of a
      multi-frame message matters. */
  function HearFrame(o: Out, f: Frame): (r: (Out, Progress))
    requires ValidOut(o)
    ensures ValidOut(r.0)
  {
    if o.state.Single? || PgnOf(f.id) != TP_CM || SourceOf(f.id) != o.destination then (o, Waiting)
    else
      match DecodeCm(f.payload)
      case Err(_) => (o, Waiting)
      case Ok(cm) =>
        var (sender, tx) := T.OnCm(o.state.sender, cm);
        (o.(state := Multi(sender, o.state.announced)), ProgressOf(tx))
  }

  predicate IsComplete(o: Out) {
    match o.state
    case Single(_, sent) => sent
    case Multi(sender, _) => sender.complete
  }

  function FrameCount(o: Out): nat {
    match o.state
    case Single(_, _) => 1
    case Multi(sender, _) => 1 + sender.packets
  }

  predicate NeedsPacing(o: Out) {
    o.state.Multi? && o.destination == GLOBAL_ADDRESS && o.state.sender.packets > 0
  }

  // --------------------------------------------------------- whole messages

  /** The frames a message gives up when pulled n times. */
  function Pulled(o: Out, n: nat): seq<Frame>
    requires ValidOut(o)
    decreases n
  {
    if n == 0 then []
    else
      var (o', f) := PullFrame(o);
      (if f.Some? then [f.value] else []) + Pulled(o', n - 1)
  }

  function After(o: Out, n: nat): (o': Out)
    requires ValidOut(o)
    ensures ValidOut(o')
    decreases n
  {
    if n == 0 then o else After(PullFrame(o).0, n - 1)
  }

  /** The frames a broadcast of more than eight bytes is made of: the
      announcement, then its packets in order. */
  function BroadcastFrames(pgn: Pgn, source: Address, data: seq<Byte>): seq<Frame>
    requires T.MIN_MESSAGE_SIZE <= |data| <= T.MAX_MESSAGE_SIZE
  {
    var packets := T.PacketCount(|data|);
    [TpFrame(TP_CM, GLOBAL_ADDRESS, source, EncodeCm(T.Bam(|data|, packets, pgn))).value] +
    PacketFrames(source, data, 1, packets)
  }

  /** Packets q and on, as frames. */
  function PacketFrames(source: Address, data: seq<Byte>, q: nat, packets: Byte): (fs: seq<Frame>)
    requires 1 <= q <= packets + 1 && (packets - 1) * 7 <= |data|
    ensures |fs| == packets + 1 - q
    decreases packets + 1 - q
  {
    if q > packets then []
    else
      var frame := TpFrame(TP_DT, GLOBAL_ADDRESS, source, EncodeDt(T.Packet(data, q))).value;
      [frame] + PacketFrames(source, data, q + 1, packets)
  }

  /** A broadcast in the middle of its packets. */
  ghost predicate Broadcasting(o: Out) {
    && ValidOut(o) && o.destination == GLOBAL_ADDRESS && o.state.Multi? && o.state.announced
    && o.state.sender.windowRemaining == o.state.sender.packets + 1 - o.state.sender.nextSequence
  }

  lemma {:induction false} BroadcastRun(o: Out, n: nat)
    requires Broadcasting(o) && n >= o.state.sender.packets + 1 - o.state.sender.nextSequence
    ensures var s := o.state.sender;
      && Pulled(o, n) == PacketFrames(o.source, s.data, s.nextSequence, s.packets)
      && (s.complete || s.nextSequence <= s.packets ==> IsComplete(After(o, n)))
    decreases n
  {
    if n > 0 {
      BroadcastRun(PullFrame(o).0, n - 1);
    }
  }

  /** Pulled until it gives nothing more, and however often after that, a long
      broadcast is exactly its announcement and its packets, as many frames as
      it said, and then it is complete. */
  lemma BroadcastIsItsFrames(pgn: Pgn, source: Address, data: seq<Byte>, n: nat)
    requires T.MIN_MESSAGE_SIZE <= |data| <= T.MAX_MESSAGE_SIZE
    requires n >= 1 + T.PacketCount(|data|)
    ensures var o := NewOut(pgn, source, GLOBAL_ADDRESS, data);
      && o.Ok?
      && Pulled(o.value, n) == BroadcastFrames(pgn, source, data)
      && |Pulled(o.value, n)| == FrameCount(o.value)
      && !IsComplete(o.value) && IsComplete(After(o.value, n))
      && NeedsPacing(o.value)
  {
    var o := NewOut(pgn, source, GLOBAL_ADDRESS, data).value;
    BroadcastRun(PullFrame(o).0, n - 1);
  }

  /** A message of up to eight bytes is one frame holding it. */
  lemma ShortMessageIsOneFrame(pgn: Pgn, source: Address, destination: Address, data: seq<Byte>, n: nat)
    requires |data| <= MAX_PAYLOAD && NewOut(pgn, source, destination, data).Ok? && n >= 1
    ensures var o := NewOut(pgn, source, destination, data).value;
      && |Pulled(o, n)| == 1 == FrameCount(o)
      && Pulled(o, n)[0].id == IdFromParts(DEFAULT_PRIORITY, pgn, destination, source).value
      && Data(Pulled(o, n)[0]) == data
      && IsComplete(After(o, n)) && !NeedsPacing(o)
  {
    SentStaysSent(PullFrame(NewOut(pgn, source, destination, data).value).0, n - 1);
  }

  lemma {:induction false} SentStaysSent(o: Out, n: nat)
    requires ValidOut(o) && o.state.Single? && o.state.sent
    ensures Pulled(o, n) == [] && After(o, n) == o
  {
    if n > 0 {
      SentStaysSent(o, n - 1);
    }
  }

  /** What can be sent: a short message, unless a broadcast-only group is
      addressed to one ECU; a long one of at most 1785 bytes. What cannot is told
      apart; and of what can, a long broadcast alone needs pacing. */
  lemma WhatCanBeSent(pgn: Pgn, source: Address, destination: Address, data: seq<Byte>)
    ensures var r := NewOut(pgn, source, destination, data);
      && (r.Ok? <==> if |data| <= 8 then IsPdu1(pgn) || destination == GLOBAL_ADDRESS else |data| <= 1785)
      && (r.Ok? ==> (NeedsPacing(r.value) <==> |data| > 8 && destination == GLOBAL_ADDRESS))
      && (r.Err? ==> r.error == if |data| <= 8 then DestinationMismatch else InvalidMessageSize(Min(|data|, 65535)))
  {
    IdRoundTrip(DEFAULT_PRIORITY, pgn, destination, source);
  }

  // ---------------------------------------------------- histories of a message

  /** What happens to a message: its frames are pulled, frames are heard. */
  datatype Act = Pull | Hear(frame: Frame)

  function Acted(o: Out, act: Act): (r: (Out, Option<Frame>))
    requires ValidOut(o)
    ensures ValidOut(r.0)
  {
    match act
    case Pull => PullFrame(o)
    case Hear(f) => (HearFrame(o, f).0, None)
  }

  function Sent(o: Out, acts: seq<Act>): seq<Frame>
    requires ValidOut(o)
    decreases |acts|
  {
    if acts == [] then []
    else
      var (o', f) := Acted(o, acts[0]);
      (if f.Some? then [f.value] else []) + Sent(o', acts[1..])
  }

  function Finally(o: Out, acts: seq<Act>): (o': Out)
    requires ValidOut(o)
    ensures ValidOut(o')
    decreases |acts|
  {
    if acts == [] then o else Finally(Acted(o, acts[0]).0, acts[1..])
  }

  /** The same history without what others than this ECU say. */
  function HeardFrom(acts: seq<Act>, a: Address): seq<Act> {
    if acts == [] then []
    else (if acts[0].Hear? && SourceOf(acts[0].frame.id) != a then [] else [acts[0]]) + HeardFrom(acts[1..], a)
  }

  /** What anyone but the destination says changes nothing: neither the frames
      that go out, then or later, nor what the message has come to. */
  lemma {:induction false} StrangersChangeNothing(o: Out, acts: seq<Act>)
    requires ValidOut(o)
    ensures Sent(o, acts) == Sent(o, HeardFrom(acts, o.destination))
    ensures Finally(o, acts) == Finally(o, HeardFrom(acts, o.destination))
    decreases |acts|
  {
    if acts != [] {
      var o', rest := Acted(o, acts[0]).0, HeardFrom(acts[1..], o.destination);
      assert o'.destination == o.destination;
      StrangersChangeNothing(o', acts[1..]);
      if acts[0].Hear? && SourceOf(acts[0].frame.id) != o.destination {
        assert HeardFrom(acts, o.destination) == rest;
      } else {
        assert HeardFrom(acts, o.destination) == [acts[0]] + rest;
        assert ([acts[0]] + rest)[1..] == rest;
      }
    }
  }

  /** How a message's frames are marked: a short one with its own group and the
      priority it was given, a transfer's with the lowest. */
  predicate IsMarked(o: Out, f: Frame) {
    && SourceOf(f.id) == o.source
    && match o.state
       case Single(data, _) =>
         && PgnOf(f.id) == o.pgn && PriorityOf(f.id) == o.priority && Data(f) == data
         && (IsPdu1(o.pgn) ==> DestinationOf(f.id) == Some(o.destination))
       case Multi(_, _) =>
         && PriorityOf(f.id) == 7 && DestinationOf(f.id) == Some(o.destination)
         && (PgnOf(f.id) == TP_CM || PgnOf(f.id) == TP_DT)
  }

  lemma NextIsMarked(o: Out)
    requires ValidOut(o)
    ensures PullFrame(o).1.Some? ==> IsMarked(o, PullFrame(o).1.value)
  {
    match o.state
    case Single(_, _) => IdRoundTrip(o.priority, o.pgn, o.destination, o.source);
    case Multi(_, _) =>
      IdRoundTrip(LOWEST_PRIORITY, TP_CM, o.destination, o.source);
      IdRoundTrip(LOWEST_PRIORITY, TP_DT, o.destination, o.source);
  }

  lemma {:induction false} EveryFrameIsMarked(o: Out, acts: seq<Act>)
    requires ValidOut(o)
    ensures forall f :: f in Sent(o, acts) ==> IsMarked(o, f)
    decreases |acts|
  {
    if acts != [] {
      var o' := Acted(o, acts[0]).0;
      NextIsMarked(o);
      EveryFrameIsMarked(o', acts[1..]);
      assert forall f :: IsMarked(o', f) == IsMarked(o, f);
    }
  }

  /** What the destination says of this message in a frame. */
  function Said(o: Out, f: Frame): Option<T.TpCm> {
    if PgnOf(f.id) == TP_CM && SourceOf(f.id) == o.destination && DecodeCm(f.payload).Ok?
       && DecodeCm(f.payload).value.pgn == o.pgn
    then Some(DecodeCm(f.payload).value)
    else None
  }

  /** A message's payload, group and ends never change. */
  lemma {:induction false} MessageIsTheSame(o: Out, acts: seq<Act>)
    requires ValidOut(o) && o.state.Multi?
    ensures var o' := Finally(o, acts);
      && o'.pgn == o.pgn && o'.destination == o.destination && o'.source == o.source && o'.state.Multi?
      && o'.state.sender.data == o.state.sender.data && o'.state.sender.packets == o.state.sender.packets
      && o'.state.sender.broadcast == o.state.sender.broadcast
    decreases |acts|
  {
    if acts != [] {
      MessageIsTheSame(Acted(o, acts[0]).0, acts[1..]);
    }
  }

  /** After any history of an announced transfer: it is reported ready exactly
      when the destination has granted packets that exist, and then the next
      frame pulled is the packet it named; done exactly when the destination has
      acknowledged it; aborted exactly when the destination has aborted it. */
  lemma WhatIsReported(o: Out, acts: seq<Act>, f: Frame)
    requires ValidOut(o) && o.state.Multi?
    ensures var o' := Finally(o, acts);
      var (after, progress) := HearFrame(o', f);
      var said, sender := Said(o, f), o.state.sender;
      && (progress == Ready <==> said.Some? && said.value.Cts? && said.value.packets > 0
                                 && 1 <= said.value.nextPacket <= T.PacketCount(|sender.data|))
      && (progress == Ready && o'.state.announced && !sender.broadcast ==>
            PullFrame(after).1 ==
              TpFrame(TP_DT, o.destination, o.source, EncodeDt(T.Packet(sender.data, said.value.nextPacket))))
      && (progress == Done <==> said.Some? && said.value.EndOfMsgAck?)
      && (forall reason :: progress == Progress.Aborted(reason) <==> said == Some(T.Abort(reason, o.pgn)))
  {
    MessageIsTheSame(o, acts);
  }

  /** The destination acknowledges the message in a frame. */
  predicate IsAck(o: Out, f: Frame) {
    Said(o, f).Some? && Said(o, f).value.EndOfMsgAck?
  }

  ghost predicate Acknowledged(o: Out, acts: seq<Act>) {
    exists f :: Hear(f) in acts && IsAck(o, f)
  }

  lemma AcknowledgedSooner(o: Out, acts: seq<Act>)
    requires acts != []
    ensures Acknowledged(o, acts) <==> (acts[0].Hear? && IsAck(o, acts[0].frame)) || Acknowledged(o, acts[1..])
  {
    assert acts == [acts[0]] + acts[1..];
  }

  /** And an addressed transfer is complete exactly when the destination has
      acknowledged it. */
  lemma {:induction false} CompleteIffDestinationSaysSo(o: Out, acts: seq<Act>)
    requires ValidOut(o) && o.state.Multi? && o.destination != GLOBAL_ADDRESS
    ensures IsComplete(Finally(o, acts)) <==> IsComplete(o) || Acknowledged(o, acts)
    decreases |acts|
  {
    if acts != [] {
      var o' := Acted(o, acts[0]).0;
      AcknowledgedSooner(o, acts);
      assert forall f :: IsAck(o', f) == IsAck(o, f);
      CompleteIffDestinationSaysSo(o', acts[1..]);
    }
  }

  // ------------------------------------------------------------- the object

  class Outgoing {
    const pgn: Pgn
    var priority: Priority
    const source: Address
    const destination: Address
    const data: seq<Byte>
    var sent: bool
    const transmitter: X.Transmitter?
    var announced: bool

    ghost function View(): Out
      reads this, transmitter
    {
      Out(pgn, priority, source, destination,
          if transmitter == null then Single(data, sent) else Multi(transmitter.View(), announced))
    }

    ghost predicate Valid()
      reads this, transmitter
    {
      ValidOut(View())
    }

    constructor Short(pgn: Pgn, source: Address, destination: Address, data: seq<Byte>)
      ensures View() == Out(pgn, DEFAULT_PRIORITY, source, destination, Single(data, false))
      ensures transmitter == null
    {
      this.pgn, this.source, this.destination, this.data := pgn, source, destination, data;
      priority, sent, transmitter, announced := DEFAULT_PRIORITY, false, null, false;
    }

    constructor Long(pgn: Pgn, source: Address, destination: Address, transmitter: X.Transmitter)
      ensures View() == Out(pgn, DEFAULT_PRIORITY, source, destination, Multi(transmitter.View(), false))
      ensures this.transmitter == transmitter
    {
      this.pgn, this.source, this.destination, data := pgn, source, destination, [];
      priority, sent, announced := DEFAULT_PRIORITY, false, false;
      this.transmitter := transmitter;
    }

    /** Prepare a message: one frame if it fits, else a broadcast or an
        addressed transfer. */
    static method New(pgn: Pgn, source: Address, destination: Address, data: seq<Byte>) returns (r: Result<Outgoing>)
      ensures r.Ok? ==> fresh(r.value) && r.value.Valid()
      ensures r.Ok? && r.value.transmitter != null ==> fresh(r.value.transmitter)
      ensures match NewOut(pgn, source, destination, data)
        case Ok(o) => r.Ok? && r.value.View() == o
        case Err(e) => r == Err(e)
    {
      if |data| <= MAX_PAYLOAD {
        var id := IdFromParts(DEFAULT_PRIORITY, pgn, destination, source);
        if id.Err? {
          return Err(id.error);
        }
        var short := new Outgoing.Short(pgn, source, destination, data);
        return Ok(short);
      }
      var built := X.Transmitter.New(pgn, data, destination == GLOBAL_ADDRESS);
      if built.Err? {
        return Err(built.error);
      }
      var long := new Outgoing.Long(pgn, source, destination, built.value);
      return Ok(long);
    }

    /** Only the one-frame case has a priority to choose. */
    method WithPriority(p: Priority)
      requires Valid()
      modifies `priority
      ensures Valid() && View() == old(View()).(priority := p)
    {
      priority := p;
      IdRoundTrip(p, pgn, destination, source);
    }

    method NextFrame() returns (f: Option<Frame>)
      requires Valid()
      modifies `sent, `announced, transmitter
      ensures Valid()
      ensures (View(), f) == PullFrame(old(View()))
    {
      if transmitter == null {
        if sent {
          return None;
        }
        sent := true;
        var id := IdFromParts(priority, pgn, destination, source);
        return Some(NewFrame(id.value, data).value);
      }
      if !announced {
        announced := true;
        return TpFrame(TP_CM, destination, source, EncodeCm(T.Start(transmitter.View())));
      }
      var packet := transmitter.NextDt();
      if packet.None? {
        return None;
      }
      return TpFrame(TP_DT, destination, source, EncodeDt(packet.value));
    }

    method OnFrame(frame: Frame) returns (p: Progress)
      requires Valid()
      modifies transmitter
      ensures Valid()
      ensures (View(), p) == HearFrame(old(View()), frame)
    {
      if transmitter == null || PgnOf(frame.id) != TP_CM || SourceOf(frame.id) != destination {
        return Waiting;
      }
      var cm := DecodeCm(frame.payload);
      if cm.Err? {
        return Waiting;
      }
      var tx := transmitter.OnTpCm(cm.value);
      p := ProgressOf(tx);
    }
  }
}
