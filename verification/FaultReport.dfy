/** From one ECU's fault log to another ECU's application: the DM1 is written,
    framed, broadcast, reassembled and read. */
module FaultReport {
  import opened Types
  import opened Wire
  import opened Node
  import D = Diagnostics
  import L = FaultLogSpec
  import O = Outgoing
  import S = TpSafety
  import T = TpSpec
  import AC = AddressClaim

  // -------------------------------------------------- a broadcast arriving

  /** The messages one source gets through to the application. */
  function Received(n: State, inputs: seq<Input>, a: Address, capacity: nat, sessions: nat): seq<Event>
    requires T.ValidPeers(n.peers, capacity)
    decreases |inputs|
  {
    if inputs == [] then []
    else
      var (n', e) := Live(n, inputs[0], capacity, sessions);
      (if e.Message? && e.source == a then [e] else []) + Received(n', inputs[1..], a, capacity, sessions)
  }

  /** The inputs bring these frames from `a`, in order, with anything from other
      sources in between, and never more than the timeout without one. */
  predicate Carries(inputs: seq<Input>, frames: seq<Frame>, a: Address, idle: nat)
    decreases |inputs|
  {
    if inputs == [] then frames == []
    else
      match inputs[0]
      case Ticked(ms) => idle + ms <= T.T1_TIMEOUT_MS && Carries(inputs[1..], frames, a, idle + ms)
      case Heard(f) =>
        if SourceOf(f.id) != a then Carries(inputs[1..], frames, a, idle)
        else frames != [] && f == frames[0] && Carries(inputs[1..], frames[1..], a, 0)
  }

  /** The receiver holds packets 1 to q - 1 of this broadcast from `a`. */
  ghost predicate Holding(n: State, pgn: Pgn, a: Address, data: seq<Byte>, q: nat, idle: nat) {
    && a in n.peers
    && var s := n.peers[a].session;
    && s.pgn == pgn && s.source == a && s.broadcast && s.size == |data| && s.packets == T.PacketCount(|data|)
    && 1 <= s.nextSequence == q <= s.packets && s.idleMs == idle
    && (q - 1) * 7 < |data| && n.peers[a].filled == data[..(q - 1) * 7]
  }

  /** A data frame as the receiver sees it. */
  lemma PacketFrameFields(a: Address, dt: T.TpDt)
    ensures var f := O.TpFrame(TP_DT, GLOBAL_ADDRESS, a, EncodeDt(dt)).value;
      PgnOf(f.id) == TP_DT && SourceOf(f.id) == a && IsBroadcast(f.id) && DecodeDt(f.payload) == dt
  {
    IdRoundTrip(LOWEST_PRIORITY, TP_DT, GLOBAL_ADDRESS, a);
    DtRoundTrip(dt, EncodeDt(dt));
  }

  lemma AnnouncementFields(a: Address, cm: T.TpCm)
    requires cm.Bam?
    ensures var f := O.TpFrame(TP_CM, GLOBAL_ADDRESS, a, EncodeCm(cm)).value;
      PgnOf(f.id) == TP_CM && SourceOf(f.id) == a && IsBroadcast(f.id) && DecodeCm(f.payload) == Ok(cm)
  {
    IdRoundTrip(LOWEST_PRIORITY, TP_CM, GLOBAL_ADDRESS, a);
    CmRoundTrip(cm);
  }

  lemma NextPacketArrives(
      n: State, pgn: Pgn, a: Address, data: seq<Byte>, q: nat, idle: nat, capacity: nat, sessions: nat)
    requires T.ValidPeers(n.peers, capacity) && T.MIN_MESSAGE_SIZE <= |data| <= T.MAX_MESSAGE_SIZE
    requires Holding(n, pgn, a, data, q, idle)
    ensures var f := O.TpFrame(TP_DT, GLOBAL_ADDRESS, a, EncodeDt(T.Packet(data, q))).value;
      var (n', e) := Live(n, Heard(f), capacity, sessions);
      if q == T.PacketCount(|data|) then e == Message(pgn, a, data, None) && a !in n'.peers
      else e == Nothing && Holding(n', pgn, a, data, q + 1, 0)
  {
    PacketFrameFields(a, T.Packet(data, q));
    S.PrefixGrows(n.peers[a].filled, data, q);
    assert T.ValidTransfer(n.peers[a], capacity);
    assert data[..|data|] == data;
  }

  lemma OthersDoNotDisturb(
      n: State, f: Frame, pgn: Pgn, a: Address, data: seq<Byte>, q: nat, idle: nat, capacity: nat, sessions: nat)
    requires T.ValidPeers(n.peers, capacity) && Holding(n, pgn, a, data, q, idle) && SourceOf(f.id) != a
    ensures var (n', e) := Live(n, Heard(f), capacity, sessions);
      Holding(n', pgn, a, data, q, idle) && !(e.Message? && e.source == a)
  {
    var source := SourceOf(f.id);
    if PgnOf(f.id) == TP_CM && DecodeCm(f.payload).Ok? {
      S.NonInterference(n.peers, S.Cm(source, DecodeCm(f.payload).value), source, a, capacity, sessions);
    } else if PgnOf(f.id) == TP_DT {
      S.NonInterference(n.peers, S.Dt(source, DecodeDt(f.payload)), source, a, capacity, sessions);
    }
  }

  lemma {:induction false} PacketsArrive(
      n: State, inputs: seq<Input>, pgn: Pgn, a: Address, data: seq<Byte>, q: nat, idle: nat, capacity: nat,
      sessions: nat)
    requires T.ValidPeers(n.peers, capacity) && T.MIN_MESSAGE_SIZE <= |data| <= T.MAX_MESSAGE_SIZE
    requires Holding(n, pgn, a, data, q, idle)
    requires Carries(inputs, O.PacketFrames(a, data, q, T.PacketCount(|data|)), a, idle)
    ensures Received(n, inputs, a, capacity, sessions) == [Message(pgn, a, data, None)]
    decreases |inputs|
  {
    var packets := T.PacketCount(|data|);
    var n' := Live(n, inputs[0], capacity, sessions).0;
    match inputs[0]
    case Ticked(ms) =>
      PacketsArrive(n', inputs[1..], pgn, a, data, q, idle + ms, capacity, sessions);
    case Heard(f) =>
      if SourceOf(f.id) != a {
        OthersDoNotDisturb(n, f, pgn, a, data, q, idle, capacity, sessions);
        PacketsArrive(n', inputs[1..], pgn, a, data, q, idle, capacity, sessions);
      } else {
        NextPacketArrives(n, pgn, a, data, q, idle, capacity, sessions);
        if q == packets {
          NothingFollows(n', inputs[1..], a, 0, capacity, sessions);
        } else {
          PacketsArrive(n', inputs[1..], pgn, a, data, q + 1, 0, capacity, sessions);
        }
      }
  }

  lemma {:induction false} NothingFollows(
      n: State, inputs: seq<Input>, a: Address, idle: nat, capacity: nat, sessions: nat)
    requires T.ValidPeers(n.peers, capacity) && Carries(inputs, [], a, idle)
    ensures Received(n, inputs, a, capacity, sessions) == []
    decreases |inputs|
  {
    if inputs != [] {
      if inputs[0].Heard? {
        SourcesAreKept(n, inputs[0].frame, capacity, sessions);
      }
      NothingFollows(Live(n, inputs[0], capacity, sessions).0, inputs[1..], a,
        if inputs[0].Ticked? then idle + inputs[0].ms else idle, capacity, sessions);
    }
  }

  /** A message comes from the ECU whose frame completed it. */
  lemma SourcesAreKept(n: State, f: Frame, capacity: nat, sessions: nat)
    requires T.ValidPeers(n.peers, capacity)
    ensures var e := HearFrame(n, f, capacity, sessions).1; e.Message? ==> e.source == SourceOf(f.id)
  {
    if PgnOf(f.id) == TP_DT && SourceOf(f.id) in n.peers {
      assert T.ValidTransfer(n.peers[SourceOf(f.id)], capacity);
    }
  }

  /** A broadcast of 9 to 1785 bytes, framed by its sender and heard frame by
      frame by a node with a buffer that holds it and a slot for its sender,
      while other ECUs send whatever they like, is delivered exactly once. */
  lemma BroadcastArrives(
      n: State, inputs: seq<Input>, pgn: Pgn, a: Address, data: seq<Byte>, capacity: nat, sessions: nat)
    requires T.ValidPeers(n.peers, capacity)
    requires T.MIN_MESSAGE_SIZE <= |data| <= T.MAX_MESSAGE_SIZE && |data| <= capacity
    requires T.HasRoom(n.peers, a, sessions)
    requires inputs != [] && inputs[0].Heard? && SourceOf(inputs[0].frame.id) == a
    requires Carries(inputs, O.BroadcastFrames(pgn, a, data), a, 0)
    ensures Received(n, inputs, a, capacity, sessions) == [Message(pgn, a, data, None)]
  {
    var bam := T.Bam(|data|, T.PacketCount(|data|), pgn);
    AnnouncementFields(a, bam);
    var (n', e) := Live(n, inputs[0], capacity, sessions);
    assert e == Nothing && Holding(n', pgn, a, data, 1, 0);
    assert O.BroadcastFrames(pgn, a, data)[1..] == O.PacketFrames(a, data, 1, T.PacketCount(|data|));
    PacketsArrive(n', inputs[1..], pgn, a, data, 1, 0, capacity, sessions);
  }

  // ------------------------------------------- when the network is hostile

  /** Every transport frame from `a` is one of this broadcast's; any of them may
      be lost, repeated or out of order. */
  ghost predicate FromBroadcast(f: Frame, pgn: Pgn, a: Address, data: seq<Byte>)
    requires T.MIN_MESSAGE_SIZE <= |data| <= T.MAX_MESSAGE_SIZE
  {
    SourceOf(f.id) == a && (PgnOf(f.id) == TP_CM || PgnOf(f.id) == TP_DT) ==> f in O.BroadcastFrames(pgn, a, data)
  }

  lemma {:induction false} PacketFramesAre(a: Address, data: seq<Byte>, q: nat, packets: Byte, f: Frame)
    requires 1 <= q <= packets + 1 && (packets - 1) * 7 <= |data|
    requires f in O.PacketFrames(a, data, q, packets)
    ensures PgnOf(f.id) == TP_DT
    ensures var dt := DecodeDt(f.payload); q <= dt.sequence <= packets && dt == T.Packet(data, dt.sequence)
    decreases packets + 1 - q
  {
    PacketFrameFields(a, T.Packet(data, q));
    if f != O.TpFrame(TP_DT, GLOBAL_ADDRESS, a, EncodeDt(T.Packet(data, q))).value {
      PacketFramesAre(a, data, q + 1, packets, f);
    }
  }

  lemma BroadcastFramesAreGenuine(f: Frame, pgn: Pgn, a: Address, data: seq<Byte>)
    requires T.MIN_MESSAGE_SIZE <= |data| <= T.MAX_MESSAGE_SIZE && FromBroadcast(f, pgn, a, data)
    ensures var s, source := T.Build(pgn, data, true).value, SourceOf(f.id);
      && (PgnOf(f.id) == TP_CM && DecodeCm(f.payload).Ok? ==> S.Genuine(S.Cm(source, DecodeCm(f.payload).value), a, s))
      && (PgnOf(f.id) == TP_DT ==> S.Genuine(S.Dt(source, DecodeDt(f.payload)), a, s))
  {
    var packets := T.PacketCount(|data|);
    var bam := T.Bam(|data|, packets, pgn);
    AnnouncementFields(a, bam);
    if SourceOf(f.id) == a && f in O.PacketFrames(a, data, 1, packets) {
      PacketFramesAre(a, data, 1, packets, f);
    }
  }

  lemma HostileStep(n: State, i: Input, pgn: Pgn, a: Address, data: seq<Byte>, capacity: nat, sessions: nat)
    requires T.ValidPeers(n.peers, capacity) && T.MIN_MESSAGE_SIZE <= |data| <= T.MAX_MESSAGE_SIZE
    requires i.Heard? ==> FromBroadcast(i.frame, pgn, a, data)
    requires S.Faithful(n.peers, a, T.Build(pgn, data, true).value)
    ensures var (n', e) := Live(n, i, capacity, sessions);
      && S.Faithful(n'.peers, a, T.Build(pgn, data, true).value)
      && (e.Message? && e.source == a && |e.data| > 8 ==> e.pgn == pgn && e.data == data)
  {
    var s := T.Build(pgn, data, true).value;
    match i
    case Ticked(ms) => S.GenuineStep(n.peers, S.Ticked(ms, T.T1_TIMEOUT_MS), a, s, capacity, sessions);
    case Heard(f) =>
      BroadcastFramesAreGenuine(f, pgn, a, data);
      if PgnOf(f.id) == TP_CM && DecodeCm(f.payload).Ok? {
        S.GenuineStep(n.peers, S.Cm(SourceOf(f.id), DecodeCm(f.payload).value), a, s, capacity, sessions);
      } else if PgnOf(f.id) == TP_DT {
        S.GenuineStep(n.peers, S.Dt(SourceOf(f.id), DecodeDt(f.payload)), a, s, capacity, sessions);
      }
  }

  /** Whatever is lost, repeated, reordered or timed out, and whatever other ECUs
      send: any message longer than a frame that a node hands over from `a` is
      the one `a` is broadcasting, byte for byte. */
  lemma {:induction false} NothingButTheBroadcast(
      n: State, inputs: seq<Input>, pgn: Pgn, a: Address, data: seq<Byte>, capacity: nat, sessions: nat)
    requires T.ValidPeers(n.peers, capacity) && T.MIN_MESSAGE_SIZE <= |data| <= T.MAX_MESSAGE_SIZE
    requires S.Faithful(n.peers, a, T.Build(pgn, data, true).value)
    requires forall i :: i in inputs && i.Heard? ==> FromBroadcast(i.frame, pgn, a, data)
    ensures forall e :: e in Received(n, inputs, a, capacity, sessions) && e.Message? && |e.data| > 8 ==>
      e.pgn == pgn && e.source == a && e.data == data
    decreases |inputs|
  {
    if inputs != [] {
      assert inputs[0] in inputs;
      HostileStep(n, inputs[0], pgn, a, data, capacity, sessions);
      NothingButTheBroadcast(Live(n, inputs[0], capacity, sessions).0, inputs[1..], pgn, a, data, capacity, sessions);
    }
  }

  // -------------------------------------------------------------- the DM1

  lemma Dm1Length(log: L.Log)
    ensures |L.Dm1(log)| == if |log.active| <= 1 then 8 else 2 + 4 * |log.active|
  {
  }

  /** A DM1 can be broadcast exactly when it reports at most 445 faults. */
  lemma WhichLogsCanBeBroadcast(log: L.Log, a: Address)
    ensures O.NewOut(DM1, a, GLOBAL_ADDRESS, L.Dm1(log)).Ok? <==> |log.active| <= 445
  {
    Dm1Length(log);
    O.WhatCanBeSent(DM1, a, GLOBAL_ADDRESS, L.Dm1(log));
  }

  /** All the frames of a log's DM1. */
  function Dm1Frames(log: L.Log, a: Address): seq<Frame>
    requires |log.active| <= 445
  {
    WhichLogsCanBeBroadcast(log, a);
    var o := O.NewOut(DM1, a, GLOBAL_ADDRESS, L.Dm1(log)).value;
    O.Pulled(o, O.FrameCount(o))
  }

  /** A node can take a DM1 in: it fits a frame, or the node's buffer and a slot. */
  predicate CanTake(n: State, log: L.Log, a: Address, capacity: nat, sessions: nat) {
    |log.active| <= 1 || (|L.Dm1(log)| <= capacity && T.HasRoom(n.peers, a, sessions))
  }

  lemma SingleFrameArrives(n: State, inputs: seq<Input>, log: L.Log, a: Address, capacity: nat, sessions: nat)
    requires T.ValidPeers(n.peers, capacity) && |log.active| <= 1
    requires inputs != [] && inputs[0].Heard? && SourceOf(inputs[0].frame.id) == a
    requires Carries(inputs, Dm1Frames(log, a), a, 0)
    ensures Received(n, inputs, a, capacity, sessions) == [Message(DM1, a, L.Dm1(log), None)]
  {
    WhichLogsCanBeBroadcast(log, a);
    O.ShortMessageIsOneFrame(DM1, a, GLOBAL_ADDRESS, L.Dm1(log), 1);
    IdRoundTrip(DEFAULT_PRIORITY, DM1, GLOBAL_ADDRESS, a);
    var f := inputs[0].frame;
    assert f == Dm1Frames(log, a)[0];
    assert HearFrame(n, f, capacity, sessions) == (n, Message(DM1, a, Data(f), None));
    NothingFollows(n, inputs[1..], a, 0, capacity, sessions);
  }

  lemma Dm1Arrives(n: State, inputs: seq<Input>, log: L.Log, a: Address, capacity: nat, sessions: nat)
    requires T.ValidPeers(n.peers, capacity) && |log.active| <= 445 && CanTake(n, log, a, capacity, sessions)
    requires inputs != [] && inputs[0].Heard? && SourceOf(inputs[0].frame.id) == a
    requires Carries(inputs, Dm1Frames(log, a), a, 0)
    ensures Received(n, inputs, a, capacity, sessions) == [Message(DM1, a, L.Dm1(log), None)]
  {
    Dm1Length(log);
    if |log.active| <= 1 {
      SingleFrameArrives(n, inputs, log, a, capacity, sessions);
    } else {
      O.BroadcastIsItsFrames(DM1, a, L.Dm1(log), 1 + T.PacketCount(|L.Dm1(log)|));
      BroadcastArrives(n, inputs, DM1, a, L.Dm1(log), capacity, sessions);
    }
  }

  /** The two keys that are read as "no fault": the log accepts them like any
      other. */
  predicate IsPlaceholder(f: L.Fault) {
    f == L.Fault(0, 0) || f == L.Fault(D.MAX_SPN, D.MAX_FMI)
  }

  /** What a received payload says of a log: its lamps, its active codes in
      order, and "no fault" exactly when nothing is active, placeholders apart. */
  ghost predicate ReadsAs(data: seq<Byte>, log: L.Log) {
    var m := D.Parse(data);
    && m.Ok?
    && m.value.lamps == L.LampsOf(log.lamps)
    && (forall lamp :: D.Status(m.value.lamps, lamp) == if lamp in log.lamps then D.On else D.Off)
    && D.Dtcs(m.value) == (if log.active == [] then [D.Dtc(0, 0, 0, false)] else log.active)
    && (D.IsFaultFree(m.value) <==>
          log.active == [] || (|log.active| == 1 && IsPlaceholder(L.FaultOf(log.active[0]))))
  }

  lemma Dm1Reads(log: L.Log, capacity: nat)
    requires L.Inv(log, capacity)
    ensures ReadsAs(L.Dm1(log), log)
  {
    var dtcs := L.Reported(log.active);
    assert D.AllInRange(dtcs);
    D.PayloadRoundTrip(L.LampsOf(log.lamps), dtcs);
    D.PrintedFaultFree(L.LampsOf(log.lamps), dtcs);
  }

  /** And what a DM2 says: the history in order, with every lamp off. */
  lemma Dm2Reads(log: L.Log, capacity: nat)
    requires L.Inv(log, capacity)
    ensures var m := D.Parse(L.Dm2(log));
      && m.Ok?
      && (forall lamp :: D.Status(m.value.lamps, lamp) == D.Off && D.FlashStatus(m.value.lamps, lamp) == D.Off)
      && D.Dtcs(m.value) == (if log.previous == [] then [D.Dtc(0, 0, 0, false)] else log.previous)
      && (D.IsFaultFree(m.value) <==>
            log.previous == [] || (|log.previous| == 1 && IsPlaceholder(L.FaultOf(log.previous[0]))))
  {
    var dtcs := L.Reported(log.previous);
    assert D.AllInRange(dtcs);
    D.PayloadRoundTrip(D.ALL_OFF, dtcs);
    D.PrintedFaultFree(D.ALL_OFF, dtcs);
  }

  /** For example: a fresh log in which just that fault is raised, and accepted. */
  lemma ActiveFaultReadsAsNone(f: L.Fault, lamp: D.Lamp, capacity: nat)
    requires f == L.Fault(0, 0) && capacity > 0
    ensures var (log, r) := L.SetFault(L.FRESH, f, lamp, capacity);
      && r == Ok(()) && L.IsActive(log, f) && |log.active| == 1
      && D.IsFaultFree(D.Parse(L.Dm1(log)).value)
  {
    var (log, _) := L.SetFault(L.FRESH, f, lamp, capacity);
    L.RaiseKeepsInv(L.FRESH, f, lamp, capacity);
    Dm1Reads(log, capacity);
  }

  /** End to end: for every log with up to 445 active faults, what the other
      node's application receives is one DM1, and reading it gives back the
      lamps and the active faults, in order. */
  lemma FaultReportArrives(
      n: State, inputs: seq<Input>, log: L.Log, a: Address, faults: nat, capacity: nat, sessions: nat)
    requires L.Inv(log, faults) && |log.active| <= 445
    requires T.ValidPeers(n.peers, capacity) && CanTake(n, log, a, capacity, sessions)
    requires inputs != [] && inputs[0].Heard? && SourceOf(inputs[0].frame.id) == a
    requires Carries(inputs, Dm1Frames(log, a), a, 0)
    ensures exists data ::
      Received(n, inputs, a, capacity, sessions) == [Message(DM1, a, data, None)] && ReadsAs(data, log)
  {
    Dm1Arrives(n, inputs, log, a, capacity, sessions);
    Dm1Reads(log, faults);
  }

  // ------------------------------------------- the plainest way to deliver

  function Heards(frames: seq<Frame>): seq<Input> {
    if frames == [] then [] else [Heard(frames[0])] + Heards(frames[1..])
  }

  lemma {:induction false} FramesCarryThemselves(frames: seq<Frame>, a: Address)
    requires forall f :: f in frames ==> SourceOf(f.id) == a
    ensures Carries(Heards(frames), frames, a, 0)
  {
    if frames != [] {
      assert frames[0] in frames;
      assert Heards(frames)[1..] == Heards(frames[1..]);
      FramesCarryThemselves(frames[1..], a);
    }
  }

  lemma {:induction false} PacketFramesAreFrom(a: Address, data: seq<Byte>, q: nat, packets: Byte)
    requires 1 <= q <= packets + 1 && (packets - 1) * 7 <= |data|
    ensures forall f :: f in O.PacketFrames(a, data, q, packets) ==> SourceOf(f.id) == a
    decreases packets + 1 - q
  {
    if q <= packets {
      PacketFrameFields(a, T.Packet(data, q));
      PacketFramesAreFrom(a, data, q + 1, packets);
    }
  }

  lemma Dm1FramesAreFrom(log: L.Log, a: Address)
    requires |log.active| <= 445
    ensures Dm1Frames(log, a) != [] && forall f :: f in Dm1Frames(log, a) ==> SourceOf(f.id) == a
  {
    WhichLogsCanBeBroadcast(log, a);
    Dm1Length(log);
    var dm1 := L.Dm1(log);
    if |log.active| <= 1 {
      O.ShortMessageIsOneFrame(DM1, a, GLOBAL_ADDRESS, dm1, 1);
      IdRoundTrip(DEFAULT_PRIORITY, DM1, GLOBAL_ADDRESS, a);
    } else {
      var packets := T.PacketCount(|dm1|);
      O.BroadcastIsItsFrames(DM1, a, dm1, 1 + packets as int);
      AnnouncementFields(a, T.Bam(|dm1|, packets, DM1));
      PacketFramesAreFrom(a, dm1, 1, packets);
    }
  }

  /** A report heard frame by frame, with nothing in between, by a fresh node
      with buffer enough: the premises of FaultReportArrives can all be met. */
  lemma FreshNodeReadsTheReport(log: L.Log, a: Address, faults: nat, ecu: AC.Ecu)
    requires L.Inv(log, faults) && |log.active| <= 445
    ensures var got := Received(State(ecu, map[], 0), Heards(Dm1Frames(log, a)), a, 1785, 1);
      exists data :: got == [Message(DM1, a, data, None)] && ReadsAs(data, log)
  {
    Dm1FramesAreFrom(log, a);
    FramesCarryThemselves(Dm1Frames(log, a), a);
    Dm1Length(log);
    assert Heards(Dm1Frames(log, a))[0] == Heard(Dm1Frames(log, a)[0]);
    FaultReportArrives(State(ecu, map[], 0), Heards(Dm1Frames(log, a)), log, a, faults, 1785, 1);
  }
}
