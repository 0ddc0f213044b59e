/** The same ETP sender and receiver over channels that lose nothing: the
    transfer finishes, block by block, in exactly as many steps as it must. */
module EtpDelivery {
  import opened Types
  import opened Arith
  import opened EtpSpec
  import opened EtpSafety

  /** A lossless run also keeps the offsets announced so far. */
  datatype Run = Run(sys: System, offsets: seq<U24>)

  /** Moves a lossless run may make: the transfer's own, and anything elsewhere
      that leaves this session and, until it begins, a slot for it alone. */
  predicate Allowed(sys: System, move: Move, link: Link)
    requires ValidSender(sys.tx) && ValidPeers(sys.peers, link.capacity)
  {
    && Enabled(sys, move, link)
    && !move.LoseForward? && !move.LoseBack?
    && (move.Elsewhere? ==>
          && !move.e.Reset?
          && (IsFrom(move.e, link.source) ==> move.e.Cm? && IsAside(move.e.cm, sys.tx.pgn))
          && (move.e.Ticked? && link.source in sys.peers ==>
                !Expires(sys.peers[link.source], move.e.elapsed, move.e.timeout))
          && (link.source !in sys.peers && sys.forward != [] ==>
                |Step(sys.peers, move.e, link.capacity, link.sessions).0| < link.sessions))
  }

  predicate IsProtocol(move: Move) {
    !move.Elsewhere?
  }

  function Next(run: Run, move: Move, link: Link): (r: Run)
    requires ValidSender(run.sys.tx) && ValidPeers(run.sys.peers, link.capacity)
    requires Allowed(run.sys, move, link)
    ensures ValidSender(r.sys.tx) && ValidPeers(r.sys.peers, link.capacity)
  {
    Run(Apply(run.sys, move, link),
        if move.SendOffset? then run.offsets + [NextOffset(run.sys.tx).1.value.offset] else run.offsets)
  }

  // ------------------------------------------------------------- invariant

  /** Places lo up to, not including, hi of the sender's block, in order. */
  ghost predicate Stretch(tx: Sender, forward: seq<Frame>, lo: nat)
    requires ValidSender(tx)
  {
    && |forward| == Cursor(tx) - lo
    && forall i :: 0 <= i < |forward| ==> Place(tx, forward[i]) == lo + i
  }

  /** The next place in the block that the receiver expects. */
  function Expected(s: Session): nat {
    if s.offset.Some? then s.nextSequence else 0
  }

  datatype Phase = Offered | Granting | Flowing | Acknowledging | Done

  function PhaseOf(sys: System, link: Link): Phase {
    if link.source in sys.peers then if sys.back != [] then Granting else Flowing
    else if sys.delivered == [] then Offered
    else if sys.back != [] then Acknowledging
    else Done
  }

  /** Blocks begun by the receiver, counted from its block start. */
  function Blocks(start: nat): nat
    requires start >= 1
  {
    (start - 1) / 255 + 1
  }

  ghost predicate OffsetsAre(offsets: seq<U24>, n: nat) {
    && |offsets| == n
    && forall k :: 0 <= k < n ==> offsets[k] == 255 * k
  }

  ghost predicate Inv(run: Run, link: Link) {
    var sys := run.sys;
    && ValidSender(sys.tx) && ValidPeers(sys.peers, link.capacity)
    && |sys.tx.data| <= link.capacity
    && (!sys.tx.offsetSent ==> sys.tx.nextSequence == 1)
    && match PhaseOf(sys, link)
       case Offered =>
         && CanBegin(sys.tx, sys.peers, link) && |sys.peers| < link.sessions
         && sys == Initial(sys.tx, sys.peers) && run.offsets == []
       case Granting =>
         var t := sys.peers[link.source];
         && !sys.tx.complete && sys.delivered == []
         && FaithfulTo(t, sys.tx)
         && Ahead(sys, t.session)
         && OffsetsAre(run.offsets, Blocks(t.session.blockStart) - 1)
       case Flowing =>
         var t := sys.peers[link.source];
         && !sys.tx.complete && sys.delivered == []
         && FaithfulTo(t, sys.tx)
         && sys.tx.blockStart == t.session.blockStart && sys.tx.blockPackets == t.session.blockPackets
         && Stretch(sys.tx, sys.forward, Expected(t.session))
         && OffsetsAre(run.offsets, Blocks(t.session.blockStart) - (if sys.tx.offsetSent then 0 else 1))
       case Acknowledging =>
         && !sys.tx.complete && Finished(run, link)
         && sys.back == [Eoma(|sys.tx.data|, sys.tx.pgn)]
       case Done =>
         && sys.tx.complete && Finished(run, link)
  }

  ghost predicate Finished(run: Run, link: Link)
    requires ValidSender(run.sys.tx)
  {
    && run.sys.delivered == [Whole(run.sys.tx, link.source)]
    && run.sys.forward == []
    && run.sys.tx.offsetSent && run.sys.tx.nextSequence == run.sys.tx.blockPackets + 1
    && run.sys.tx.blockPackets >= 1
    && OffsetsAre(run.offsets, CeilDiv(run.sys.tx.packets, 255))
  }

  /** Moves still to come: per block one grant taken, its offset and packets
      sent, and each of them received; and the announcement and the end. */
  function Measure(sys: System, link: Link): int
    requires ValidSender(sys.tx) && ValidPeers(sys.peers, link.capacity)
  {
    var p := sys.tx.packets;
    var w := CeilDiv(p, 255);
    match PhaseOf(sys, link)
    case Offered => 2 * p + 3 * w + 2
    case Granting =>
      var s := sys.peers[link.source].session;
      2 * (p - s.blockStart + 1) + 3 * (w - Blocks(s.blockStart) + 1) + 1
    case Flowing =>
      var s := sys.peers[link.source].session;
      2 * (p - s.blockStart + 1) + 3 * (w - Blocks(s.blockStart) + 1) - Cursor(sys.tx) - Expected(s)
    case Acknowledging => 1
    case Done => 0
  }

  lemma SendKeepsInv(run: Run, move: Move, link: Link)
    requires Inv(run, link) && Allowed(run.sys, move, link)
    requires move.SendOffset? || move.SendPacket?
    ensures Inv(Next(run, move, link), link)
    ensures Measure(Next(run, move, link).sys, link) == Measure(run.sys, link) - 1
  {
    assert PhaseOf(run.sys, link).Flowing?;
    if move.SendOffset? {
      OffsetSentKeepsInv(run, link);
    } else {
      PacketSentKeepsInv(run, link);
    }
  }

  lemma StretchGrows(tx: Sender, tx': Sender, forward: seq<Frame>, f: Frame, lo: nat)
    requires ValidSender(tx) && ValidSender(tx') && Stretch(tx, forward, lo)
    requires Place(tx', f) == Cursor(tx) == Cursor(tx') - 1
    requires tx'.blockPackets == tx.blockPackets && tx'.blockStart == tx.blockStart
    requires tx'.pgn == tx.pgn && tx'.data == tx.data
    ensures Stretch(tx', forward + [f], lo)
  {
    assert forall g :: Place(tx', g) == Place(tx, g);
  }

  lemma OffsetSentKeepsInv(run: Run, link: Link)
    requires Inv(run, link) && Allowed(run.sys, SendOffset, link) && PhaseOf(run.sys, link).Flowing?
    ensures Inv(Next(run, SendOffset, link), link)
    ensures Measure(Next(run, SendOffset, link).sys, link) == Measure(run.sys, link) - 1
  {
    var sys := run.sys;
    var (tx, cm) := NextOffset(sys.tx);
    StretchGrows(sys.tx, tx, sys.forward, Announce(cm.value), Expected(sys.peers[link.source].session));
  }

  lemma PacketSentKeepsInv(run: Run, link: Link)
    requires Inv(run, link) && Allowed(run.sys, SendPacket, link) && PhaseOf(run.sys, link).Flowing?
    ensures Inv(Next(run, SendPacket, link), link)
    ensures Measure(Next(run, SendPacket, link).sys, link) == Measure(run.sys, link) - 1
  {
    var sys := run.sys;
    var (tx, dt) := NextPacket(sys.tx);
    StretchGrows(sys.tx, tx, sys.forward, Data(dt.value), Expected(sys.peers[link.source].session));
  }

  lemma GrantTakenKeepsInv(run: Run, link: Link)
    requires Inv(run, link) && Allowed(run.sys, SenderTakes, link)
    ensures Inv(Next(run, SenderTakes, link), link)
    ensures Measure(Next(run, SenderTakes, link).sys, link) == Measure(run.sys, link) - 1
  {
  }

  lemma OfferTakenKeepsInv(run: Run, link: Link)
    requires Inv(run, link) && PhaseOf(run.sys, link).Offered?
    ensures Allowed(run.sys, ReceiverTakes, link)
    ensures Inv(Next(run, ReceiverTakes, link), link)
    ensures Measure(Next(run, ReceiverTakes, link).sys, link) == Measure(run.sys, link) - 1
  {
    var s := Begin(link.source, run.sys.tx.pgn, |run.sys.tx.data|);
    var cts := Cts(s.blockPackets, 1, run.sys.tx.pgn);
    assert Next(run, ReceiverTakes, link).sys ==
      run.sys.(forward := [], back := [cts], peers := run.sys.peers[link.source := Transfer(s, [])]);
  }

  /** The frame at the head is the one the receiver expects. */
  ghost predicate TakesHead(run: Run, link: Link, t: Transfer) {
    && Inv(run, link) && PhaseOf(run.sys, link).Flowing? && run.sys.forward != []
    && t == run.sys.peers[link.source]
    && Place(run.sys.tx, run.sys.forward[0]) == Expected(t.session)
  }

  lemma OffsetTakenKeepsInv(run: Run, link: Link, t: Transfer)
    requires TakesHead(run, link, t) && Expected(t.session) == 0
    ensures Inv(Next(run, ReceiverTakes, link), link)
    ensures Measure(Next(run, ReceiverTakes, link).sys, link) == Measure(run.sys, link) - 1
  {
    var sys := run.sys;
    assert t.filled[..(t.session.blockStart - 1) * 7] == t.filled;
    var s := t.session.(offset := Some(t.session.blockStart - 1), idleMs := 0);
    assert Next(run, ReceiverTakes, link).sys ==
      sys.(forward := sys.forward[1..], peers := sys.peers[link.source := Transfer(s, t.filled)]);
    assert forall i :: 0 <= i < |sys.forward| - 1 ==> sys.forward[1..][i] == sys.forward[i + 1];
  }

  lemma LastTakenKeepsInv(run: Run, link: Link, t: Transfer, q: Byte)
    requires TakesHead(run, link, t) && 1 <= q == Expected(t.session)
    requires run.sys.tx.blockStart - 1 + q == run.sys.tx.packets
    ensures Inv(Next(run, ReceiverTakes, link), link)
    ensures Measure(Next(run, ReceiverTakes, link).sys, link) == Measure(run.sys, link) - 1
  {
    var sys := run.sys;
    PacketIsPlaced(t, sys.tx, q, link.capacity);
    var whole := Whole(sys.tx, link.source);
    assert Next(run, ReceiverTakes, link).sys ==
      sys.(forward := [], peers := sys.peers - {link.source}, delivered := [whole], back := [whole.ack]);
    assert CeilDiv(sys.tx.packets, 255) == Blocks(t.session.blockStart);
  }

  lemma HeadIsThePacket(run: Run, link: Link, t: Transfer, q: Byte)
    requires TakesHead(run, link, t) && 1 <= q == Expected(t.session)
    ensures AtHead(run.sys, link, t, q)
  {
  }

  lemma OneBlockOn(start: nat, next: nat)
    requires start >= 1 && next == start + 255
    ensures Blocks(next) == Blocks(start) + 1
  {
    var k := (start - 1) / 255;
    assert start - 1 == k * 255 + (start - 1) % 255;
    DivIs(next - 1, 255, k + 1);
  }

  /** The system once a block is full and the next one granted. */
  function NextBlockGranted(sys: System, u: Transfer, link: Link): System {
    sys.(forward := [], peers := sys.peers[link.source := u],
         back := [Cts(u.session.blockPackets, u.session.blockStart, sys.tx.pgn)])
  }

  lemma NextBlockKeepsInv(run: Run, link: Link, t: Transfer, u: Transfer, next: nat)
    requires Inv(run, link) && PhaseOf(run.sys, link).Flowing? && t == run.sys.peers[link.source]
    requires run.sys.tx.offsetSent && run.sys.tx.nextSequence == 256 && Expected(t.session) == 255
    requires ValidTransfer(u, link.capacity) && u.session.source == link.source && FaithfulTo(u, run.sys.tx)
    requires u.session.offset == None && u.session.blockStart == next == t.session.blockStart + 255
    ensures Inv(Run(NextBlockGranted(run.sys, u, link), run.offsets), link)
    ensures Measure(NextBlockGranted(run.sys, u, link), link) == Measure(run.sys, link) - 1
  {
    OneBlockOn(t.session.blockStart, next);
  }

  lemma LastOfBlockTakenKeepsInv(run: Run, link: Link, t: Transfer, q: Byte)
    requires TakesHead(run, link, t) && 1 <= q == Expected(t.session)
    requires run.sys.tx.blockStart - 1 + q < run.sys.tx.packets && q == t.session.blockPackets
    ensures Inv(Next(run, ReceiverTakes, link), link)
    ensures Measure(Next(run, ReceiverTakes, link).sys, link) == Measure(run.sys, link) - 1
  {
    HeadIsThePacket(run, link, t, q);
    PacketTaken(run.sys, link, t, q);
    GrownIsFaithful(run.sys, link, t, q);
    var u := Grown(run.sys, t, q, link.capacity);
    assert |run.sys.forward| == 1 && run.sys.forward[1..] == [];
    assert Next(run, ReceiverTakes, link).sys == NextBlockGranted(run.sys, u, link);
    NextBlockKeepsInv(run, link, t, u, u.session.blockStart);
  }

  lemma InsideBlockTakenKeepsInv(run: Run, link: Link, t: Transfer, q: Byte)
    requires TakesHead(run, link, t) && 1 <= q == Expected(t.session)
    requires run.sys.tx.blockStart - 1 + q < run.sys.tx.packets && q < t.session.blockPackets
    ensures Inv(Next(run, ReceiverTakes, link), link)
    ensures Measure(Next(run, ReceiverTakes, link).sys, link) == Measure(run.sys, link) - 1
  {
    HeadIsThePacket(run, link, t, q);
    PacketTaken(run.sys, link, t, q);
    GrownIsFaithful(run.sys, link, t, q);
    assert forall i :: 0 <= i < |run.sys.forward| - 1 ==> run.sys.forward[1..][i] == run.sys.forward[i + 1];
  }

  lemma FrameTakenKeepsInv(run: Run, link: Link)
    requires Inv(run, link) && PhaseOf(run.sys, link).Flowing? && run.sys.forward != []
    ensures Inv(Next(run, ReceiverTakes, link), link)
    ensures Measure(Next(run, ReceiverTakes, link).sys, link) == Measure(run.sys, link) - 1
  {
    var t := run.sys.peers[link.source];
    var q := Expected(t.session);
    assert TakesHead(run, link, t);
    if q == 0 {
      OffsetTakenKeepsInv(run, link, t);
    } else if run.sys.tx.blockStart - 1 + q == run.sys.tx.packets {
      LastTakenKeepsInv(run, link, t, q);
    } else if q == t.session.blockPackets {
      LastOfBlockTakenKeepsInv(run, link, t, q);
    } else {
      InsideBlockTakenKeepsInv(run, link, t, q);
    }
  }

  lemma PeersChangedKeepsMeasure(sys: System, peers: Peers, link: Link)
    requires ValidSender(sys.tx) && ValidPeers(sys.peers, link.capacity) && ValidPeers(peers, link.capacity)
    requires Alike(Peer(sys.peers, link.source), Peer(peers, link.source))
    ensures PhaseOf(sys.(peers := peers), link) == PhaseOf(sys, link)
    ensures Measure(sys.(peers := peers), link) == Measure(sys, link)
  {
  }

  lemma PeersChangedKeepsInv(run: Run, peers: Peers, link: Link)
    requires Inv(run, link) && ValidPeers(peers, link.capacity)
    requires Alike(Peer(run.sys.peers, link.source), Peer(peers, link.source))
    requires link.source !in peers && run.sys.forward != [] ==> |peers| < link.sessions
    ensures Inv(run.(sys := run.sys.(peers := peers)), link)
  {
    PeersChangedKeepsMeasure(run.sys, peers, link);
  }

  lemma ElsewhereKeepsInv(run: Run, e: Event, link: Link)
    requires Inv(run, link) && Allowed(run.sys, Elsewhere(e), link)
    ensures Inv(Next(run, Elsewhere(e), link), link)
    ensures Measure(Next(run, Elsewhere(e), link).sys, link) == Measure(run.sys, link)
  {
    if IsFrom(e, link.source) {
      AsidesChangeNothing(run.sys.peers, link.source, e.cm, run.sys.tx.pgn, link.capacity, link.sessions);
    }
    ElsewhereIsAlike(run.sys.peers, e, link.source, link.capacity, link.sessions);
    var peers := Step(run.sys.peers, e, link.capacity, link.sessions).0;
    PeersChangedKeepsInv(run, peers, link);
    PeersChangedKeepsMeasure(run.sys, peers, link);
  }

  lemma MoveKeepsInv(run: Run, move: Move, link: Link)
    requires Inv(run, link) && Allowed(run.sys, move, link)
    ensures Inv(Next(run, move, link), link)
    ensures Measure(Next(run, move, link).sys, link) == Measure(run.sys, link) - (if IsProtocol(move) then 1 else 0)
  {
    match move
    case SendOffset => SendKeepsInv(run, move, link);
    case SendPacket => SendKeepsInv(run, move, link);
    case SenderTakes => GrantTakenKeepsInv(run, link);
    case Elsewhere(e) => ElsewhereKeepsInv(run, e, link);
    case ReceiverTakes =>
      if PhaseOf(run.sys, link).Offered? {
        OfferTakenKeepsInv(run, link);
      } else {
        FrameTakenKeepsInv(run, link);
      }
  }

  // -------------------------------------------------------------- theorems

  ghost predicate IsLossless(run: Run, moves: seq<Move>, link: Link)
    requires ValidSender(run.sys.tx) && ValidPeers(run.sys.peers, link.capacity)
    decreases |moves|
  {
    moves == [] || (Allowed(run.sys, moves[0], link) && IsLossless(Next(run, moves[0], link), moves[1..], link))
  }

  function Outcome(run: Run, moves: seq<Move>, link: Link): (r: Run)
    requires ValidSender(run.sys.tx) && ValidPeers(run.sys.peers, link.capacity)
    requires IsLossless(run, moves, link)
    ensures ValidSender(r.sys.tx) && ValidPeers(r.sys.peers, link.capacity)
    decreases |moves|
  {
    if moves == [] then run else Outcome(Next(run, moves[0], link), moves[1..], link)
  }

  function ProtocolMoves(moves: seq<Move>): nat
    decreases |moves|
  {
    if moves == [] then 0 else (if IsProtocol(moves[0]) then 1 else 0) + ProtocolMoves(moves[1..])
  }

  ghost predicate Stuck(sys: System, link: Link)
    requires ValidSender(sys.tx) && ValidPeers(sys.peers, link.capacity)
  {
    forall move :: IsProtocol(move) ==> !Allowed(sys, move, link)
  }

  lemma {:induction false} RunKeepsInv(run: Run, moves: seq<Move>, link: Link)
    requires Inv(run, link) && IsLossless(run, moves, link)
    ensures var end := Outcome(run, moves, link);
      && Inv(end, link)
      && Measure(end.sys, link) == Measure(run.sys, link) - ProtocolMoves(moves)
      && end.sys.tx.data == run.sys.tx.data && end.sys.tx.pgn == run.sys.tx.pgn
      && end.sys.tx.packets == run.sys.tx.packets
    decreases |moves|
  {
    if moves != [] {
      MoveKeepsInv(run, moves[0], link);
      MoveKeepsPayload(run.sys, moves[0], link);
      RunKeepsInv(Next(run, moves[0], link), moves[1..], link);
    }
  }

  lemma StuckIsDone(run: Run, link: Link)
    requires Inv(run, link) && Stuck(run.sys, link)
    ensures run.sys.tx.complete && Finished(run, link) && Measure(run.sys, link) == 0
  {
    assert !Allowed(run.sys, SendOffset, link);
    assert !Allowed(run.sys, SendPacket, link);
    assert !Allowed(run.sys, ReceiverTakes, link);
    assert !Allowed(run.sys, SenderTakes, link);
    if PhaseOf(run.sys, link).Flowing? {
      ReceiverIsNeverAheadInABlock(run, link);
    }
  }

  /** While a block is open something of it is still to be sent or received. */
  lemma ReceiverIsNeverAheadInABlock(run: Run, link: Link)
    requires Inv(run, link) && PhaseOf(run.sys, link).Flowing?
    ensures run.sys.forward != [] || NextOffset(run.sys.tx).1.Some?
      || (run.sys.tx.offsetSent && NextPacket(run.sys.tx).1.Some?)
  {
  }

  lemma MeasureIsNatural(run: Run, link: Link)
    requires Inv(run, link)
    ensures Measure(run.sys, link) >= 0
  {
  }

  /** An abort of its own group, at whatever point, leaves no session. */
  ghost predicate AbortsClean(sys: System, link: Link)
    requires ValidPeers(sys.peers, link.capacity)
  {
    forall reason :: link.source !in
      TakeCm(sys.peers, link.source, Abort(reason, sys.tx.pgn), link.capacity, link.sessions).0
  }

  lemma EveryStateAbortsClean(run: Run, link: Link)
    requires Inv(run, link)
    ensures AbortsClean(run.sys, link)
  {
  }

  /** End-to-end delivery: for every payload of 1786 to 117,440,505 bytes and
      every interleaving, no lossless run takes more than 2P + 3B + 2 protocol
      moves, where P is the number of packets and B = ceil(P/255); when none is
      left to take, exactly that many were taken, the payload has been delivered
      once, the sender is complete, and exactly B blocks were announced, block k
      with offset 255k. */
  lemma EveryRunDelivers(tx: Sender, peers: Peers, link: Link, moves: seq<Move>)
    requires CanBegin(tx, peers, link) && |peers| < link.sessions && |tx.data| <= link.capacity
    requires IsLossless(Run(Initial(tx, peers), []), moves, link)
    ensures var end := Outcome(Run(Initial(tx, peers), []), moves, link);
      var blocks := CeilDiv(tx.packets, 255);
      && ProtocolMoves(moves) <= 2 * tx.packets + 3 * blocks + 2
      && (forall k :: 0 <= k < |end.offsets| ==> end.offsets[k] == 255 * k)
      && (end.sys.tx.complete ==> Finished(end, link))
      && end.sys.tx.pgn == tx.pgn && AbortsClean(end.sys, link)
      && (Stuck(end.sys, link) ==>
            && ProtocolMoves(moves) == 2 * tx.packets + 3 * blocks + 2
            && end.sys.delivered == [Message(tx.pgn, link.source, tx.data, Eoma(|tx.data|, tx.pgn))]
            && |end.offsets| == blocks
            && end.sys.tx.complete)
  {
    var start := Run(Initial(tx, peers), []);
    RunKeepsInv(start, moves, link);
    var end := Outcome(start, moves, link);
    MeasureIsNatural(end, link);
    EveryStateAbortsClean(end, link);
    if end.sys.tx.complete {
      assert PhaseOf(end.sys, link).Done?;
    }
    if Stuck(end.sys, link) {
      StuckIsDone(end, link);
    }
  }
}
