/** What an ETP receive session comes to after any run, told from the request
    that opened it, the bytes held and the time since its last progress, and not
    from the counters and the timer kept for it. */
module EtpSessions {
  import opened Types
  import opened EtpSpec
  import opened EtpSafety
  import Tp = TpSpec
  import R = EtpReassembler

  /** Milliseconds ticked over a run. */
  function Total(events: seq<Event>): nat {
    if events == [] then 0 else Total(events[1..]) + if events[0].Ticked? then events[0].elapsed else 0
  }

  /** Ticks of one timeout, and anything at all from other sources. */
  ghost predicate LeavesAlone(events: seq<Event>, a: Address, timeout: U16) {
    forall e :: e in events ==> !e.Reset? && !IsFrom(e, a) && (e.Ticked? ==> e.timeout == timeout)
  }

  lemma EventLeavesAlone(peers: Peers, e: Event, a: Address, capacity: nat, sessions: nat)
    requires ValidPeers(peers, capacity) && !e.Reset? && !IsFrom(e, a)
    ensures Peer(Step(peers, e, capacity, sessions).0, a) ==
      if e.Ticked? && a in peers then
        if Expires(peers[a], e.elapsed, e.timeout) then None else Some(Aged(peers[a], e.elapsed))
      else Peer(peers, a)
  {
    if !e.Ticked? {
      NonInterference(peers, e, e.source, a, capacity, sessions);
    }
  }

  /** A session survives a run of ticks exactly when the time since its last
      progress stays within the timeout, whoever else is being served. The
      largest timeout, 65535, is never exceeded: the idle timer saturates there. */
  lemma {:induction false} SurvivesWithinTheTimeout(
      peers: Peers, a: Address, events: seq<Event>, timeout: U16, capacity: nat, sessions: nat)
    requires ValidPeers(peers, capacity) && LeavesAlone(events, a, timeout)
    requires a in peers && peers[a].session.idleMs <= timeout
    ensures var end := After(peers, events, capacity, sessions);
      && (a in end <==> timeout == U16_MAX || peers[a].session.idleMs + Total(events) <= timeout)
      && (a in end ==> end[a].filled == peers[a].filled)
    decreases |events|
  {
    if events != [] {
      assert events[0] in events;
      EventLeavesAlone(peers, events[0], a, capacity, sessions);
      var next := Step(peers, events[0], capacity, sessions).0;
      if a in next {
        SurvivesWithinTheTimeout(next, a, events[1..], timeout, capacity, sessions);
      } else {
        GoneStaysGone(next, a, events[1..], timeout, capacity, sessions);
      }
    }
  }

  lemma {:induction false} GoneStaysGone(
      peers: Peers, a: Address, events: seq<Event>, timeout: U16, capacity: nat, sessions: nat)
    requires ValidPeers(peers, capacity) && LeavesAlone(events, a, timeout) && a !in peers
    ensures a !in After(peers, events, capacity, sessions)
    decreases |events|
  {
    if events != [] {
      assert events[0] in events;
      EventLeavesAlone(peers, events[0], a, capacity, sessions);
      GoneStaysGone(Step(peers, events[0], capacity, sessions).0, a, events[1..], timeout, capacity, sessions);
    }
  }

  // ------------------------------------------------ since the last progress

  /** The event is a request of `a` that opens a session. */
  predicate Opens(e: Event, a: Address, after: Option<Transfer>, rx: Rx) {
    e.Cm? && e.source == a && after.Some? && e.cm.Rts? && rx.Send? && rx.cm.Cts?
  }

  /** The event is an offset of `a` that was taken, or a data packet after which
      one more packet is held. */
  predicate Extends(e: Event, a: Address, before: Option<Transfer>, after: Option<Transfer>) {
    && (e.Cm? || e.Dt?) && e.source == a && before.Some? && after.Some?
    && if e.Cm? then e.cm.Dpo? else |after.value.filled| == |before.value.filled| + 7
  }

  /** Milliseconds ticked since the last frame accepted from `a`, where `ms` have
      been ticked before these events. */
  function Quiet(peers: Peers, events: seq<Event>, a: Address, ms: nat, capacity: nat, sessions: nat): nat
    requires ValidPeers(peers, capacity)
    decreases |events|
  {
    if events == [] then ms
    else
      var e := events[0];
      var (peers', rx) := Step(peers, e, capacity, sessions);
      var accepted := Opens(e, a, Peer(peers', a), rx) || Extends(e, a, Peer(peers, a), Peer(peers', a));
      Quiet(peers', events[1..], a,
            if accepted then 0 else if e.Ticked? then ms + e.elapsed else ms, capacity, sessions)
  }

  /** The request of `a` that last opened a session. */
  function LastOffer(
      peers: Peers, events: seq<Event>, a: Address, offer: Option<EtpCm>, capacity: nat, sessions: nat): Option<EtpCm>
    requires ValidPeers(peers, capacity)
    decreases |events|
  {
    if events == [] then offer
    else
      var e := events[0];
      var (peers', rx) := Step(peers, e, capacity, sessions);
      var offer' := if Opens(e, a, Peer(peers', a), rx) then Some(e.cm) else offer;
      LastOffer(peers', events[1..], a, offer', capacity, sessions)
  }

  /** A session is of the offer that opened it, and its timer shows the time
      since it was last heard, up to saturation. */
  ghost predicate IsOf(t: Transfer, offer: Option<EtpCm>, ms: nat) {
    && t.session.idleMs == Min(ms, U16_MAX)
    && offer.Some? && offer.value.Rts?
    && t.session.pgn == offer.value.pgn && t.session.size == offer.value.size
  }

  lemma OwnEventKeepsIt(peers: Peers, e: Event, a: Address, offer: Option<EtpCm>, ms: nat, capacity: nat, sessions: nat)
    requires ValidPeers(peers, capacity) && IsFrom(e, a)
    requires a in peers ==> IsOf(peers[a], offer, ms)
    ensures var (peers', rx) := Step(peers, e, capacity, sessions);
      var opens, grows := Opens(e, a, Peer(peers', a), rx), Extends(e, a, Peer(peers, a), Peer(peers', a));
      a in peers' ==> IsOf(peers'[a], if opens then Some(e.cm) else offer, if opens || grows then 0 else ms)
  {
    if a in peers && e.Dt? {
      assert ValidTransfer(peers[a], capacity);
    }
  }

  lemma {:induction false} SessionIsOf(
      peers: Peers, events: seq<Event>, a: Address, offer: Option<EtpCm>, ms: nat, capacity: nat, sessions: nat)
    requires ValidPeers(peers, capacity)
    requires a in peers ==> IsOf(peers[a], offer, ms)
    ensures var end := After(peers, events, capacity, sessions);
      a in end ==>
        IsOf(end[a], LastOffer(peers, events, a, offer, capacity, sessions),
             Quiet(peers, events, a, ms, capacity, sessions))
    decreases |events|
  {
    if events != [] {
      var e := events[0];
      var (peers', rx) := Step(peers, e, capacity, sessions);
      var opens, grows := Opens(e, a, Peer(peers', a), rx), Extends(e, a, Peer(peers, a), Peer(peers', a));
      var offer', ms' := if opens then Some(e.cm) else offer,
                         if opens || grows then 0 else if e.Ticked? then ms + e.elapsed else ms;
      assert a in peers' ==> IsOf(peers'[a], offer', ms') by {
        if IsFrom(e, a) {
          OwnEventKeepsIt(peers, e, a, offer, ms, capacity, sessions);
        } else if !e.Reset? {
          EventLeavesAlone(peers, e, a, capacity, sessions);
        }
      }
      SessionIsOf(peers', events[1..], a, offer', ms', capacity, sessions);
    }
  }

  /** After any run of events, what a tick reports of `a`: its session is given up
      exactly when the time since the last frame accepted from it exceeds the
      timeout, and the largest timeout is never exceeded; then an abort of the
      group it asked for is sent. */
  lemma WhatATickReports(
      peers: Peers, events: seq<Event>, a: Address, elapsed: U16, timeout: U16, abort: EtpCm, capacity: nat,
      sessions: nat)
    requires ValidPeers(peers, capacity) && a !in peers
    ensures var end := After(peers, events, capacity, sessions);
      var offer := LastOffer(peers, events, a, None, capacity, sessions);
      R.IsExpiry(end, (a, abort), elapsed, timeout) <==>
        && a in end
        && timeout < 65535 && Quiet(peers, events, a, 0, capacity, sessions) + elapsed > timeout
        && offer.Some? && abort == Abort(Tp.Timeout, offer.value.pgn)
  {
    SessionIsOf(peers, events, a, None, 0, capacity, sessions);
  }

  /** And exactly when it is not given up, it is kept. */
  lemma SurvivesATick(
      peers: Peers, events: seq<Event>, a: Address, elapsed: U16, timeout: U16, capacity: nat, sessions: nat)
    requires ValidPeers(peers, capacity) && a !in peers
    ensures var end := After(peers, events, capacity, sessions);
      a in Step(end, Ticked(elapsed, timeout), capacity, sessions).0 <==>
        a in end && (timeout == 65535 || Quiet(peers, events, a, 0, capacity, sessions) + elapsed <= timeout)
  {
    SessionIsOf(peers, events, a, None, 0, capacity, sessions);
  }

  // ------------------------------------------------------------- a request

  /** A request opens a session exactly if the size is one the protocol carries,
      the buffer holds it, its source has none and a slot is free; then its first
      block is granted. Else nothing changes and it is refused, for the first of
      these reasons. */
  lemma WhatARequestDraws(peers: Peers, a: Address, size: U32, pgn: Pgn, capacity: nat, sessions: nat)
    requires ValidPeers(peers, capacity)
    ensures var (peers', rx) := Step(peers, Cm(a, Rts(size, pgn)), capacity, sessions);
      if 1786 <= size <= 117_440_505 && size <= capacity && a !in peers && |peers| < sessions then
        && a in peers' && peers' - {a} == peers && peers'[a].filled == []
        && var s := peers'[a].session;
           && s.size == size && s.pgn == pgn && s.offset == None && (s.packets - 1) * 7 < size <= s.packets * 7
           && rx == Send(Cts(Min(255, s.packets), 1, pgn))
      else
        && peers' == peers
        && rx == Send(Abort(if !(1786 <= size <= 117_440_505) then Tp.Other(0xFF)
                            else if size <= capacity && a in peers then Tp.AlreadyInSession
                            else Tp.ResourcesUnavailable, pgn))
  {
  }

  // ------------------------------------------------- an offset, a data packet

  /** The offset of the block that the bytes held lie in, with its length. */
  predicate IsBlockOf(offset: nat, packets: nat, held: nat, size: U32) {
    offset % 255 == 0 && offset * 7 <= held < (offset + 255) * 7 && packets == Min(255, PacketCount(size) - offset)
  }

  lemma BlockOfHeld(t: Transfer, offset: nat, packets: nat, capacity: nat)
    requires ValidTransfer(t, capacity)
    ensures IsBlockOf(offset, packets, |t.filled|, t.session.size) <==>
      offset + 1 == t.session.blockStart && packets == t.session.blockPackets
  {
    var k := (t.session.blockStart - 1) / 255;
    assert t.session.blockStart - 1 == k * 255;
    if offset % 255 == 0 {
      var j := offset / 255;
      assert offset == j * 255;
    }
  }

  /** After any run of events, an offset of `a` is taken exactly if it is that of
      the block the bytes held lie in, and its length; then the block starts over,
      and nothing is said. Any other ends the transfer with an abort. */
  lemma WhatAnOffsetDraws(
      peers: Peers, events: seq<Event>, a: Address, packets: Byte, offset: U24, pgn: Pgn, capacity: nat, sessions: nat)
    requires ValidPeers(peers, capacity) && a !in peers
    ensures var end, offer := After(peers, events, capacity, sessions),
                              LastOffer(peers, events, a, None, capacity, sessions);
      var (peers', rx) := Step(end, Cm(a, Dpo(packets, offset, pgn)), capacity, sessions);
      && peers' - {a} == end - {a}
      && if a !in end then a !in peers' && rx == Idle
         else
           && offer.Some? && offer.value.Rts?
           && if IsBlockOf(offset, packets, |end[a].filled|, offer.value.size) then
                && a in peers' && peers'[a].filled == end[a].filled[..offset * 7]
                && peers'[a].session.offset == Some(offset) && rx == Idle
              else
                a !in peers' && rx == Send(Abort(Tp.UnexpectedDataPacket, offer.value.pgn))
  {
    SessionIsOf(peers, events, a, None, 0, capacity, sessions);
    var end := After(peers, events, capacity, sessions);
    if a in end {
      BlockOfHeld(end[a], offset, packets, capacity);
    }
  }

  /** What is held once the next seven bytes of a message have come. */
  function Longer(filled: seq<Byte>, size: nat, data: Tp.Chunk): seq<Byte> {
    if |filled| <= size then filled + data[..Min(7, size - |filled|)] else filled
  }

  /** What is said of n packets held of a message: at the end of a block the next
      one is granted. */
  function GrantAfter(n: nat, size: U32, pgn: Pgn): Rx
    requires n < PacketCount(size)
  {
    if n % 255 == 0 then Send(Cts(Min(255, PacketCount(size) - n), n + 1, pgn)) else Idle
  }

  lemma ExpectedGoesOn(t: Transfer, dt: EtpDt, capacity: nat)
    requires ValidTransfer(t, capacity) && t.session.offset.Some? && dt.sequence == t.session.nextSequence
    ensures var (u, rx) := TakeData(t, dt, capacity);
      var filled := Longer(t.filled, t.session.size, dt.data);
      && (u.None? <==> |filled| == t.session.size)
      && (u.None? ==> rx == Message(t.session.pgn, t.session.source, filled, Eoma(t.session.size, t.session.pgn)))
      && (u.Some? ==>
            && u.value.filled == filled && Position(t.session) + 1 < PacketCount(t.session.size)
            && rx == GrantAfter(Position(t.session) + 1, t.session.size, t.session.pgn))
  {
    var s := t.session;
    ExpectedPacketFits(t, dt, capacity);
    var k := (s.blockStart - 1) / 255;
    assert s.blockStart - 1 == k * 255;
    assert Position(s) + 1 == k * 255 + s.nextSequence;
  }

  /** What a data packet comes to, by the bytes it would bring at the offset
      announced and the bytes held. */
  ghost predicate ComesTo(
      cm: EtpCm, a: Address, offset: Option<U24>, held: seq<Byte>, dt: EtpDt, after: Option<Transfer>, rx: Rx)
    requires cm.Rts?
  {
    var filled := Longer(held, cm.size, dt.data);
    if offset.None? then after.None? && rx == Send(Abort(Tp.UnexpectedDataPacket, cm.pgn))
    else
      var first := (offset.value + dt.sequence - 1) * 7;
      if first != |held| then
        && after.None?
        && rx == Send(Abort(if first < |held| then Tp.DuplicateSequenceNumber else Tp.BadSequenceNumber, cm.pgn))
      else if |filled| == cm.size then after.None? && rx == Message(cm.pgn, a, filled, Eoma(cm.size, cm.pgn))
      else
        && after.Some? && after.value.filled == filled
        && |held| / 7 + 1 < PacketCount(cm.size) && rx == GrantAfter(|held| / 7 + 1, cm.size, cm.pgn)
  }

  lemma PacketComesTo(t: Transfer, cm: EtpCm, dt: EtpDt, ms: nat, capacity: nat)
    requires ValidTransfer(t, capacity) && IsOf(t, Some(cm), ms)
    ensures var (u, rx) := TakeData(t, dt, capacity);
      ComesTo(cm, t.session.source, t.session.offset, t.filled, dt, u, rx)
  {
    if t.session.offset.Some? && dt.sequence == t.session.nextSequence {
      ExpectedGoesOn(t, dt, capacity);
      assert |t.filled| / 7 == Position(t.session);
    }
  }

  /** That is what it comes to after any run of events; without a session it
      comes to nothing. */
  lemma WhatAPacketDraws(
      peers: Peers, events: seq<Event>, a: Address, dt: EtpDt, capacity: nat, sessions: nat)
    requires ValidPeers(peers, capacity) && a !in peers
    ensures var end, offer := After(peers, events, capacity, sessions),
                              LastOffer(peers, events, a, None, capacity, sessions);
      var (peers', rx) := Step(end, Dt(a, dt), capacity, sessions);
      && peers' - {a} == end - {a}
      && if a !in end then a !in peers' && rx == Idle
         else
           && offer.Some? && offer.value.Rts?
           && ComesTo(offer.value, a, end[a].session.offset, end[a].filled, dt, Peer(peers', a), rx)
  {
    SessionIsOf(peers, events, a, None, 0, capacity, sessions);
    var end := After(peers, events, capacity, sessions);
    if a in end {
      PacketComesTo(end[a], LastOffer(peers, events, a, None, capacity, sessions).value, dt,
                    Quiet(peers, events, a, 0, capacity, sessions), capacity);
    }
  }

  // ------------------------------------------------------- with one timeout

  ghost predicate OneTimeout(events: seq<Event>, timeout: U16) {
    forall e :: e in events && e.Ticked? ==> e.timeout == timeout
  }

  lemma {:induction false} AfterBoth(
      peers: Peers, events: seq<Event>, later: seq<Event>, capacity: nat, sessions: nat)
    requires ValidPeers(peers, capacity)
    ensures After(peers, events + later, capacity, sessions) ==
      After(After(peers, events, capacity, sessions), later, capacity, sessions)
    decreases |events|
  {
    if events == [] {
      assert events + later == later;
    } else {
      assert (events + later)[1..] == events[1..] + later;
      AfterBoth(Step(peers, events[0], capacity, sessions).0, events[1..], later, capacity, sessions);
    }
  }

  lemma {:induction false} NeverOverdue(
      peers: Peers, events: seq<Event>, a: Address, timeout: U16, capacity: nat, sessions: nat)
    requires ValidPeers(peers, capacity) && OneTimeout(events, timeout)
    requires a in peers ==> peers[a].session.idleMs <= timeout
    ensures var end := After(peers, events, capacity, sessions);
      a in end ==> end[a].session.idleMs <= timeout
    decreases |events|
  {
    if events != [] {
      var e := events[0];
      assert e in events;
      var peers' := Step(peers, e, capacity, sessions).0;
      assert a in peers' ==> peers'[a].session.idleMs <= timeout by {
        if !IsFrom(e, a) && !e.Reset? {
          EventLeavesAlone(peers, e, a, capacity, sessions);
        }
      }
      NeverOverdue(peers', events[1..], a, timeout, capacity, sessions);
    }
  }

  /** Over every run with one timeout: once `a` falls silent, whatever the others
      send, its session lasts exactly as long as the ticks since the last frame
      accepted from it add up to no more than that timeout. */
  lemma SurvivesSinceLastProgress(
      peers: Peers, events: seq<Event>, later: seq<Event>, a: Address, timeout: U16, capacity: nat, sessions: nat)
    requires ValidPeers(peers, capacity) && a !in peers
    requires OneTimeout(events, timeout) && LeavesAlone(later, a, timeout)
    ensures a in After(peers, events + later, capacity, sessions) <==>
      && a in After(peers, events, capacity, sessions)
      && (timeout == 65535 || Quiet(peers, events, a, 0, capacity, sessions) + Total(later) <= timeout)
  {
    var mid := After(peers, events, capacity, sessions);
    AfterBoth(peers, events, later, capacity, sessions);
    SessionIsOf(peers, events, a, None, 0, capacity, sessions);
    NeverOverdue(peers, events, a, timeout, capacity, sessions);
    if a in mid {
      SurvivesWithinTheTimeout(mid, a, later, timeout, capacity, sessions);
    } else {
      GoneStaysGone(mid, a, later, timeout, capacity, sessions);
    }
  }
}
