/** What a receive session comes to after any run, told from the announcement
    that opened it, the bytes held and the time since its last progress, and not
    from the counters and the timer kept for it. */
module TpSessions {
  import opened Types
  import opened TpSpec
  import opened TpSafety
  import R = TpReassembler

  /** The event is an announcement of `a` that opens a session. */
  predicate Opens(e: Event, a: Address, after: Option<Transfer>, rx: Rx) {
    e.Cm? && e.source == a && after.Some? && (e.cm.Bam? || (e.cm.Rts? && rx.Send? && rx.cm.Cts?))
  }

  /** The event is a data packet of `a` after which one more packet is held. */
  predicate Extends(e: Event, a: Address, before: Option<Transfer>, after: Option<Transfer>) {
    e.Dt? && e.source == a && before.Some? && after.Some? && |after.value.filled| == |before.value.filled| + 7
  }

  /** Milliseconds ticked since the last frame accepted from `a`, where `ms` have
      been ticked before these events. */
  function Quiet(peers: Peers, events: seq<Event>, a: Address, ms: nat, capacity: nat, sessions: nat): nat
    requires ValidPeers(peers, capacity)
    decreases |events|
  {
    if events == [] then ms
    else
      var e := events[0];
      var (peers', rx) := Step(peers, e, capacity, sessions);
      var accepted := Opens(e, a, Peer(peers', a), rx) || Extends(e, a, Peer(peers, a), Peer(peers', a));
      Quiet(peers', events[1..], a,
            if accepted then 0 else if e.Ticked? then ms + e.elapsed else ms, capacity, sessions)
  }

  /** The announcement of `a` that last opened a session. */
  function LastOffer(
      peers: Peers, events: seq<Event>, a: Address, offer: Option<TpCm>, capacity: nat, sessions: nat): Option<TpCm>
    requires ValidPeers(peers, capacity)
    decreases |events|
  {
    if events == [] then offer
    else
      var e := events[0];
      var (peers', rx) := Step(peers, e, capacity, sessions);
      var offer' := if Opens(e, a, Peer(peers', a), rx) then Some(e.cm) else offer;
      LastOffer(peers', events[1..], a, offer', capacity, sessions)
  }

  /** A session is of the offer that opened it, and its timer shows the time
      since it was last heard, up to saturation. */
  ghost predicate IsOf(t: Transfer, offer: Option<TpCm>, ms: nat) {
    && t.session.idleMs == Min(ms, U16_MAX)
    && offer.Some? && (offer.value.Rts? || offer.value.Bam?)
    && t.session.pgn == offer.value.pgn && t.session.broadcast == offer.value.Bam?
    && t.session.size == offer.value.size && t.session.packets == offer.value.packets
  }

  lemma OwnEventKeepsIt(peers: Peers, e: Event, a: Address, offer: Option<TpCm>, ms: nat, capacity: nat, sessions: nat)
    requires ValidPeers(peers, capacity) && IsFrom(e, a)
    requires a in peers ==> IsOf(peers[a], offer, ms)
    ensures var (peers', rx) := Step(peers, e, capacity, sessions);
      var opens, grows := Opens(e, a, Peer(peers', a), rx), Extends(e, a, Peer(peers, a), Peer(peers', a));
      a in peers' ==> IsOf(peers'[a], if opens then Some(e.cm) else offer, if opens || grows then 0 else ms)
  {
    if a in peers && e.Dt? {
      assert ValidTransfer(peers[a], capacity);
    }
  }

  lemma {:induction false} SessionIsOf(
      peers: Peers, events: seq<Event>, a: Address, offer: Option<TpCm>, ms: nat, capacity: nat, sessions: nat)
    requires ValidPeers(peers, capacity)
    requires a in peers ==> IsOf(peers[a], offer, ms)
    ensures var end := After(peers, events, capacity, sessions);
      a in end ==>
        IsOf(end[a], LastOffer(peers, events, a, offer, capacity, sessions),
             Quiet(peers, events, a, ms, capacity, sessions))
    decreases |events|
  {
    if events != [] {
      var e := events[0];
      var (peers', rx) := Step(peers, e, capacity, sessions);
      var opens, grows := Opens(e, a, Peer(peers', a), rx), Extends(e, a, Peer(peers, a), Peer(peers', a));
      var offer', ms' := if opens then Some(e.cm) else offer,
                         if opens || grows then 0 else if e.Ticked? then ms + e.elapsed else ms;
      assert a in peers' ==> IsOf(peers'[a], offer', ms') by {
        if IsFrom(e, a) {
          OwnEventKeepsIt(peers, e, a, offer, ms, capacity, sessions);
        } else if !e.Reset? {
          EventLeavesAlone(peers, e, a, capacity, sessions);
        }
      }
      SessionIsOf(peers', events[1..], a, offer', ms', capacity, sessions);
    }
  }

  /** After any run of events, what a tick reports of `a`: its session is given up
      exactly when the time since the last frame accepted from it exceeds the
      timeout, and the largest timeout is never exceeded; then a request to send
      draws an abort of its group, and a broadcast nothing. */
  lemma WhatATickReports(
      peers: Peers, events: seq<Event>, a: Address, elapsed: U16, timeout: U16, abort: Option<TpCm>, capacity: nat,
      sessions: nat)
    requires ValidPeers(peers, capacity) && a !in peers
    ensures var end := After(peers, events, capacity, sessions);
      var offer := LastOffer(peers, events, a, None, capacity, sessions);
      R.IsExpiry(end, (a, abort), elapsed, timeout) <==>
        && a in end
        && timeout < 65535 && Quiet(peers, events, a, 0, capacity, sessions) + elapsed > timeout
        && offer.Some? && abort == if offer.value.Bam? then None else Some(Abort(Timeout, offer.value.pgn))
  {
    SessionIsOf(peers, events, a, None, 0, capacity, sessions);
  }

  /** And exactly when it is not given up, it is kept. */
  lemma SurvivesATick(
      peers: Peers, events: seq<Event>, a: Address, elapsed: U16, timeout: U16, capacity: nat, sessions: nat)
    requires ValidPeers(peers, capacity) && a !in peers
    ensures var end := After(peers, events, capacity, sessions);
      a in Step(end, Ticked(elapsed, timeout), capacity, sessions).0 <==>
        a in end && (timeout == 65535 || Quiet(peers, events, a, 0, capacity, sessions) + elapsed <= timeout)
  {
    SessionIsOf(peers, events, a, None, 0, capacity, sessions);
  }

  // --------------------------------------------------------- a data packet

  /** What is held once the next seven bytes of a message have come. */
  function Longer(filled: seq<Byte>, size: nat, data: Chunk): seq<Byte> {
    if |filled| <= size then filled + data[..Min(7, size - |filled|)] else filled
  }

  /** What a data packet comes to, by the bytes it would bring and the bytes
      held. The next ones are kept, and with the last of them the message is
      handed over whole, acknowledged if it was asked for; bytes held already, or
      bytes further on, end the transfer with an abort that tells the two apart,
      or in silence for a broadcast. */
  ghost predicate ComesTo(cm: TpCm, a: Address, held: seq<Byte>, dt: TpDt, after: Option<Transfer>, rx: Rx)
    requires cm.Rts? || cm.Bam?
  {
    var first, filled := (dt.sequence - 1) * 7, Longer(held, cm.size, dt.data);
    if first != |held| then
      && after.None?
      && rx == if cm.Bam? then Idle
               else Send(Abort(if first < |held| then DuplicateSequenceNumber else BadSequenceNumber, cm.pgn))
    else if |filled| == cm.size then
      && after.None?
      && rx == Message(cm.pgn, a, filled, if cm.Bam? then None else Some(EndOfMsgAck(cm.size, cm.packets, cm.pgn)))
    else
      && after.Some? && after.value.filled == filled
      && (rx == Idle || (cm.Rts? && rx.Send? && rx.cm.Cts? && rx.cm.packets > 0
                         && rx.cm.nextPacket == dt.sequence + 1 && rx.cm.pgn == cm.pgn))
  }

  lemma PacketComesTo(t: Transfer, cm: TpCm, dt: TpDt, ms: nat, capacity: nat)
    requires ValidTransfer(t, capacity) && IsOf(t, Some(cm), ms)
    ensures ComesTo(cm, t.session.source, t.filled, dt, TakeData(t, dt, capacity).0, TakeData(t, dt, capacity).1)
  {
  }

  /** That is what it comes to after any run of events; without a session it
      comes to nothing. */
  lemma WhatAPacketDraws(
      peers: Peers, events: seq<Event>, a: Address, dt: TpDt, capacity: nat, sessions: nat)
    requires ValidPeers(peers, capacity) && a !in peers
    ensures var end, offer := After(peers, events, capacity, sessions),
                              LastOffer(peers, events, a, None, capacity, sessions);
      var (peers', rx) := Step(end, Dt(a, dt), capacity, sessions);
      && peers' - {a} == end - {a}
      && if a !in end then a !in peers' && rx == Idle
         else
           && offer.Some? && (offer.value.Rts? || offer.value.Bam?)
           && ComesTo(offer.value, a, end[a].filled, dt, Peer(peers', a), rx)
  {
    SessionIsOf(peers, events, a, None, 0, capacity, sessions);
    var end := After(peers, events, capacity, sessions);
    if a in end {
      PacketComesTo(end[a], LastOffer(peers, events, a, None, capacity, sessions).value, dt,
                    Quiet(peers, events, a, 0, capacity, sessions), capacity);
    }
  }

  // ------------------------------------------------------- with one timeout

  ghost predicate OneTimeout(events: seq<Event>, timeout: U16) {
    forall e :: e in events && e.Ticked? ==> e.timeout == timeout
  }

  lemma {:induction false} AfterBoth(
      peers: Peers, events: seq<Event>, later: seq<Event>, capacity: nat, sessions: nat)
    requires ValidPeers(peers, capacity)
    ensures After(peers, events + later, capacity, sessions) ==
      After(After(peers, events, capacity, sessions), later, capacity, sessions)
    decreases |events|
  {
    if events == [] {
      assert events + later == later;
    } else {
      assert (events + later)[1..] == events[1..] + later;
      AfterBoth(Step(peers, events[0], capacity, sessions).0, events[1..], later, capacity, sessions);
    }
  }

  lemma {:induction false} NeverOverdue(
      peers: Peers, events: seq<Event>, a: Address, timeout: U16, capacity: nat, sessions: nat)
    requires ValidPeers(peers, capacity) && OneTimeout(events, timeout)
    requires a in peers ==> peers[a].session.idleMs <= timeout
    ensures var end := After(peers, events, capacity, sessions);
      a in end ==> end[a].session.idleMs <= timeout
    decreases |events|
  {
    if events != [] {
      var e := events[0];
      assert e in events;
      var peers' := Step(peers, e, capacity, sessions).0;
      assert a in peers' ==> peers'[a].session.idleMs <= timeout by {
        if !IsFrom(e, a) && !e.Reset? {
          EventLeavesAlone(peers, e, a, capacity, sessions);
        }
      }
      NeverOverdue(peers', events[1..], a, timeout, capacity, sessions);
    }
  }

  /** Over every run with one timeout: once `a` falls silent, whatever the others
      send, its session lasts exactly as long as the ticks since the last frame
      accepted from it add up to no more than that timeout. */
  lemma SurvivesSinceLastProgress(
      peers: Peers, events: seq<Event>, later: seq<Event>, a: Address, timeout: U16, capacity: nat, sessions: nat)
    requires ValidPeers(peers, capacity) && a !in peers
    requires OneTimeout(events, timeout) && LeavesAlone(later, a, timeout)
    ensures a in After(peers, events + later, capacity, sessions) <==>
      && a in After(peers, events, capacity, sessions)
      && (timeout == 65535 || Quiet(peers, events, a, 0, capacity, sessions) + Total(later) <= timeout)
  {
    var mid := After(peers, events, capacity, sessions);
    AfterBoth(peers, events, later, capacity, sessions);
    SessionIsOf(peers, events, a, None, 0, capacity, sessions);
    NeverOverdue(peers, events, a, timeout, capacity, sessions);
    if a in mid {
      SurvivesWithinTheTimeout(mid, a, later, timeout, capacity, sessions);
    } else {
      GoneStaysGone(mid, a, later, timeout, capacity, sessions);
    }
  }
}
