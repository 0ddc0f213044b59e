/** What a receiver guarantees whatever the network does: no corruption of one
    peer's message by another peer, by loss, by repetition or by reordering. */
module TpSafety {
  import opened Types
  import opened TpSpec

  datatype Event =
    | Cm(source: Address, cm: TpCm)
    | Dt(source: Address, dt: TpDt)
    | Ticked(elapsed: U16, timeout: U16)
    | Abandoned(source: Address)
    | Reset

  /** One event at a receiver with this much buffer and this many slots. */
  function Step(peers: Peers, e: Event, capacity: nat, sessions: nat): (r: (Peers, Rx))
    requires ValidPeers(peers, capacity)
    ensures ValidPeers(r.0, capacity)
  {
    match e
    case Cm(source, cm) => TakeCm(peers, source, cm, capacity, sessions)
    case Dt(source, dt) => TakeDt(peers, source, dt, capacity)
    case Ticked(elapsed, timeout) =>
      TickKeepsValid(peers, elapsed, timeout, capacity);
      (TickPeers(peers, elapsed, timeout), Idle)
    case Abandoned(source) => (peers - {source}, Idle)
    case Reset => (map[], Idle)
  }

  /** The events one peer causes. */
  predicate IsFrom(e: Event, a: Address) {
    (e.Cm? || e.Dt? || e.Abandoned?) && e.source == a
  }

  /** What a peer that is sending us a transfer of this group says of others: it
      grants, acknowledges or aborts what we send it, or aborts another group. */
  predicate IsAside(cm: TpCm, pgn: Pgn) {
    cm.Cts? || cm.EndOfMsgAck? || (cm.Abort? && cm.pgn != pgn)
  }

  /** Such a message leaves the transfer alone and draws no answer. */
  lemma AsidesChangeNothing(peers: Peers, a: Address, cm: TpCm, pgn: Pgn, capacity: nat, sessions: nat)
    requires ValidPeers(peers, capacity) && IsAside(cm, pgn)
    requires a in peers ==> peers[a].session.pgn == pgn
    ensures Step(peers, Cm(a, cm), capacity, sessions) == (peers, Idle)
  {
  }

  /** An event from one source never changes another source's session or the
      bytes accepted for it, and answers are only ever about its own transfer. */
  lemma NonInterference(peers: Peers, e: Event, a: Address, b: Address, capacity: nat, sessions: nat)
    requires ValidPeers(peers, capacity)
    requires IsFrom(e, a) && a != b
    ensures var (peers', rx) := Step(peers, e, capacity, sessions);
      && Peer(peers', b) == Peer(peers, b)
      && (rx.Message? ==> rx.source == a)
  {
  }

  /** A data packet is answered from its own peer's session alone: the receiver
      is a collection of independent single-session receivers. */
  lemma DataIsLocal(peers: Peers, others: Peers, a: Address, dt: TpDt, capacity: nat)
    requires ValidPeers(peers, capacity) && ValidPeers(others, capacity)
    requires Peer(peers, a) == Peer(others, a)
    ensures TakeDt(peers, a, dt, capacity).1 == TakeDt(others, a, dt, capacity).1
    ensures Peer(TakeDt(peers, a, dt, capacity).0, a) == Peer(TakeDt(others, a, dt, capacity).0, a)
  {
  }

  /** A source already being served over an addressed transfer. */
  predicate Engaged(peers: Peers, a: Address) {
    a in peers && !peers[a].session.broadcast
  }

  /** A coherent announcement that fits opens a session unless every slot is held
      by someone else, or it asks for permission in the middle of a transfer that
      had it: a broadcast then is dropped, a request refused for its reason, and
      nothing else changes. One that opens a session replaces what its source
      was sending before. */
  lemma OfferIsTakenIfThereIsRoom(peers: Peers, a: Address, cm: TpCm, capacity: nat, sessions: nat)
    requires ValidPeers(peers, capacity)
    requires cm.Rts? || cm.Bam?
    requires ValidAnnouncement(cm.size, cm.packets) && cm.size <= capacity
    ensures var (peers', rx) := TakeCm(peers, a, cm, capacity, sessions);
      if (a in peers || |peers| < sessions) && !(cm.Rts? && Engaged(peers, a)) then
        && a in peers' && peers' - {a} == peers - {a}
        && peers'[a].filled == [] && peers'[a].session.nextSequence == 1 && peers'[a].session.idleMs == 0
        && peers'[a].session.size == cm.size && peers'[a].session.packets == cm.packets
        && peers'[a].session.pgn == cm.pgn
        && peers'[a].session.broadcast == cm.Bam?
        && (rx == if cm.Bam? then Idle else Send(Cts(GrantWindow(cm.packets, cm.maxPacketsPerCts), 1, cm.pgn)))
      else
        && peers' == peers
        && (rx == if cm.Bam? then Idle
                  else Send(Abort(if Engaged(peers, a) then AlreadyInSession else ResourcesUnavailable, cm.pgn)))
  {
  }

  /** Packets of seven bytes each, the last one perhaps short. */
  predicate IsCoherent(size: nat, packets: nat) {
    9 <= size <= 1785 && (packets - 1) * 7 < size <= packets * 7
  }

  /** Any other announcement opens nothing. A broadcast ends what its source was
      sending, in silence; a request changes nothing and is refused, for lack of
      room if it is coherent. */
  lemma OtherOffersAreRefused(peers: Peers, a: Address, cm: TpCm, capacity: nat, sessions: nat)
    requires ValidPeers(peers, capacity)
    requires cm.Rts? || cm.Bam?
    requires !IsCoherent(cm.size, cm.packets) || cm.size > capacity
    ensures var (peers', rx) := TakeCm(peers, a, cm, capacity, sessions);
      if cm.Bam? then a !in peers' && peers' == peers - {a} && rx == Idle
      else
        && peers' == peers
        && rx == Send(Abort(if IsCoherent(cm.size, cm.packets) then ResourcesUnavailable else Other(0xFF), cm.pgn))
  {
    CoherentIsValid(cm.size, cm.packets);
  }

  lemma CoherentIsValid(size: U16, packets: Byte)
    ensures IsCoherent(size, packets) <==> ValidAnnouncement(size, packets)
  {
  }

  // -------------------------------------------------- one genuine transfer

  /** What an event from `a` may carry if `a` is conducting this one transfer:
      its own announcement, and its own data packets in any order, any number
      of times. Every other kind of message, and everything from any other
      source, is unrestricted. */
  ghost predicate Genuine(e: Event, a: Address, s: Sender)
    requires ValidSender(s)
  {
    && (e.Cm? && e.source == a && (e.cm.Rts? || e.cm.Bam?) ==> e.cm == Start(s))
    && (e.Dt? && e.source == a ==>
          1 <= e.dt.sequence <= s.packets && e.dt == Packet(s.data, e.dt.sequence))
  }

  /** The session kept for `a` is that transfer, filled with its own prefix. */
  ghost predicate Faithful(peers: Peers, a: Address, s: Sender) {
    a in peers ==>
      && peers[a].session.pgn == s.pgn
      && peers[a].session.size == |s.data|
      && peers[a].session.packets == s.packets
      && peers[a].filled <= s.data
  }

  lemma PrefixGrows(filled: seq<Byte>, data: seq<Byte>, q: nat)
    requires 1 <= q <= 255 && (q - 1) * 7 < |data|
    requires filled <= data && |filled| == (q - 1) * 7
    ensures filled + Packet(data, q).data[..ChunkEnd(q, |data|) - (q - 1) * 7] == data[..ChunkEnd(q, |data|)]
  {
  }

  lemma GenuineData(peers: Peers, dt: TpDt, a: Address, s: Sender, capacity: nat)
    requires ValidPeers(peers, capacity) && ValidSender(s)
    requires Genuine(Dt(a, dt), a, s) && Faithful(peers, a, s)
    ensures var (peers', rx) := TakeDt(peers, a, dt, capacity);
      && Faithful(peers', a, s)
      && (rx.Message? && rx.source == a ==> rx.pgn == s.pgn && rx.data == s.data)
  {
    if a in peers && dt.sequence == peers[a].session.nextSequence {
      PrefixGrows(peers[a].filled, s.data, dt.sequence);
    }
  }

  lemma GenuineStep(peers: Peers, e: Event, a: Address, s: Sender, capacity: nat, sessions: nat)
    requires ValidPeers(peers, capacity) && ValidSender(s)
    requires Genuine(e, a, s) && Faithful(peers, a, s)
    ensures var (peers', rx) := Step(peers, e, capacity, sessions);
      && Faithful(peers', a, s)
      && (rx.Message? && rx.source == a ==> rx.pgn == s.pgn && rx.data == s.data)
  {
    if e.Dt? && e.source == a {
      GenuineData(peers, e.dt, a, s, capacity);
    } else if e.Dt? {
      NonInterference(peers, e, e.source, a, capacity, sessions);
    }
  }

  function After(peers: Peers, events: seq<Event>, capacity: nat, sessions: nat): (p: Peers)
    requires ValidPeers(peers, capacity)
    ensures ValidPeers(p, capacity)
    decreases |events|
  {
    if events == [] then peers
    else After(Step(peers, events[0], capacity, sessions).0, events[1..], capacity, sessions)
  }

  /** Every answer a run of events draws from the receiver. */
  function Answers(peers: Peers, events: seq<Event>, capacity: nat, sessions: nat): seq<Rx>
    requires ValidPeers(peers, capacity)
    decreases |events|
  {
    if events == [] then []
    else
      var (peers', rx) := Step(peers, events[0], capacity, sessions);
      [rx] + Answers(peers', events[1..], capacity, sessions)
  }

  /** Hostile-network safety: whatever is lost, repeated, reordered, timed out
      or interleaved with arbitrary traffic from other sources, every message
      delivered for `a` is exactly the one it is sending. */
  lemma {:induction false} DeliveredIsWhatWasSent(
      peers: Peers, events: seq<Event>, a: Address, s: Sender, capacity: nat, sessions: nat)
    requires ValidPeers(peers, capacity) && ValidSender(s)
    requires Faithful(peers, a, s)
    requires forall e :: e in events ==> Genuine(e, a, s)
    ensures forall rx :: rx in Answers(peers, events, capacity, sessions) && rx.Message? && rx.source == a ==>
      rx.pgn == s.pgn && rx.data == s.data
    decreases |events|
  {
    if events != [] {
      assert events[0] in events;
      GenuineStep(peers, events[0], a, s, capacity, sessions);
      DeliveredIsWhatWasSent(Step(peers, events[0], capacity, sessions).0, events[1..], a, s, capacity, sessions);
    }
  }

  predicate IsOffer(e: Event, a: Address) {
    e.Cm? && e.source == a && (e.cm.Rts? || e.cm.Bam?)
  }

  lemma {:induction false} SilentWithoutSession(
      peers: Peers, events: seq<Event>, a: Address, capacity: nat, sessions: nat)
    requires ValidPeers(peers, capacity) && a !in peers
    requires forall e :: e in events ==> !IsOffer(e, a)
    ensures a !in After(peers, events, capacity, sessions)
    ensures var answers := Answers(peers, events, capacity, sessions);
      |answers| == |events| && forall k :: 0 <= k < |events| && IsFrom(events[k], a) ==> answers[k] == Idle
    decreases |events|
  {
    if events != [] {
      assert events[0] in events;
      SilentWithoutSession(Step(peers, events[0], capacity, sessions).0, events[1..], a, capacity, sessions);
    }
  }

  /** An abort ends its own peer's transfer exactly if it is of that group; then
      nothing but a new announcement from that peer draws an answer or opens a
      session again. */
  lemma AbortEndsItsTransfer(
      peers: Peers, a: Address, reason: AbortReason, pgn: Pgn, events: seq<Event>, capacity: nat, sessions: nat)
    requires ValidPeers(peers, capacity) && a in peers
    requires forall e :: e in events ==> !IsOffer(e, a)
    ensures var (peers', rx) := Step(peers, Cm(a, Abort(reason, pgn)), capacity, sessions);
      && rx == Idle
      && if pgn != peers[a].session.pgn then peers' == peers
         else
           var answers := Answers(peers', events, capacity, sessions);
           && peers' - {a} == peers - {a}
           && a !in After(peers', events, capacity, sessions)
           && |answers| == |events| && forall k :: 0 <= k < |events| && IsFrom(events[k], a) ==> answers[k] == Idle
  {
    if pgn == peers[a].session.pgn {
      SilentWithoutSession(Step(peers, Cm(a, Abort(reason, pgn)), capacity, sessions).0, events, a, capacity, sessions);
    }
  }

  // ---------------------------------------------------------------- timers

  /** Milliseconds ticked over a run. */
  function Total(events: seq<Event>): nat {
    if events == [] then 0 else Total(events[1..]) + if events[0].Ticked? then events[0].elapsed else 0
  }

  /** Ticks of one timeout, and anything at all from other sources. */
  ghost predicate LeavesAlone(events: seq<Event>, a: Address, timeout: U16) {
    forall e :: e in events ==> !e.Reset? && !IsFrom(e, a) && (e.Ticked? ==> e.timeout == timeout)
  }

  lemma EventLeavesAlone(peers: Peers, e: Event, a: Address, capacity: nat, sessions: nat)
    requires ValidPeers(peers, capacity) && !e.Reset? && !IsFrom(e, a)
    ensures Peer(Step(peers, e, capacity, sessions).0, a) ==
      if e.Ticked? && a in peers then
        if Expires(peers[a], e.elapsed, e.timeout) then None else Some(Aged(peers[a], e.elapsed))
      else Peer(peers, a)
  {
    if !e.Ticked? {
      NonInterference(peers, e, e.source, a, capacity, sessions);
    }
  }

  /** A session survives a run of ticks exactly when the time since its last
      progress stays within the timeout, whoever else is being served. The
      largest timeout, 65535, is never exceeded: the idle timer saturates there. */
  lemma {:induction false} SurvivesWithinTheTimeout(
      peers: Peers, a: Address, events: seq<Event>, timeout: U16, capacity: nat, sessions: nat)
    requires ValidPeers(peers, capacity) && LeavesAlone(events, a, timeout)
    requires a in peers && peers[a].session.idleMs <= timeout
    ensures var end := After(peers, events, capacity, sessions);
      && (a in end <==> timeout == U16_MAX || peers[a].session.idleMs + Total(events) <= timeout)
      && (a in end ==> end[a].filled == peers[a].filled)
    decreases |events|
  {
    if events != [] {
      assert events[0] in events;
      EventLeavesAlone(peers, events[0], a, capacity, sessions);
      var next := Step(peers, events[0], capacity, sessions).0;
      if a in next {
        SurvivesWithinTheTimeout(next, a, events[1..], timeout, capacity, sessions);
      } else {
        GoneStaysGone(next, a, events[1..], timeout, capacity, sessions);
      }
    }
  }

  lemma {:induction false} GoneStaysGone(
      peers: Peers, a: Address, events: seq<Event>, timeout: U16, capacity: nat, sessions: nat)
    requires ValidPeers(peers, capacity) && LeavesAlone(events, a, timeout) && a !in peers
    ensures a !in After(peers, events, capacity, sessions)
    decreases |events|
  {
    if events != [] {
      assert events[0] in events;
      EventLeavesAlone(peers, events[0], a, capacity, sessions);
      GoneStaysGone(Step(peers, events[0], capacity, sessions).0, a, events[1..], timeout, capacity, sessions);
    }
  }
}
