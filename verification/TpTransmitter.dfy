/** The send side of the transport protocol as the source keeps it: an object
    whose cursor, window and completion flag are updated in place while the
    payload is only borrowed. */
module TpTransmitter {
  import opened Types
  import opened TpSpec

  class Transmitter {
    const pgn: Pgn
    const data: seq<Byte>
    const packets: Byte
    var nextSequence: U16
    var windowRemaining: Byte
    const broadcast: bool
    var complete: bool
    var maxPacketsPerCts: Byte

    function View(): Sender
      reads this
    {
      Sender(pgn, data, packets, nextSequence, windowRemaining, broadcast, complete, maxPacketsPerCts)
    }

    ghost predicate Valid()
      reads this
    {
      ValidSender(View())
    }

    constructor (s: Sender)
      requires ValidSender(s)
      ensures View() == s
    {
      pgn := s.pgn;
      data := s.data;
      packets := s.packets;
      nextSequence := s.nextSequence;
      windowRemaining := s.windowRemaining;
      broadcast := s.broadcast;
      complete := s.complete;
      maxPacketsPerCts := s.maxPacketsPerCts;
    }

    /** Prepare a transfer; a size the protocol cannot carry is refused. */
    static method New(pgn: Pgn, data: seq<Byte>, broadcast: bool) returns (r: Result<Transmitter>)
      ensures r.Ok? ==> fresh(r.value) && r.value.Valid()
      ensures match Build(pgn, data, broadcast)
        case Ok(s) => r.Ok? && r.value.View() == s
        case Err(e) => r == Err(e)
    {
      match Build(pgn, data, broadcast)
      case Ok(s) =>
        var t := new Transmitter(s);
        r := Ok(t);
      case Err(e) =>
        r := Err(e);
    }

    method WithMaxPacketsPerCts(max: Byte)
      requires Valid()
      modifies this`maxPacketsPerCts
      ensures Valid() && View() == old(View()).(maxPacketsPerCts := max)
    {
      maxPacketsPerCts := max;
    }

    method OnTpCm(cm: TpCm) returns (tx: Tx)
      requires Valid()
      modifies this`nextSequence, this`windowRemaining, this`complete
      ensures Valid()
      ensures (View(), tx) == OnCm(old(View()), cm)
    {
      if cm.pgn != pgn {
        return TxIdle;
      }
      match cm
      case Cts(granted, nextPacket, _) =>
        if granted == 0 {
          return TxIdle;
        }
        if nextPacket == 0 || nextPacket > packets {
          return TxIdle;
        }
        nextSequence := nextPacket;
        windowRemaining := Min(granted, packets - nextPacket + 1);
        return SendData;
      case EndOfMsgAck(_, _, _) =>
        complete := true;
        return Complete;
      case Abort(reason, _) =>
        return Aborted(reason);
      case Rts(_, _, _, _) =>
        return TxIdle;
      case Bam(_, _, _) =>
        return TxIdle;
    }

    method NextDt() returns (dt: Option<TpDt>)
      requires Valid()
      modifies this`nextSequence, this`windowRemaining, this`complete
      ensures Valid()
      ensures (View(), dt) == NextPacket(old(View()))
    {
      if windowRemaining == 0 || nextSequence > packets {
        return None;
      }
      var sequence := nextSequence;
      var offset := (sequence - 1) * 7;
      var end := Min(offset + 7, |data|);
      dt := Some(TpDt(sequence, Padded(data[offset..end])));
      nextSequence := nextSequence + 1;
      windowRemaining := windowRemaining - 1;
      if broadcast && nextSequence > packets {
        complete := true;
      }
    }
  }

  // ------------------------------------------ what a sender may ever put out

  /** What happens to a sender: a message from the peer, or a pull. */
  datatype Event = Hear(cm: TpCm) | Pull

  function Apply(s: Sender, e: Event): (r: (Sender, Option<TpDt>))
    requires ValidSender(s)
    ensures ValidSender(r.0)
  {
    match e
    case Hear(cm) => (OnCm(s, cm).0, None)
    case Pull => NextPacket(s)
  }

  /** The data packets a whole history makes the sender emit. */
  function Emitted(s: Sender, events: seq<Event>): seq<TpDt>
    requires ValidSender(s)
    decreases |events|
  {
    if events == [] then []
    else
      var (s', dt) := Apply(s, events[0]);
      (if dt.Some? then [dt.value] else []) + Emitted(s', events[1..])
  }

  /** dt is the packet its own sequence number names. */
  predicate IsChunk(dt: TpDt, data: seq<Byte>) {
    1 <= dt.sequence && (dt.sequence - 1) * 7 < |data| && dt == Packet(data, dt.sequence)
  }

  /** Whatever connection management a sender hears, in any order, every packet
      it emits with sequence q is chunk q of its payload, padded with 0xFF. */
  lemma {:induction false} EveryPacketIsItsChunk(s: Sender, events: seq<Event>)
    requires ValidSender(s)
    ensures forall dt :: dt in Emitted(s, events) ==> IsChunk(dt, s.data)
    decreases |events|
  {
    if events != [] {
      var (s', dt) := Apply(s, events[0]);
      assert s'.data == s.data;
      EveryPacketIsItsChunk(s', events[1..]);
    }
  }

  /** Between two accepted grants an addressed sender emits consecutive packets
      from the granted one on, and at most as many as were granted. */
  lemma {:induction false} WindowIsObeyed(s: Sender, events: seq<Event>)
    requires ValidSender(s)
    requires forall e :: e in events && e.Hear? ==> !Accepts(s, e.cm)
    ensures |Emitted(s, events)| <= s.windowRemaining
    ensures forall k :: 0 <= k < |Emitted(s, events)| ==> Emitted(s, events)[k].sequence == s.nextSequence + k
    decreases |events|
  {
    if events != [] {
      var (s', dt) := Apply(s, events[0]);
      assert forall cm :: Accepts(s', cm) == Accepts(s, cm);
      assert events[0] in events;
      WindowIsObeyed(s', events[1..]);
    }
  }

  /** A grant opens a window no wider than it says, at the packet it names, and
      never past the last packet. */
  lemma GrantOpensItsWindow(s: Sender, cm: TpCm, events: seq<Event>)
    requires ValidSender(s) && Accepts(s, cm)
    requires forall e :: e in events && e.Hear? ==> !Accepts(s, e.cm)
    ensures var sent := Emitted(s, [Hear(cm)] + events);
      && |sent| <= cm.packets
      && cm.nextPacket + |sent| <= s.packets + 1
      && forall k :: 0 <= k < |sent| ==> sent[k].sequence == cm.nextPacket + k
  {
    var s' := OnCm(s, cm).0;
    assert ([Hear(cm)] + events)[1..] == events;
    assert forall m :: Accepts(s', m) == Accepts(s, m);
    WindowIsObeyed(s', events);
  }

  function Pulls(n: nat): seq<Event> {
    if n == 0 then [] else [Pull] + Pulls(n - 1)
  }

  lemma {:induction false} PullsEmit(s: Sender, n: nat)
    requires ValidSender(s)
    ensures |Emitted(s, Pulls(n))| == Min(n, s.windowRemaining)
    decreases n
  {
    if n > 0 {
      assert Pulls(n)[1..] == Pulls(n - 1);
      PullsEmit(NextPacket(s).0, n - 1);
    }
  }

  /** And it is served: pulled often enough, as many packets come as it grants, or
      as are left; what was sent before may be asked for again. */
  lemma GrantIsServed(s: Sender, cm: TpCm, n: nat)
    requires ValidSender(s) && Accepts(s, cm)
    ensures |Emitted(OnCm(s, cm).0, Pulls(n))| == Min(n, Min(cm.packets, s.packets + 1 - cm.nextPacket))
  {
    PullsEmit(OnCm(s, cm).0, n);
  }

  /** A history with only its pulls and its accepted grants. */
  function GrantsAndPulls(s: Sender, events: seq<Event>): seq<Event> {
    if events == [] then []
    else
      (if events[0].Hear? && !Accepts(s, events[0].cm) then [] else [events[0]]) + GrantsAndPulls(s, events[1..])
  }

  lemma {:induction false} SameGrants(s: Sender, t: Sender, events: seq<Event>)
    requires s.pgn == t.pgn && s.packets == t.packets
    ensures GrantsAndPulls(s, events) == GrantsAndPulls(t, events)
  {
    if events != [] {
      SameGrants(s, t, events[1..]);
    }
  }

  /** The sender after an event, if only accepted grants and its own moves count. */
  function Moved(s: Sender, e: Event): (r: Sender)
    requires ValidSender(s)
    ensures ValidSender(r)
  {
    if e.Hear? && !Accepts(s, e.cm) then s else Apply(s, e).0
  }

  lemma OnlyGrantsMove(s: Sender, t: Sender, e: Event)
    requires ValidSender(s) && ValidSender(t) && t == s.(complete := t.complete)
    ensures var s', t' := Moved(s, e), Apply(t, e).0;
      && t' == s'.(complete := t'.complete)
      && Apply(t, e).1 == (if e.Hear? && !Accepts(s, e.cm) then None else Apply(s, e).1)
      && s'.pgn == s.pgn && s'.packets == s.packets
  {
  }

  lemma {:induction false} OnlyGrantsMatterFrom(s: Sender, t: Sender, events: seq<Event>)
    requires ValidSender(s) && ValidSender(t) && t == s.(complete := t.complete)
    ensures Emitted(t, events) == Emitted(s, GrantsAndPulls(s, events))
    decreases |events|
  {
    if events != [] {
      var e, rest := events[0], GrantsAndPulls(s, events[1..]);
      OnlyGrantsMove(s, t, e);
      SameGrants(s, Moved(s, e), events[1..]);
      OnlyGrantsMatterFrom(Moved(s, e), Apply(t, e).0, events[1..]);
      if e.Hear? && !Accepts(s, e.cm) {
        assert GrantsAndPulls(s, events) == rest;
      } else {
        assert GrantsAndPulls(s, events) == [e] + rest && ([e] + rest)[1..] == rest;
      }
    }
  }

  /** Nothing but an accepted grant changes what is sent: neither a grant of
      nothing, of packets that do not exist or of another group, nor an abort, an
      announcement or an acknowledgement. */
  lemma OnlyGrantsMatter(s: Sender, events: seq<Event>)
    requires ValidSender(s)
    ensures Emitted(s, events) == Emitted(s, GrantsAndPulls(s, events))
  {
    OnlyGrantsMatterFrom(s, s, events);
  }

  /** An addressed sender that has heard no grant emits nothing. */
  lemma SilentUntilGranted(pgn: Pgn, data: seq<Byte>, events: seq<Event>)
    requires Build(pgn, data, false).Ok?
    requires forall e :: e in events && e.Hear? ==> !Accepts(Build(pgn, data, false).value, e.cm)
    ensures Emitted(Build(pgn, data, false).value, events) == []
  {
    WindowIsObeyed(Build(pgn, data, false).value, events);
  }

  function Finally(s: Sender, events: seq<Event>): (end: Sender)
    requires ValidSender(s)
    ensures ValidSender(end)
    decreases |events|
  {
    if events == [] then s else Finally(Apply(s, events[0]).0, events[1..])
  }

  ghost predicate Acknowledged(s: Sender, events: seq<Event>) {
    exists e :: e in events && e.Hear? && e.cm.EndOfMsgAck? && e.cm.pgn == s.pgn
  }

  /** An addressed sender takes any acknowledgement of its group for the end of
      its transfer: it is complete exactly when it has heard one. */
  lemma {:induction false} CompleteIffAcknowledged(s: Sender, events: seq<Event>)
    requires ValidSender(s) && !s.broadcast
    ensures Finally(s, events).complete <==> s.complete || Acknowledged(s, events)
    decreases |events|
  {
    if events != [] {
      var s' := Apply(s, events[0]).0;
      CompleteIffAcknowledged(s', events[1..]);
      assert s'.pgn == s.pgn && s'.broadcast == s.broadcast;
      assert forall e :: e in events <==> e == events[0] || e in events[1..];
    }
  }

  /** So complete does not mean sent, for the sender alone: an early
      acknowledgement completes a transfer of which nothing has gone out. */
  lemma EarlyAckCompletes(pgn: Pgn, data: seq<Byte>, size: U16, packets: Byte)
    requires Build(pgn, data, false).Ok?
    ensures var s := Build(pgn, data, false).value;
      var events := [Hear(EndOfMsgAck(size, packets, pgn))];
      Finally(s, events).complete && Emitted(s, events) == []
  {
    var s := Build(pgn, data, false).value;
    var events := [Hear(EndOfMsgAck(size, packets, pgn))];
    assert events[1..] == [];
    assert Finally(s, events) == Finally(Apply(s, events[0]).0, []);
  }
}
