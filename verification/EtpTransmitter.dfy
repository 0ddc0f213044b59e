/** The send side of the extended transport protocol as the source keeps it. */
module EtpTransmitter {
  import opened Types
  import opened EtpSpec
  import Tp = TpSpec

  class Transmitter {
    const pgn: Pgn
    const data: seq<Byte>
    const packets: U24
    var blockStart: U24
    var blockPackets: Byte
    var offsetSent: bool
    var nextSequence: U16
    var complete: bool

    function View(): Sender
      reads this
    {
      Sender(pgn, data, packets, blockStart, blockPackets, offsetSent, nextSequence, complete)
    }

    ghost predicate Valid()
      reads this
    {
      ValidSender(View())
    }

    constructor (s: Sender)
      requires ValidSender(s)
      ensures View() == s
    {
      pgn := s.pgn;
      data := s.data;
      packets := s.packets;
      blockStart := s.blockStart;
      blockPackets := s.blockPackets;
      offsetSent := s.offsetSent;
      nextSequence := s.nextSequence;
      complete := s.complete;
    }

    static method New(pgn: Pgn, data: seq<Byte>) returns (r: Result<Transmitter>)
      ensures r.Ok? ==> fresh(r.value) && r.value.Valid()
      ensures match Build(pgn, data)
        case Ok(s) => r.Ok? && r.value.View() == s
        case Err(e) => r == Err(e)
    {
      match Build(pgn, data)
      case Ok(s) =>
        var t := new Transmitter(s);
        r := Ok(t);
      case Err(e) =>
        r := Err(e);
    }

    method Offset() returns (dpo: Option<EtpCm>)
      requires Valid()
      modifies this`offsetSent
      ensures Valid()
      ensures (View(), dpo) == NextOffset(old(View()))
    {
      if offsetSent || blockPackets == 0 {
        return None;
      }
      offsetSent := true;
      return Some(Dpo(blockPackets, blockStart - 1, pgn));
    }

    method OnEtpCm(cm: EtpCm) returns (tx: Tx)
      requires Valid()
      modifies this`blockStart, this`blockPackets, this`offsetSent, this`nextSequence, this`complete
      ensures Valid()
      ensures (View(), tx) == OnCm(old(View()), cm)
    {
      if cm.pgn != pgn {
        return TxIdle;
      }
      match cm
      case Cts(granted, nextPacket, _) =>
        if granted == 0 || nextPacket == 0 || nextPacket > packets {
          return TxIdle;
        }
        var remaining := packets - nextPacket + 1;
        blockStart := nextPacket;
        blockPackets := Min(BlockSize(remaining), granted);
        offsetSent := false;
        nextSequence := 1;
        return SendData;
      case Eoma(_, _) =>
        complete := true;
        return Complete;
      case Abort(reason, _) =>
        return Aborted(reason);
      case Rts(_, _) =>
        return TxIdle;
      case Dpo(_, _, _) =>
        return TxIdle;
    }

    /** The source also stops at the end of the message; a block never reaches
        past it, so that guard is implied. */
    method NextDt() returns (dt: Option<EtpDt>)
      requires Valid()
      modifies this`nextSequence
      ensures Valid()
      ensures (View(), dt) == NextPacket(old(View()))
    {
      if blockPackets == 0 || nextSequence > blockPackets {
        return None;
      }
      var absolute := blockStart + nextSequence - 1;
      assert absolute <= packets;
      var start := (absolute - 1) * 7;
      var end := Min(start + 7, |data|);
      dt := Some(EtpDt(nextSequence, Tp.Padded(data[start..end])));
      nextSequence := nextSequence + 1;
    }
  }

  // ------------------------------------------ what a sender may ever put out

  datatype Event = Hear(cm: EtpCm) | AskOffset | AskPacket

  function Apply(s: Sender, e: Event): (r: Sender)
    requires ValidSender(s)
    ensures ValidSender(r)
  {
    match e
    case Hear(cm) => OnCm(s, cm).0
    case AskOffset => NextOffset(s).0
    case AskPacket => NextPacket(s).0
  }

  function Offsets(s: Sender, events: seq<Event>): seq<EtpCm>
    requires ValidSender(s)
    decreases |events|
  {
    if events == [] then []
    else
      (if events[0].AskOffset? && NextOffset(s).1.Some? then [NextOffset(s).1.value] else [])
      + Offsets(Apply(s, events[0]), events[1..])
  }

  function Emitted(s: Sender, events: seq<Event>): seq<EtpDt>
    requires ValidSender(s)
    decreases |events|
  {
    if events == [] then []
    else
      (if events[0].AskPacket? && NextPacket(s).1.Some? then [NextPacket(s).1.value] else [])
      + Emitted(Apply(s, events[0]), events[1..])
  }

  ghost predicate NoGrant(s: Sender, events: seq<Event>) {
    forall e :: e in events && e.Hear? ==> !Accepts(s, e.cm)
  }

  /** dt, numbered within a block announced at this offset, is the chunk of the
      payload its offset and its number add up to. */
  predicate IsChunkAt(dt: EtpDt, data: seq<Byte>, offset: nat) {
    && 1 <= dt.sequence && (offset + dt.sequence - 1) * 7 < |data|
    && dt == Packet(data, offset + dt.sequence, dt.sequence)
  }

  lemma BlockStands(s: Sender, e: Event)
    requires ValidSender(s) && !(e.Hear? && Accepts(s, e.cm))
    ensures var s' := Apply(s, e);
      && s'.data == s.data && s'.pgn == s.pgn && s'.packets == s.packets
      && s'.blockStart == s.blockStart && s'.blockPackets == s.blockPackets
      && s'.offsetSent == (s.offsetSent || (e.AskOffset? && NextOffset(s).1.Some?))
      && s'.nextSequence == s.nextSequence + if e.AskPacket? && NextPacket(s).1.Some? then 1 else 0
  {
  }

  /** Between two accepted grants: one offset at most, the block's. */
  lemma {:induction false} OffsetIsTheBlocks(s: Sender, events: seq<Event>)
    requires ValidSender(s) && NoGrant(s, events)
    ensures var offsets := Offsets(s, events);
      && |offsets| <= (if s.offsetSent then 0 else 1)
      && (forall cm :: cm in offsets ==> cm == Dpo(s.blockPackets, s.blockStart - 1, s.pgn))
    decreases |events|
  {
    if events != [] {
      assert events[0] in events;
      BlockStands(s, events[0]);
      OffsetIsTheBlocks(Apply(s, events[0]), events[1..]);
    }
  }

  /** Consecutive packets of a block, the first numbered `first`. */
  ghost predicate InOrder(sent: seq<EtpDt>, first: nat, data: seq<Byte>, offset: nat) {
    forall k :: 0 <= k < |sent| ==> sent[k].sequence == first + k && IsChunkAt(sent[k], data, offset)
  }

  lemma OneMoreInOrder(dt: EtpDt, sent: seq<EtpDt>, first: nat, data: seq<Byte>, offset: nat)
    requires dt.sequence == first && IsChunkAt(dt, data, offset) && InOrder(sent, first + 1, data, offset)
    ensures InOrder([dt] + sent, first, data, offset)
  {
  }

  lemma NextIsChunk(s: Sender)
    requires ValidSender(s) && NextPacket(s).1.Some?
    ensures NextPacket(s).1.value.sequence == s.nextSequence <= s.blockPackets
    ensures IsChunkAt(NextPacket(s).1.value, s.data, s.blockStart - 1)
  {
  }

  /** Between two accepted grants: packets consecutive, within the block, and
      each the chunk that the block's start and its number add up to. */
  lemma {:induction false} BlockIsObeyed(s: Sender, events: seq<Event>, first: nat, data: seq<Byte>, offset: nat)
    requires ValidSender(s) && NoGrant(s, events)
    requires first == s.nextSequence && data == s.data && offset == s.blockStart - 1
    ensures |Emitted(s, events)| <= s.blockPackets + 1 - first
    ensures InOrder(Emitted(s, events), first, data, offset)
    decreases |events|
  {
    if events != [] {
      var s' := Apply(s, events[0]);
      assert events[0] in events;
      BlockStands(s, events[0]);
      var rest := Emitted(s', events[1..]);
      if events[0].AskPacket? && NextPacket(s).1.Some? {
        var dt := NextPacket(s).1.value;
        BlockIsObeyed(s', events[1..], first + 1, data, offset);
        NextIsChunk(s);
        OneMoreInOrder(dt, rest, first, data, offset);
        assert Emitted(s, events) == [dt] + rest;
      } else {
        BlockIsObeyed(s', events[1..], first, data, offset);
        assert Emitted(s, events) == [] + rest == rest;
      }
    }
  }

  /** A grant opens a block at the packet it names, no longer than it says and
      never past the message; until the next grant every packet q sent is chunk
      next - 1 + q, and the offset announced, if any, says just that. */
  lemma GrantOpensItsBlock(s: Sender, cm: EtpCm, events: seq<Event>)
    requires ValidSender(s) && Accepts(s, cm) && NoGrant(s, events)
    ensures var s' := OnCm(s, cm).0;
      var sent, offsets := Emitted(s', events), Offsets(s', events);
      && |sent| <= cm.packets && cm.nextPacket - 1 + |sent| <= s.packets
      && InOrder(sent, 1, s.data, cm.nextPacket - 1)
      && |offsets| <= 1
      && (forall dpo :: dpo in offsets ==>
            dpo.Dpo? && dpo.offset == cm.nextPacket - 1 && dpo.packets <= cm.packets && |sent| <= dpo.packets)
  {
    var s' := OnCm(s, cm).0;
    assert forall m :: Accepts(s', m) == Accepts(s, m);
    BlockIsObeyed(s', events, 1, s.data, cm.nextPacket - 1);
    OffsetIsTheBlocks(s', events);
  }

  function Asks(n: nat): seq<Event> {
    if n == 0 then [] else [AskPacket] + Asks(n - 1)
  }

  lemma {:induction false} AsksEmit(s: Sender, n: nat)
    requires ValidSender(s)
    ensures |Emitted(s, Asks(n))| == Min(n, s.blockPackets + 1 - s.nextSequence)
    decreases n
  {
    if n > 0 {
      assert Asks(n)[1..] == Asks(n - 1);
      AsksEmit(NextPacket(s).0, n - 1);
    }
  }

  /** And it is served: its offset is there to be announced, and asked often
      enough, as many packets come as it grants, as fit a block, or as are left. */
  lemma GrantIsServed(s: Sender, cm: EtpCm, n: nat)
    requires ValidSender(s) && Accepts(s, cm)
    ensures var (s', tx) := OnCm(s, cm);
      var w := Min(255, Min(cm.packets, s.packets + 1 - cm.nextPacket));
      && tx == SendData
      && NextOffset(s').1 == Some(Dpo(w, cm.nextPacket - 1, s.pgn))
      && |Emitted(s', Asks(n))| == Min(n, w)
  {
    AsksEmit(OnCm(s, cm).0, n);
  }

  /** What a sender hears that is no accepted grant. */
  lemma OtherwiseOnlyTheEnd(s: Sender, cm: EtpCm)
    requires ValidSender(s) && !Accepts(s, cm)
    ensures var (s', tx) := OnCm(s, cm);
      && s' == s.(complete := s.complete || (cm.Eoma? && cm.pgn == s.pgn))
      && tx == if cm.pgn != s.pgn then TxIdle
               else if cm.Eoma? then Complete
               else if cm.Abort? then Aborted(cm.reason)
               else TxIdle
  {
  }

  function Finally(s: Sender, events: seq<Event>): (end: Sender)
    requires ValidSender(s)
    ensures ValidSender(end)
    decreases |events|
  {
    if events == [] then s else Finally(Apply(s, events[0]), events[1..])
  }

  ghost predicate Acknowledged(s: Sender, events: seq<Event>) {
    exists e :: e in events && e.Hear? && e.cm.Eoma? && e.cm.pgn == s.pgn
  }

  /** Over every history a sender is complete exactly when it has heard an
      acknowledgement of its group. */
  lemma {:induction false} CompleteIffAcknowledged(s: Sender, events: seq<Event>)
    requires ValidSender(s)
    ensures Finally(s, events).complete <==> s.complete || Acknowledged(s, events)
    decreases |events|
  {
    if events != [] {
      var s' := Apply(s, events[0]);
      assert s'.pgn == s.pgn;
      CompleteIffAcknowledged(s', events[1..]);
      assert events == [events[0]] + events[1..];
    }
  }

  /** A history without what is heard beside accepted grants. */
  function GrantsAndAsks(s: Sender, events: seq<Event>): seq<Event> {
    if events == [] then []
    else
      (if events[0].Hear? && !Accepts(s, events[0].cm) then [] else [events[0]]) + GrantsAndAsks(s, events[1..])
  }

  lemma {:induction false} SameGrants(s: Sender, t: Sender, events: seq<Event>)
    requires s.pgn == t.pgn && s.packets == t.packets
    ensures GrantsAndAsks(s, events) == GrantsAndAsks(t, events)
  {
    if events != [] {
      SameGrants(s, t, events[1..]);
    }
  }

  /** The sender after an event, if only accepted grants and its own moves count. */
  function Moved(s: Sender, e: Event): (r: Sender)
    requires ValidSender(s)
    ensures ValidSender(r)
  {
    if e.Hear? && !Accepts(s, e.cm) then s else Apply(s, e)
  }

  lemma OnlyGrantsMove(s: Sender, t: Sender, e: Event)
    requires ValidSender(s) && ValidSender(t) && t == s.(complete := t.complete)
    ensures var s', t' := Moved(s, e), Apply(t, e);
      && t' == s'.(complete := t'.complete)
      && (!e.Hear? ==> NextPacket(t).1 == NextPacket(s).1 && NextOffset(t).1 == NextOffset(s).1)
      && s'.pgn == s.pgn && s'.packets == s.packets
  {
    if e.Hear? && !Accepts(s, e.cm) {
      OtherwiseOnlyTheEnd(t, e.cm);
    }
  }

  lemma {:induction false} OnlyGrantsMatterFrom(s: Sender, t: Sender, events: seq<Event>)
    requires ValidSender(s) && ValidSender(t) && t == s.(complete := t.complete)
    ensures Emitted(t, events) == Emitted(s, GrantsAndAsks(s, events))
    ensures Offsets(t, events) == Offsets(s, GrantsAndAsks(s, events))
    decreases |events|
  {
    if events != [] {
      var e, rest := events[0], GrantsAndAsks(s, events[1..]);
      OnlyGrantsMove(s, t, e);
      SameGrants(s, Moved(s, e), events[1..]);
      OnlyGrantsMatterFrom(Moved(s, e), Apply(t, e), events[1..]);
      if e.Hear? && !Accepts(s, e.cm) {
        assert GrantsAndAsks(s, events) == rest;
      } else {
        assert GrantsAndAsks(s, events) == [e] + rest && ([e] + rest)[1..] == rest;
      }
    }
  }

  /** Nothing but an accepted grant changes what is sent, offsets included. */
  lemma OnlyGrantsMatter(s: Sender, events: seq<Event>)
    requires ValidSender(s)
    ensures Emitted(s, events) == Emitted(s, GrantsAndAsks(s, events))
    ensures Offsets(s, events) == Offsets(s, GrantsAndAsks(s, events))
  {
    OnlyGrantsMatterFrom(s, s, events);
  }
}
