/** The receive side of the extended transport protocol: the same slots and
    buffers, with blocks placed by their announced offset. */
module EtpReassembler {
  import opened Buffers
  import opened Types
  import opened EtpSpec
  import Tp = TpSpec
  import opened Slots

  /** One slot after a tick. */
  function TickedSlot(slot: Option<Session>, elapsed: U16, timeout: U16): Option<Session> {
    match slot
    case None => None
    case Some(s) =>
      var aged := s.(idleMs := SatAdd16(s.idleMs, elapsed));
      if aged.idleMs > timeout then None else Some(aged)
  }

  function ExpiryAbort(s: Session): EtpCm {
    Abort(Tp.Timeout, s.pgn)
  }

  /** What a tick has to say of one slot: its peer, if that is dropped. */
  function Report(slot: Option<Session>, elapsed: U16, timeout: U16): Option<(Address, EtpCm)> {
    if slot.Some? && TickedSlot(slot, elapsed, timeout).None?
    then Some((slot.value.source, ExpiryAbort(slot.value)))
    else None
  }

  /** What a tick reports for a peer it drops. */
  predicate IsExpiry(peers: Peers, e: (Address, EtpCm), elapsed: U16, timeout: U16) {
    e.0 in peers && Expires(peers[e.0], elapsed, timeout) && e.1 == ExpiryAbort(peers[e.0].session)
  }

  /** What a tick has to say, slot by slot. */
  function RowReports(row: seq<Option<Session>>, elapsed: U16, timeout: U16): (r: seq<Option<(Address, EtpCm)>>)
    ensures |r| == |row| && forall i :: 0 <= i < |r| ==> r[i] == Report(row[i], elapsed, timeout)
  {
    seq(|row|, i requires 0 <= i < |row| => Report(row[i], elapsed, timeout))
  }

  function TickedRow(row: seq<Option<Session>>, elapsed: U16, timeout: U16): (r: seq<Option<Session>>)
    ensures |r| == |row| && forall i :: 0 <= i < |r| ==> r[i] == TickedSlot(row[i], elapsed, timeout)
  {
    seq(|row|, i requires 0 <= i < |row| => TickedSlot(row[i], elapsed, timeout))
  }

  function Sessions(peers: Peers): map<Address, Session> {
    map a | a in peers :: peers[a].session
  }

  lemma SessionsCount(peers: Peers)
    ensures |Sessions(peers)| == |peers|
  {
    assert Sessions(peers).Keys == peers.Keys;
  }

  lemma SessionsAfter(peers: Peers, a: Address, t: Transfer)
    ensures Sessions(peers[a := t]) == Sessions(peers)[a := t.session]
    ensures Sessions(peers - {a}) == Sessions(peers) - {a}
  {
  }

  /** Ticking every slot of a row is ticking every peer. */
  lemma TickAgrees(row: seq<Option<Session>>, index: map<Address, nat>, peers: Peers, elapsed: U16, timeout: U16)
    requires Agrees(row, index, Sessions(peers))
    ensures var ticked := Sessions(TickPeers(peers, elapsed, timeout));
      Agrees(TickedRow(row, elapsed, timeout), Kept(index, ticked), ticked)
  {
    var ticked := Sessions(TickPeers(peers, elapsed, timeout));
    ChangesAgree(row, TickedRow(row, elapsed, timeout), index, Sessions(peers), ticked);
  }

  /** `peers` is the abstract state: the transfer each peer has in progress.
      Valid ties it to the slots and the buffers. */
  class Reassembler {
    const capacity: nat
    const slots: array<Option<Session>>
    const buffers: array2<Byte>
    ghost var peers: Peers
    ghost var slotIndex: map<Address, nat>

    /** The buffer of slot i begins with these bytes. */
    ghost predicate Stores(i: nat, bytes: seq<Byte>)
      reads buffers
    {
      && i < buffers.Length0
      && |bytes| <= buffers.Length1
      && forall j :: 0 <= j < |bytes| ==> buffers[i, j] == bytes[j]
    }

    ghost predicate Valid()
      reads this, slots, buffers
    {
      && buffers.Length0 == slots.Length
      && buffers.Length1 == capacity
      && ValidPeers(peers, capacity)
      && Agrees(slots[..], slotIndex, Sessions(peers))
      && Filled(slotIndex, peers)
    }

    /** Each peer's slot begins with the bytes accepted from it. */
    ghost predicate Filled(index: map<Address, nat>, transfers: Peers)
      reads buffers
    {
      index.Keys == transfers.Keys && forall a :: a in transfers ==> Stores(index[a], transfers[a].filled)
    }

    /** Slot `index` is the one that holds this peer's session. */
    ghost predicate Holds(index: nat, source: Address)
      reads this, slots
    {
      && source in slotIndex && index == slotIndex[source] && source in peers
      && index < slots.Length && slots[index] == Some(peers[source].session)
    }

    lemma HeldByIndex(source: Address)
      requires Valid() && source in slotIndex
      ensures Holds(slotIndex[source], source) && peers[source].session.source == source
    {
      assert slots[..][slotIndex[source]] == Some(Sessions(peers)[source]);
    }

    lemma OccupiedIsHeld(i: nat)
      requires Valid() && i < slots.Length && slots[i].Some?
      ensures Holds(i, slots[i].value.source)
    {
      var a := HolderOf(slots[..], slotIndex, Sessions(peers), i);
      HeldByIndex(a);
    }

    constructor (capacity: nat, sessions: nat)
      ensures Valid() && peers == map[]
      ensures this.capacity == capacity && slots.Length == sessions
      ensures fresh(slots) && fresh(buffers)
    {
      this.capacity := capacity;
      slots := new Option<Session>[sessions](_ => None);
      buffers := new Byte[sessions, capacity]((_, _) => 0);
      peers := map[];
      slotIndex := map[];
    }

    /** The number of sessions never exceeds the number of slots, and room for
        one more peer is exactly a free slot. */
    lemma RoomIsAFreeSlot()
      requires Valid()
      ensures |peers| <= slots.Length
      ensures |peers| < slots.Length <==> exists i :: 0 <= i < slots.Length && slots[i].None?
    {
      RoomIsFree(slots[..], slotIndex, Sessions(peers));
      SessionsCount(peers);
    }

    method SlotOf(source: Address) returns (index: Option<nat>)
      requires Valid()
      ensures index.Some? <==> source in slotIndex
      ensures index.Some? ==> Holds(index.value, source)
    {
      for i := 0 to slots.Length
        invariant forall j :: 0 <= j < i && slots[j].Some? ==> slots[j].value.source != source
      {
        if slots[i].Some? && slots[i].value.source == source {
          OccupiedIsHeld(i);
          return Some(i);
        }
      }
      if source in slotIndex {
        HeldByIndex(source);
      }
      return None;
    }

    method FirstFree() returns (index: Option<nat>)
      ensures index.Some? ==> index.value < slots.Length && slots[index.value].None?
      ensures index.None? ==> forall i :: 0 <= i < slots.Length ==> slots[i].Some?
    {
      for i := 0 to slots.Length
        invariant forall j :: 0 <= j < i ==> slots[j].Some?
      {
        if slots[i].None? {
          return Some(i);
        }
      }
      return None;
    }

    method FreeSlot() returns (index: Option<nat>)
      requires Valid()
      ensures index.Some? <==> |peers| < slots.Length
      ensures index.Some? ==> index.value < slots.Length && slots[index.value].None?
    {
      RoomIsAFreeSlot();
      index := FirstFree();
    }

    method Release(index: nat, source: Address)
      requires Valid() && Holds(index, source)
      modifies this`peers, this`slotIndex, slots
      ensures Valid()
      ensures peers == old(peers) - {source}
    {
      ReleaseAgrees(slots[..], slotIndex, Sessions(peers), source);
      SessionsAfter(peers, source, peers[source]);
      slots[index] := None;
      slotIndex := slotIndex - {source};
      peers := peers - {source};
      assert slots[..] == old(slots[..])[index := None];
    }

    method Abandon(source: Address) returns (had: bool)
      requires Valid()
      modifies this`peers, this`slotIndex, slots
      ensures Valid()
      ensures had <==> source in old(peers)
      ensures peers == old(peers) - {source}
    {
      var index := SlotOf(source);
      had := index.Some?;
      if had {
        Release(index.value, source);
      }
    }

    method Reset()
      requires Valid()
      modifies this`peers, this`slotIndex, slots
      ensures Valid() && peers == map[]
    {
      for i := 0 to slots.Length
        invariant forall j :: 0 <= j < i ==> slots[j].None?
      {
        slots[i] := None;
      }
      slotIndex := map[];
      peers := map[];
    }

    lemma PlaceKeepsValid(index: nat, t: Transfer)
      requires Valid() && index < slots.Length && ValidTransfer(t, capacity)
      requires if t.session.source in slotIndex then slotIndex[t.session.source] == index else slots[index].None?
      requires Stores(index, t.filled)
      ensures var after, index' := peers[t.session.source := t], slotIndex[t.session.source := index];
        && ValidPeers(after, capacity)
        && Agrees(slots[..][index := Some(t.session)], index', Sessions(after))
        && Filled(index', after)
    {
      PutKeepsValid(peers, t, capacity);
      PlaceAgrees(slots[..], slotIndex, Sessions(peers), index, t.session.source, t.session);
      SessionsAfter(peers, t.session.source, t);
    }

    /** Put a session into a slot that is free or already this peer's. */
    method Place(index: nat, session: Session, ghost filled: seq<Byte>)
      requires Valid() && index < slots.Length
      requires if session.source in slotIndex then slotIndex[session.source] == index else slots[index].None?
      requires ValidTransfer(Transfer(session, filled), capacity)
      requires Stores(index, filled)
      modifies this`peers, this`slotIndex, slots
      ensures Valid()
      ensures peers == old(peers)[session.source := Transfer(session, filled)]
    {
      PlaceKeepsValid(index, Transfer(session, filled));
      slots[index] := Some(session);
      slotIndex := slotIndex[session.source := index];
      peers := peers[session.source := Transfer(session, filled)];
      assert slots[..] == old(slots[..])[index := Some(session)];
    }

    method OnRts(source: Address, size: U32, pgn: Pgn) returns (rx: Rx)
      requires Valid()
      modifies this`peers, this`slotIndex, slots
      ensures Valid()
      ensures (peers, rx) == TakeRts(old(peers), source, size, pgn, capacity, slots.Length)
    {
      if !(MIN_MESSAGE_SIZE <= size <= MAX_MESSAGE_SIZE) {
        return Send(Abort(Tp.Other(0xFF), pgn));
      }
      if size > capacity {
        return Send(Abort(Tp.ResourcesUnavailable, pgn));
      }
      var held := SlotOf(source);
      if held.Some? {
        return Send(Abort(Tp.AlreadyInSession, pgn));
      }
      var index := FreeSlot();
      if index.None? {
        return Send(Abort(Tp.ResourcesUnavailable, pgn));
      }
      var packets := PacketCount(size);
      var block := BlockSize(packets);
      Place(index.value, Session(source, pgn, size, packets, 1, block, None, 1, 0), []);
      return Send(Cts(block, 1, pgn));
    }

    method OnDpo(source: Address, packets: Byte, offset: U24, pgn: Pgn) returns (rx: Rx)
      requires Valid()
      modifies this`peers, this`slotIndex, slots
      ensures Valid()
      ensures (peers, rx) == TakeCm(old(peers), source, Dpo(packets, offset, pgn), capacity, slots.Length)
    {
      var held := SlotOf(source);
      if held.None? {
        return Idle;
      }
      var index := held.value;
      var session := slots[index].value;
      if offset + 1 != session.blockStart || packets != session.blockPackets {
        Release(index, source);
        return Send(Abort(Tp.UnexpectedDataPacket, session.pgn));
      }
      ghost var filled := peers[source].filled[..(session.blockStart - 1) * 7];
      Place(index, session.(offset := Some(offset), nextSequence := 1, idleMs := 0), filled);
      return Idle;
    }

    method OnAbort(source: Address, pgn: Pgn)
      requires Valid()
      modifies this`peers, this`slotIndex, slots
      ensures Valid()
      ensures forall reason :: peers == TakeCm(old(peers), source, Abort(reason, pgn), capacity, slots.Length).0
    {
      var held := SlotOf(source);
      if held.Some? {
        if slots[held.value].value.pgn == pgn {
          Release(held.value, source);
        }
      }
    }

    method OnEtpCm(source: Address, cm: EtpCm) returns (rx: Rx)
      requires Valid()
      modifies this`peers, this`slotIndex, slots
      ensures Valid()
      ensures (peers, rx) == TakeCm(old(peers), source, cm, capacity, slots.Length)
    {
      rx := Idle;
      match cm
      case Rts(size, pgn) => rx := OnRts(source, size, pgn);
      case Dpo(packets, offset, pgn) => rx := OnDpo(source, packets, offset, pgn);
      case Abort(_, pgn) => OnAbort(source, pgn);
      case Cts(_, _, _) =>
      case Eoma(_, _) =>
    }

    /** Copy one packet's slice of the message behind what slot `index` holds;
        no transfer has accepted it yet. */
    method Store(index: nat, source: Address, dt: EtpDt, start: nat, end: nat) returns (ghost filled: seq<Byte>)
      requires Valid() && Holds(index, source)
      requires start == |peers[source].filled| && start <= end <= start + 7 && end <= capacity
      modifies buffers
      ensures Valid()
      ensures filled == peers[source].filled + dt.data[..end - start]
      ensures Stores(index, filled)
    {
      assert forall a :: a in peers && a != source ==> slotIndex[a] != index;
      CopyIntoRow(buffers, index, start, dt.data[..end - start]);
      filled := peers[source].filled + dt.data[..end - start];
    }

    /** Hand over the message that fills slot `index`, and free the slot. */
    method Deliver(index: nat, source: Address, ghost filled: seq<Byte>) returns (rx: Rx)
      requires Valid() && Holds(index, source)
      requires Stores(index, filled) && |filled| == slots[index].value.size
      modifies this`peers, this`slotIndex, slots
      ensures Valid() && peers == old(peers) - {source}
      ensures var s := old(peers)[source].session; rx == Message(s.pgn, source, filled, Eoma(s.size, s.pgn))
    {
      var session := slots[index].value;
      var data := seq(session.size, j requires 0 <= j < session.size reads buffers => buffers[index, j]);
      assert data == filled;
      Release(index, source);
      return Message(session.pgn, session.source, data, Eoma(session.size, session.pgn));
    }

    method Continue(index: nat, source: Address, ghost filled: seq<Byte>) returns (rx: Rx)
      requires Valid() && Holds(index, source)
      requires slots[index].value.offset.Some? && Position(slots[index].value) + 1 < slots[index].value.packets
      requires |filled| == (Position(slots[index].value) + 1) * 7 && Stores(index, filled)
      modifies this`peers, this`slotIndex, slots
      ensures Valid()
      ensures var (session, answer) := Progressed(old(peers)[source].session, capacity);
        rx == answer && peers == old(peers)[source := Transfer(session, filled)]
    {
      ghost var (later, answer) := Progressed(slots[index].value, capacity);
      var session := slots[index].value.(idleMs := 0);
      rx := Idle;
      if session.nextSequence >= session.blockPackets {
        var nextStart := session.blockStart + session.blockPackets;
        var block := BlockSize(session.packets - nextStart + 1);
        session := session.(blockStart := nextStart, blockPackets := block, offset := None, nextSequence := 1);
        rx := Send(Cts(block, nextStart, session.pgn));
      } else {
        session := session.(nextSequence := session.nextSequence + 1);
      }
      assert session == later && rx == answer;
      Place(index, session, filled);
    }

    /** The source's own abort for a packet that starts past the end cannot be
        reached (EtpSpec.EveryPacketHasRoom), so it has no branch here. */
    method OnEtpDt(source: Address, dt: EtpDt) returns (rx: Rx)
      requires Valid()
      modifies this`peers, this`slotIndex, slots, buffers
      ensures Valid()
      ensures (peers, rx) == TakeDt(old(peers), source, dt, capacity)
    {
      var held := SlotOf(source);
      if held.None? {
        return Idle;
      }
      var index := held.value;
      var session := slots[index].value;

      if session.offset.None? {
        Release(index, source);
        return Send(Abort(Tp.UnexpectedDataPacket, session.pgn));
      }
      if dt.sequence != session.nextSequence {
        Release(index, source);
        var reason := if dt.sequence < session.nextSequence then Tp.DuplicateSequenceNumber else Tp.BadSequenceNumber;
        return Send(Abort(reason, session.pgn));
      }
      ExpectedPacketIs(peers, source, dt, capacity);
      rx := Accept(index, source, dt);
    }

    /** The packet a session expects: store it, and deliver the message, open
        the next block or go on. */
    method Accept(index: nat, source: Address, dt: EtpDt) returns (rx: Rx)
      requires Valid() && Holds(index, source) && |peers[source].filled| <= peers[source].session.size
      requires slots[index].value.offset.Some? && dt.sequence == slots[index].value.nextSequence
      modifies this`peers, this`slotIndex, slots, buffers
      ensures Valid()
      ensures var s, filled := old(peers)[source].session, Extended(old(peers)[source], dt);
        if Position(s) + 1 < s.packets then
          peers == old(peers)[source := Transfer(Progressed(s, capacity).0, filled)] && rx == Progressed(s, capacity).1
        else
          peers == old(peers) - {source} && rx == Message(s.pgn, source, filled, Eoma(s.size, s.pgn))
    {
      var session := slots[index].value;
      ExpectedPacketFits(peers[source], dt, capacity);
      var absolute := session.offset.value + dt.sequence;
      var start := (absolute - 1) * 7;
      var end := Min(start + 7, session.size);
      ghost var filled := Store(index, source, dt, start, end);
      if absolute >= session.packets {
        rx := Deliver(index, source, filled);
      } else {
        rx := Continue(index, source, filled);
      }
    }

    /** Bytes received of a peer's transfer, counted by whole blocks: never more
        than were accepted, and fewer by less than one block. */
    method Progress(source: Address) returns (p: Option<(U32, U32)>)
      requires Valid()
      ensures p.Some? <==> source in peers
      ensures p.Some? ==>
        && p.value.1 == peers[source].session.size
        && p.value.0 <= |peers[source].filled| < p.value.0 + 255 * 7
        && p.value.0 < p.value.1
    {
      var held := SlotOf(source);
      if held.None? {
        return None;
      }
      var session := slots[held.value].value;
      var received := SatSub(session.blockStart, 1) * 7;
      return Some((Min(received, session.size), session.size));
    }

    /** The loop over the slots: each one ticks, and each one that empties is
        reported, in slot order. */
    method AgeSlots(elapsed: U16, timeout: U16) returns (expired: seq<(Address, EtpCm)>)
      modifies slots
      ensures forall i :: 0 <= i < slots.Length ==> slots[i] == TickedSlot(old(slots[i]), elapsed, timeout)
      ensures expired == Reports(RowReports(old(slots[..]), elapsed, timeout))
    {
      expired := [];
      ghost var before := slots[..];
      for i := 0 to slots.Length
        invariant forall j :: i <= j < slots.Length ==> slots[j] == before[j]
        invariant forall j :: 0 <= j < i ==> slots[j] == TickedSlot(before[j], elapsed, timeout)
        invariant expired == Reports(RowReports(before[..i], elapsed, timeout))
      {
        assert RowReports(before[..i + 1], elapsed, timeout)[..i] == RowReports(before[..i], elapsed, timeout);
        if slots[i].Some? {
          var session := slots[i].value;
          session := session.(idleMs := SatAdd16(session.idleMs, elapsed));
          if session.idleMs <= timeout {
            slots[i] := Some(session);
          } else {
            slots[i] := None;
            expired := expired + [(session.source, ExpiryAbort(session))];
          }
        }
      }
      assert before[..slots.Length] == before;
    }

    /** The loop, with the abstract state brought along. */
    method AgePeers(elapsed: U16, timeout: U16) returns (expired: seq<(Address, EtpCm)>)
      requires Valid()
      modifies this`peers, this`slotIndex, slots
      ensures Valid()
      ensures peers == TickPeers(old(peers), elapsed, timeout)
      ensures expired == Reports(RowReports(old(slots[..]), elapsed, timeout))
    {
      ghost var row := slots[..];
      TickAgrees(row, slotIndex, peers, elapsed, timeout);
      TickKeepsValid(peers, elapsed, timeout, capacity);
      expired := AgeSlots(elapsed, timeout);
      peers := TickPeers(peers, elapsed, timeout);
      slotIndex := Kept(slotIndex, peers);
      assert slots[..] == TickedRow(row, elapsed, timeout);
    }

    /** Each session that has been idle longer than the timeout is reported
        exactly once, with its abort; the rest only age. */
    method Tick(elapsed: U16, timeout: U16) returns (expired: seq<(Address, EtpCm)>)
      requires Valid()
      modifies this`peers, this`slotIndex, slots
      ensures Valid()
      ensures peers == TickPeers(old(peers), elapsed, timeout)
      ensures forall p, q :: 0 <= p < q < |expired| ==> expired[p].0 != expired[q].0
      ensures forall e :: e in expired <==> IsExpiry(old(peers), e, elapsed, timeout)
    {
      Reported(elapsed, timeout);
      expired := AgePeers(elapsed, timeout);
    }

    /** What the loop reports, slot by slot, is what the peers' timers say. */
    lemma Reported(elapsed: U16, timeout: U16)
      requires Valid()
      ensures var expired := Reports(RowReports(slots[..], elapsed, timeout));
        && (forall p, q :: 0 <= p < q < |expired| ==> expired[p].0 != expired[q].0)
        && (forall e :: e in expired <==> IsExpiry(peers, e, elapsed, timeout))
    {
      var all := RowReports(slots[..], elapsed, timeout);
      forall i | 0 <= i < |all| && all[i].Some?
        ensures var a := all[i].value.0;
          a in slotIndex && slotIndex[a] == i && IsExpiry(peers, all[i].value, elapsed, timeout)
      {
        SlotReported(i, elapsed, timeout);
      }
      ReportsDistinct(all);
      forall e: (Address, EtpCm) ensures e in Reports(all) <==> IsExpiry(peers, e, elapsed, timeout) {
        ReportsAre(all, e);
        if IsExpiry(peers, e, elapsed, timeout) {
          HeldByIndex(e.0);
          assert all[slotIndex[e.0]] == Some(e);
        }
      }
    }

    lemma SlotReported(i: nat, elapsed: U16, timeout: U16)
      requires Valid() && i < slots.Length && Report(slots[i], elapsed, timeout).Some?
      ensures var e := Report(slots[i], elapsed, timeout).value;
        e.0 in slotIndex && slotIndex[e.0] == i && IsExpiry(peers, e, elapsed, timeout)
    {
      OccupiedIsHeld(i);
    }
  }
}
