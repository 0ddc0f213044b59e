/** The schedule as the crate holds it: an array of entries, updated in place. */
module Schedule {
  import opened Types
  import opened ScheduleSpec

  lemma FirstAt(entries: seq<Entry>, key: Due, i: nat)
    requires i < |entries| && entries[i].key == key
    requires forall k :: 0 <= k < i ==> entries[k].key != key
    ensures Position(entries, key) == Some(i)
  {
    var r := Position(entries, key);
    assert r.Some? && entries[r.value].key == key;
  }

  lemma FirstDueAt(entries: seq<Entry>, i: nat)
    requires i < |entries| && entries[i].due
    requires forall k :: 0 <= k < i ==> !entries[k].due
    ensures FirstDue(entries) == Some(i)
  {
    var r := FirstDue(entries);
    assert r.Some? && entries[r.value].due;
  }

  class Schedule {
    const entries: array<Entry>
    var len: nat
    var suspendedMs: U16

    ghost predicate Shape()
      reads this
    {
      len <= entries.Length
    }

    ghost function View(): Sched
      reads this, entries
      requires Shape()
    {
      Sched(entries[..len], suspendedMs)
    }

    ghost predicate Valid()
      reads this, entries
    {
      Shape() && Inv(View(), entries.Length)
    }

    constructor (capacity: nat)
      ensures Valid() && fresh(entries)
      ensures entries.Length == capacity && View() == EMPTY
    {
      entries := new Entry[capacity](_ => Entry(Due(0, GLOBAL_ADDRESS), 1, 0, false));
      len, suspendedMs := 0, 0;
    }

    method IndexOf(key: Due) returns (r: Option<nat>)
      requires Shape()
      ensures r == Position(entries[..len], key)
    {
      for i := 0 to len
        invariant forall k :: 0 <= k < i ==> entries[k].key != key
      {
        if entries[i].key == key {
          FirstAt(entries[..len], key, i);
          return Some(i);
        }
      }
      assert forall k :: 0 <= k < len ==> entries[..len][k].key != key;
      return None;
    }

    method SendEvery(key: Due, period: U16) returns (r: Result<()>)
      requires Valid()
      modifies `len, entries
      ensures Valid()
      ensures (View(), r) == ScheduleSpec.SendEvery(old(View()), key, period, entries.Length)
    {
      if period == 0 {
        return Err(ValueOutOfRange(PERIOD_FIELD, 0));
      }
      SendEveryKeepsInv(View(), key, period, entries.Length);
      var index := IndexOf(key);
      if index.Some? {
        var e := entries[index.value];
        entries[index.value] := e.(period := period, elapsed := Min(e.elapsed, period - 1));
        return Ok(());
      }
      if len == entries.Length {
        return Err(ValueOutOfRange(CAPACITY_FIELD, entries.Length % 0x1_0000_0000));
      }
      entries[len] := Entry(key, period, 0, false);
      len := len + 1;
      assert entries[..len] == old(entries[..len]) + [Entry(key, period, 0, false)];
      return Ok(());
    }

    method Remove(key: Due) returns (had: bool)
      requires Valid()
      modifies `len, entries
      ensures Valid()
      ensures (View(), had) == ScheduleSpec.Remove(old(View()), key)
    {
      RemoveKeepsInv(View(), key, entries.Length);
      var index := IndexOf(key);
      if index.None? {
        return false;
      }
      forall i | index.value <= i < len - 1 {
        entries[i] := entries[i + 1];
      }
      len := len - 1;
      assert entries[..len] == old(entries[..len])[..index.value] + old(entries[..len])[index.value + 1..];
      return true;
    }

    method Clear()
      requires Valid()
      modifies `len
      ensures Valid()
      ensures View() == old(View()).(entries := [])
    {
      len := 0;
    }

    /** Advance every timer; says how many messages now wait. */
    method Tick(ms: U16) returns (waiting: nat)
      requires Valid()
      modifies `suspendedMs, entries
      ensures Valid()
      ensures View() == ScheduleSpec.Tick(old(View()), ms)
      ensures waiting == if old(suspendedMs) > 0 then 0 else Pending(View().entries)
    {
      TickKeepsInv(View(), ms, entries.Length);
      if suspendedMs > 0 {
        suspendedMs := SatSub(suspendedMs, ms);
        return 0;
      }
      AgeEntries(ms);
      waiting := CountPending();
    }

    method AgeEntries(ms: U16)
      requires Shape() && Periodic(entries[..len])
      modifies entries
      ensures entries[..len] == TickEntries(old(entries[..len]), ms)
    {
      ghost var before := entries[..len];
      for i := 0 to len
        invariant forall k :: 0 <= k < i ==> entries[k] == TickEntry(before[k], ms)
        invariant forall k :: i <= k < len ==> entries[k] == before[k]
      {
        var e := entries[i];
        e := e.(elapsed := SatAdd16(e.elapsed, ms));
        if e.elapsed >= e.period {
          e := e.(elapsed := e.elapsed % e.period, due := true);
        }
        entries[i] := e;
      }
    }

    method CountPending() returns (n: nat)
      requires Shape()
      ensures n == Pending(entries[..len])
    {
      n := 0;
      for i := 0 to len
        invariant n == Pending(entries[..i])
      {
        assert entries[..i + 1][..i] == entries[..i];
        if entries[i].due {
          n := n + 1;
        }
      }
    }

    method NextDue() returns (due: Option<Due>)
      requires Valid()
      modifies entries
      ensures Valid()
      ensures (View(), due) == ScheduleSpec.NextDue(old(View()))
    {
      NextDueKeepsInv(View(), entries.Length);
      for i := 0 to len
        invariant forall k :: 0 <= k < i ==> !entries[k].due
        invariant entries[..] == old(entries[..])
      {
        if entries[i].due {
          FirstDueAt(entries[..len], i);
          entries[i] := entries[i].(due := false);
          return Some(entries[i].key);
        }
      }
      assert forall k :: 0 <= k < len ==> !entries[..len][k].due;
      return None;
    }

    method Suspend(timeout: U16)
      requires Valid()
      modifies `suspendedMs, entries
      ensures Valid()
      ensures View() == ScheduleSpec.Suspend(old(View()), timeout)
    {
      SuspendKeepsInv(View(), timeout, entries.Length);
      ghost var before := entries[..len];
      suspendedMs := timeout;
      for i := 0 to len
        invariant suspendedMs == timeout
        invariant forall k :: 0 <= k < i ==> entries[k] == before[k].(due := false)
        invariant forall k :: i <= k < len ==> entries[k] == before[k]
      {
        entries[i] := entries[i].(due := false);
      }
      assert entries[..len] == Drained(before);
    }

    method Resume()
      requires Valid()
      modifies `suspendedMs
      ensures Valid()
      ensures View() == ScheduleSpec.Resume(old(View()))
    {
      suspendedMs := 0;
    }
  }
}
