/** The periodic transmission schedule on values. The class in Schedule.dfy is
    proved to compute exactly this. */
module ScheduleSpec {
  import opened Types

  /** What is sent and to whom; this also identifies an entry. */
  datatype Due = Due(pgn: Pgn, destination: Address)

  datatype Entry = Entry(key: Due, period: U16, elapsed: U16, due: bool)

  datatype Sched = Sched(entries: seq<Entry>, suspendedMs: U16)

  const EMPTY := Sched([], 0)

  const PERIOD_FIELD := "transmission period"
  const CAPACITY_FIELD := "schedule capacity"

  /** Where an entry stands. */
  function Position(entries: seq<Entry>, key: Due): (r: Option<nat>)
    ensures r.Some? ==> r.value < |entries| && entries[r.value].key == key
    ensures r.Some? ==> forall i :: 0 <= i < r.value ==> entries[i].key != key
    ensures r.None? ==> forall i :: 0 <= i < |entries| ==> entries[i].key != key
  {
    if entries == [] then None
    else if entries[0].key == key then Some(0)
    else
      match Position(entries[1..], key)
      case None => None
      case Some(i) => Some(i + 1)
  }

  /** The entry with a key, if there is one. */
  function Lookup(s: Sched, key: Due): Option<Entry> {
    match Position(s.entries, key)
    case None => None
    case Some(i) => Some(s.entries[i])
  }

  function SendEvery(s: Sched, key: Due, period: U16, capacity: nat): (r: (Sched, Result<()>)) {
    if period == 0 then (s, Err(ValueOutOfRange(PERIOD_FIELD, 0)))
    else
      match Position(s.entries, key)
      case Some(i) =>
        var e := s.entries[i];
        (s.(entries := s.entries[i := e.(period := period, elapsed := Min(e.elapsed, period - 1))]), Ok(()))
      case None =>
        if |s.entries| == capacity then (s, Err(ValueOutOfRange(CAPACITY_FIELD, capacity % 0x1_0000_0000)))
        else (s.(entries := s.entries + [Entry(key, period, 0, false)]), Ok(()))
  }

  function Remove(s: Sched, key: Due): (Sched, bool) {
    match Position(s.entries, key)
    case None => (s, false)
    case Some(i) => (s.(entries := s.entries[..i] + s.entries[i + 1..]), true)
  }

  function TickEntry(e: Entry, ms: U16): Entry
    requires e.period > 0
  {
    var t := SatAdd16(e.elapsed, ms);
    if t >= e.period then e.(elapsed := t % e.period, due := true) else e.(elapsed := t)
  }

  ghost predicate Periodic(entries: seq<Entry>) {
    forall i :: 0 <= i < |entries| ==> entries[i].period > 0
  }

  function TickEntries(entries: seq<Entry>, ms: U16): (r: seq<Entry>)
    requires Periodic(entries)
    ensures |r| == |entries|
    ensures forall i :: 0 <= i < |entries| ==> r[i] == TickEntry(entries[i], ms)
  {
    seq(|entries|, i requires 0 <= i < |entries| => TickEntry(entries[i], ms))
  }

  /** While suspended only the suspension runs down. */
  function Tick(s: Sched, ms: U16): Sched
    requires Periodic(s.entries)
  {
    if s.suspendedMs > 0 then s.(suspendedMs := SatSub(s.suspendedMs, ms))
    else s.(entries := TickEntries(s.entries, ms))
  }

  function Pending(entries: seq<Entry>): (n: nat)
    ensures n <= |entries|
  {
    if entries == [] then 0
    else Pending(entries[..|entries| - 1]) + if entries[|entries| - 1].due then 1 else 0
  }

  function FirstDue(entries: seq<Entry>): (r: Option<nat>)
    ensures r.Some? ==> r.value < |entries| && entries[r.value].due
    ensures r.Some? ==> forall i :: 0 <= i < r.value ==> !entries[i].due
    ensures r.None? ==> forall i :: 0 <= i < |entries| ==> !entries[i].due
  {
    if entries == [] then None
    else if entries[0].due then Some(0)
    else
      match FirstDue(entries[1..])
      case None => None
      case Some(i) => Some(i + 1)
  }

  function NextDue(s: Sched): (Sched, Option<Due>) {
    match FirstDue(s.entries)
    case None => (s, None)
    case Some(i) => (s.(entries := s.entries[i := s.entries[i].(due := false)]), Some(s.entries[i].key))
  }

  function Drained(entries: seq<Entry>): (r: seq<Entry>)
    ensures |r| == |entries|
    ensures forall i :: 0 <= i < |entries| ==> r[i] == entries[i].(due := false)
  {
    seq(|entries|, i requires 0 <= i < |entries| => entries[i].(due := false))
  }

  /** Stop for a time; what was due is dropped. */
  function Suspend(s: Sched, timeout: U16): Sched {
    Sched(Drained(s.entries), timeout)
  }

  function Resume(s: Sched): Sched {
    s.(suspendedMs := 0)
  }

  // ---------------------------------------------------------- the invariant

  ghost predicate DistinctKeys(entries: seq<Entry>) {
    forall i, j :: 0 <= i < j < |entries| ==> entries[i].key != entries[j].key
  }

  ghost predicate InPhase(entries: seq<Entry>) {
    forall i :: 0 <= i < |entries| ==> entries[i].elapsed < entries[i].period
  }

  ghost predicate NothingDue(entries: seq<Entry>) {
    forall i :: 0 <= i < |entries| ==> !entries[i].due
  }

  /** No entry twice, none a whole period behind, and nothing due while
      suspended. */
  ghost predicate Inv(s: Sched, capacity: nat) {
    && |s.entries| <= capacity
    && DistinctKeys(s.entries) && InPhase(s.entries) && Periodic(s.entries)
    && (s.suspendedMs > 0 ==> NothingDue(s.entries))
  }

  lemma SendEveryKeepsInv(s: Sched, key: Due, period: U16, capacity: nat)
    requires Inv(s, capacity)
    ensures Inv(SendEvery(s, key, period, capacity).0, capacity)
  {
  }

  lemma RemoveKeepsInv(s: Sched, key: Due, capacity: nat)
    requires Inv(s, capacity)
    ensures Inv(Remove(s, key).0, capacity)
  {
    var i := Position(s.entries, key);
    if i.Some? {
      var rest := Remove(s, key).0.entries;
      assert forall k :: 0 <= k < |rest| ==> rest[k] == s.entries[if k < i.value then k else k + 1];
    }
  }

  lemma LookupAt(s: Sched, i: nat, key: Due)
    requires DistinctKeys(s.entries) && i < |s.entries| && s.entries[i].key == key
    ensures Lookup(s, key) == Some(s.entries[i])
  {
  }

  /** Registering is for one message: a new one starts at phase zero, a known one
      keeps its phase as far as the new period reaches, and every other message
      is as it was. */
  lemma SendEveryTouchesOneEntry(s: Sched, key: Due, period: U16, other: Due, capacity: nat)
    requires Inv(s, capacity)
    ensures var (s', r) := SendEvery(s, key, period, capacity);
      && (r.Err? <==> period == 0 || (Lookup(s, key) == None && |s.entries| == capacity))
      && (r.Err? ==>
            && s' == s
            && r.error == if period == 0 then ValueOutOfRange("transmission period", 0)
                          else ValueOutOfRange("schedule capacity", capacity % 0x1_0000_0000))
      && (r.Ok? ==> Lookup(s', key) == Some(match Lookup(s, key)
            case None => Entry(key, period, 0, false)
            case Some(e) => Entry(key, period, Min(e.elapsed, period - 1), e.due)))
      && (other != key ==> Lookup(s', other) == Lookup(s, other))
  {
    SendEveryKeepsInv(s, key, period, capacity);
    var (s', r) := SendEvery(s, key, period, capacity);
    if r.Ok? {
      var at := Position(s.entries, key);
      LookupAt(s', if at.Some? then at.value else |s.entries|, key);
      if other != key && Lookup(s, other).Some? {
        LookupAt(s', Position(s.entries, other).value, other);
      }
    }
  }

  lemma RemoveKeepsOthers(s: Sched, i: nat, j: nat, capacity: nat)
    requires Inv(s, capacity) && i < |s.entries| && j < |s.entries| && i != j
    requires Position(s.entries, s.entries[i].key) == Some(i)
    ensures Lookup(Remove(s, s.entries[i].key).0, s.entries[j].key) == Some(s.entries[j])
  {
    var s' := Remove(s, s.entries[i].key).0;
    RemoveKeepsInv(s, s.entries[i].key, capacity);
    LookupAt(s', if j < i then j else j - 1, s.entries[j].key);
  }

  /** Removing takes out one message and leaves every other as it was. */
  lemma RemoveTouchesOneEntry(s: Sched, key: Due, other: Due, capacity: nat)
    requires Inv(s, capacity)
    ensures Lookup(Remove(s, key).0, other) == if other == key then None else Lookup(s, other)
    ensures Remove(s, key).1 == Lookup(s, key).Some?
  {
    var at, to := Position(s.entries, key), Position(s.entries, other);
    if at.Some? {
      if other != key && to.Some? {
        RemoveKeepsOthers(s, at.value, to.value, capacity);
      } else {
        var s' := Remove(s, key).0;
        assert forall k :: 0 <= k < |s'.entries| ==>
          s'.entries[k] == s.entries[if k < at.value then k else k + 1];
      }
    }
  }

  /** A tick of a running schedule is a tick of each message; a tick of a
      suspended one is none of any. */
  lemma TickTouchesEveryEntry(s: Sched, ms: U16, key: Due, capacity: nat)
    requires Inv(s, capacity)
    ensures Lookup(Tick(s, ms), key) == match Lookup(s, key)
      case None => None
      case Some(e) => Some(if s.suspendedMs > 0 then e else TickEntry(e, ms))
  {
    TickKeepsInv(s, ms, capacity);
    var s' := Tick(s, ms);
    assert forall i :: 0 <= i < |s.entries| ==> s'.entries[i].key == s.entries[i].key;
    if Lookup(s, key).Some? {
      LookupAt(s', Position(s.entries, key).value, key);
    }
  }

  /** What is handed out was due, and only that stops being due. */
  lemma NextDueTouchesOneEntry(s: Sched, key: Due, capacity: nat)
    requires Inv(s, capacity)
    ensures var (s', due) := NextDue(s);
      && (due == Some(key) ==> Lookup(s, key).Some? && Lookup(s, key).value.due)
      && Lookup(s', key) == (if due == Some(key) then Some(Lookup(s, key).value.(due := false)) else Lookup(s, key))
      && (due == None <==> NothingDue(s.entries))
  {
    NextDueKeepsInv(s, capacity);
    var (s', due) := NextDue(s);
    assert forall i :: 0 <= i < |s.entries| ==> s'.entries[i].key == s.entries[i].key;
    if due == Some(key) {
      LookupAt(s, FirstDue(s.entries).value, key);
    }
    if Lookup(s, key).Some? {
      LookupAt(s', Position(s.entries, key).value, key);
    }
  }

  function NotDue(e: Option<Entry>): Option<Entry> {
    match e
    case None => None
    case Some(v) => Some(v.(due := false))
  }

  /** Suspending drops what is due of every message and nothing else. */
  lemma SuspendTouchesEveryEntry(s: Sched, timeout: U16, key: Due, capacity: nat)
    requires Inv(s, capacity)
    ensures Lookup(Suspend(s, timeout), key) == NotDue(Lookup(s, key))
  {
    SuspendKeepsInv(s, timeout, capacity);
    var s' := Suspend(s, timeout);
    assert forall i :: 0 <= i < |s.entries| ==> s'.entries[i].key == s.entries[i].key;
    if Lookup(s, key).Some? {
      LookupAt(s', Position(s.entries, key).value, key);
    }
  }

  lemma TickKeepsInv(s: Sched, ms: U16, capacity: nat)
    requires Inv(s, capacity)
    ensures Inv(Tick(s, ms), capacity)
  {
    var r := Tick(s, ms).entries;
    assert forall i :: 0 <= i < |r| ==> r[i].key == s.entries[i].key && r[i].period == s.entries[i].period;
  }

  lemma NextDueKeepsInv(s: Sched, capacity: nat)
    requires Inv(s, capacity)
    ensures Inv(NextDue(s).0, capacity)
  {
  }

  lemma SuspendKeepsInv(s: Sched, timeout: U16, capacity: nat)
    requires Inv(s, capacity)
    ensures Inv(Suspend(s, timeout), capacity)
  {
  }

  lemma {:induction false} PendingIsZero(entries: seq<Entry>)
    ensures Pending(entries) == 0 <==> NothingDue(entries)
  {
    if entries != [] {
      PendingIsZero(entries[..|entries| - 1]);
      assert NothingDue(entries) ==> NothingDue(entries[..|entries| - 1]);
      if Pending(entries) == 0 {
        assert forall i :: 0 <= i < |entries| - 1 ==> entries[i] == entries[..|entries| - 1][i];
      }
    }
  }
}
