/** How exact the schedule is: phase, due times and counts against exact
    multiples of the period, and what suspension does to them. */
module ScheduleTiming {
  import opened Types
  import opened Arith
  import opened ScheduleSpec

  // ------------------------------------------------------------ one entry

  /** How many whole periods have passed, counting them off. */
  function Whole(t: nat, period: nat): nat
    requires period > 0
  {
    if t < period then 0 else 1 + Whole(t - period, period)
  }

  /** How far into the current period time t is. */
  function Phase(t: nat, period: nat): (r: nat)
    requires period > 0
    ensures r < period
  {
    if t < period then t else Phase(t - period, period)
  }

  /** Counting periods off is division with remainder. */
  lemma {:induction false} PeriodsAreDivision(t: nat, period: nat)
    requires period > 0
    ensures Whole(t, period) == t / period && Phase(t, period) == t % period
    decreases t
  {
    if t < period {
      DivIs(t, period, 0);
    } else {
      PeriodsAreDivision(t - period, period);
      var k := (t - period) / period;
      assert t - period == k * period + (t - period) % period;
      assert (k + 1) * period == k * period + period;
      DivIs(t, period, k + 1);
    }
  }

  /** A multiple of the period lies after `from` and no later than `to`. */
  predicate Crosses(from: nat, to: nat, period: nat)
    requires period > 0
  {
    Whole(from, period) < Whole(to, period)
  }

  /** Crossing is what it says. */
  lemma CrossesIffMultiple(from: nat, to: nat, period: nat)
    requires period > 0 && from <= to
    ensures Crosses(from, to, period) <==> exists m: nat :: from < m * period <= to
  {
    PeriodsAreDivision(from, period);
    PeriodsAreDivision(to, period);
    if Crosses(from, to, period) {
      var q := to / period;
      Below(from, period, q);
      assert q * period <= to by { assert to == q * period + to % period; }
      assert from < q * period <= to;
    }
    if m: nat :| from < m * period <= to {
      AtLeast(to, period, m);
      if m <= from / period {
        Reaches(from, period, m);
        assert false;
      }
    }
  }

  lemma Below(n: nat, period: nat, k: nat)
    requires period > 0 && n / period < k
    ensures n < k * period
  {
    assert n == n / period * period + n % period;
    MulLe(n / period + 1, k, period);
  }

  lemma AtLeast(n: nat, period: nat, k: nat)
    requires period > 0 && k * period <= n
    ensures k <= n / period
  {
    if n / period < k {
      Below(n, period, k);
      assert false;
    }
  }

  lemma Reaches(n: nat, period: nat, k: nat)
    requires period > 0 && k <= n / period
    ensures k * period <= n
  {
    assert n == n / period * period + n % period;
    MulLe(k, n / period, period);
  }

  lemma ModShift(t: nat, e: nat, ms: nat, period: nat)
    requires period > 0 && t % period == e
    ensures (e + ms) % period == (t + ms) % period
    ensures (e + ms) / period == (t + ms) / period - t / period
  {
    var k := t / period;
    assert t == k * period + e;
    var q := (e + ms) / period;
    assert e + ms == q * period + (e + ms) % period;
    assert (k + q) * period == k * period + q * period;
    DivIs(t + ms, period, k + q);
  }

  /** One tick of an entry that stands where t milliseconds of exact time would
      put it: it comes due exactly when the tick crosses a multiple of the
      period, however long the tick; and if the tick is at most 65536 less the
      period it stays in step. */
  lemma {:induction false} TickIsExact(e: Entry, t: nat, ms: U16)
    requires e.period > 0 && e.elapsed == Phase(t, e.period)
    ensures TickEntry(e, ms).due <==> e.due || Crosses(t, t + ms, e.period)
    ensures ms <= 65536 - e.period ==> TickEntry(e, ms).elapsed == Phase(t + ms, e.period)
    ensures TickEntry(e, ms).key == e.key && TickEntry(e, ms).period == e.period
    decreases t
  {
    if t >= e.period {
      TickIsExact(e, t - e.period, ms);
    } else {
      PeriodsAreDivision(t + ms, e.period);
    }
  }

  predicate KeepsPhase(e: Entry, ms: U16)
    requires e.period > 0
  {
    TickEntry(e, ms).elapsed == (e.elapsed + ms) % e.period
  }

  /** Exactly when one tick keeps the phase: unless the 16-bit sum is clipped,
      or what is clipped off happens to be whole periods. */
  lemma PhaseKeptUnlessClipped(e: Entry, ms: U16)
    requires e.elapsed < e.period
    ensures KeepsPhase(e, ms) <==>
      e.elapsed + ms <= 65535 || (e.elapsed + ms - 65535) % e.period == 0
  {
    var sum := e.elapsed + ms;
    if sum <= 65535 {
      if sum < e.period {
        DivIs(sum, e.period, 0);
      }
    } else {
      SameRemainder(65535, sum, e.period);
    }
  }

  lemma SameRemainder(a: nat, b: nat, period: nat)
    requires period > 0 && a <= b
    ensures a % period == b % period <==> (b - a) % period == 0
  {
    ModShift(a, a % period, b - a, period);
    var r, d := a % period, (b - a) % period;
    assert b - a == (b - a) / period * period + d;
    var k := (b - a) / period;
    if r + d < period {
      assert r + (b - a) == k * period + (r + d);
      DivIs(r + (b - a), period, k);
    } else {
      assert (k + 1) * period == k * period + period;
      assert r + (b - a) == (k + 1) * period + (r + d - period);
      DivIs(r + (b - a), period, k + 1);
    }
  }

  /** On what a caller has: a tick keeps the phase of every entry of a period,
      wherever it stands, exactly if it is at most 65536 less the period. */
  lemma TicksThatKeepEveryPhase(period: U16, ms: U16)
    requires period > 0
    ensures (forall e: Entry :: e.period == period && e.elapsed < period ==> KeepsPhase(e, ms))
      <==> ms <= 65536 - period
  {
    if ms <= 65536 - period {
      forall e: Entry | e.period == period && e.elapsed < period ensures KeepsPhase(e, ms) {
        PhaseKeptUnlessClipped(e, ms);
      }
    } else {
      var e := Entry(Due(0, GLOBAL_ADDRESS), period, period - 1, false);
      PhaseKeptUnlessClipped(e, ms);
      DivIs(e.elapsed + ms - 65535, period, 0);
      assert !KeepsPhase(e, ms);
    }
  }

  /** The clipping is real: a 65535 ms period driven by 65535 ms ticks from
      phase 65534 loses its place. */
  lemma ClippingLosesPhase(key: Due)
    ensures TickEntry(Entry(key, 65535, 65534, false), 65535).elapsed == 0
    ensures (65534 + 65535) % 65535 == 65534
  {
  }

  // ------------------------------------------------------------- draining

  /** Taking messages until none is due. */
  function DrainAll(s: Sched, fuel: nat): (Sched, seq<Due>)
    decreases fuel
  {
    if fuel == 0 then (s, [])
    else
      var (s', due) := NextDue(s);
      if due.None? then (s, [])
      else
        var (rest, more) := DrainAll(s', fuel - 1);
        (rest, [due.value] + more)
  }

  /** The keys of what is due, in registration order. */
  function DueKeys(entries: seq<Entry>): seq<Due> {
    if entries == [] then []
    else (if entries[0].due then [entries[0].key] else []) + DueKeys(entries[1..])
  }

  lemma {:induction false} FirstDueKey(entries: seq<Entry>)
    ensures match FirstDue(entries)
      case None => DueKeys(entries) == []
      case Some(i) => DueKeys(entries) == [entries[i].key] + DueKeys(entries[i := entries[i].(due := false)])
  {
    if entries != [] {
      FirstDueKey(entries[1..]);
      if entries[0].due {
        var drained := entries[0 := entries[0].(due := false)];
        assert drained[1..] == entries[1..];
        assert DueKeys(drained) == DueKeys(entries[1..]);
      } else if FirstDue(entries).Some? {
        var i := FirstDue(entries).value;
        var drained := entries[i := entries[i].(due := false)];
        assert drained[1..] == entries[1..][i - 1 := entries[1..][i - 1].(due := false)];
        assert DueKeys(drained) == DueKeys(drained[1..]);
      }
    }
  }

  /** Draining hands out every due message once, in registration order, leaves
      none due, and touches nothing else. */
  lemma {:induction false} DrainsEverything(s: Sched, fuel: nat)
    requires fuel >= |DueKeys(s.entries)|
    ensures DrainAll(s, fuel) == (s.(entries := Drained(s.entries)), DueKeys(s.entries))
    decreases fuel
  {
    FirstDueKey(s.entries);
    if FirstDue(s.entries).None? {
      assert Drained(s.entries) == s.entries;
    } else if fuel > 0 {
      var i := FirstDue(s.entries).value;
      var entries' := s.entries[i := s.entries[i].(due := false)];
      DrainsEverything(s.(entries := entries'), fuel - 1);
      assert Drained(entries') == Drained(s.entries);
    }
  }

  lemma {:induction false} DueKeysSnoc(entries: seq<Entry>, e: Entry)
    ensures DueKeys(entries + [e]) == DueKeys(entries) + DueKeys([e])
  {
    if entries == [] {
      assert entries + [e] == [e];
    } else {
      var head := if entries[0].due then [entries[0].key] else [];
      assert (entries + [e])[1..] == entries[1..] + [e];
      assert DueKeys(entries + [e]) == head + DueKeys(entries[1..] + [e]);
      DueKeysSnoc(entries[1..], e);
      assert head + (DueKeys(entries[1..]) + DueKeys([e])) == head + DueKeys(entries[1..]) + DueKeys([e]);
    }
  }

  lemma OneDueKey(e: Entry)
    ensures |DueKeys([e])| == if e.due then 1 else 0
  {
    assert [e][1..] == [];
  }

  /** The number a tick returns is how many messages are then handed out. */
  lemma {:induction false} CountIsWhatDrains(entries: seq<Entry>)
    ensures Pending(entries) == |DueKeys(entries)|
  {
    if entries != [] {
      var last := |entries| - 1;
      assert entries == entries[..last] + [entries[last]];
      CountIsWhatDrains(entries[..last]);
      DueKeysSnoc(entries[..last], entries[last]);
      OneDueKey(entries[last]);
    }
  }

  // ------------------------------------------------------------ whole runs

  /** Everything that can be done with a schedule. */
  datatype Op =
    | Pass(ms: U16)
    | Take
    | Register(key: Due, period: U16)
    | Drop(key: Due)
    | Empty
    | Halt(timeout: U16)
    | Go

  /** The schedule one operation leaves, and the message it hands out, if any. */
  function Do(s: Sched, op: Op, capacity: nat): (r: (Sched, Option<Due>))
    requires Inv(s, capacity)
    ensures Inv(r.0, capacity)
  {
    match op
    case Pass(ms) =>
      TickKeepsInv(s, ms, capacity);
      (Tick(s, ms), None)
    case Take =>
      NextDueKeepsInv(s, capacity);
      NextDue(s)
    case Register(key, period) =>
      SendEveryKeepsInv(s, key, period, capacity);
      (SendEvery(s, key, period, capacity).0, None)
    case Drop(key) =>
      RemoveKeepsInv(s, key, capacity);
      (Remove(s, key).0, None)
    case Empty => (s.(entries := []), None)
    case Halt(timeout) =>
      SuspendKeepsInv(s, timeout, capacity);
      (Suspend(s, timeout), None)
    case Go => (Resume(s), None)
  }

  /** A run: the states it goes through, and what each operation hands out. */
  ghost predicate Execution(states: seq<Sched>, sent: seq<Option<Due>>, ops: seq<Op>, capacity: nat) {
    && |states| == |ops| + 1 && |sent| == |ops|
    && forall k: nat :: k < |ops| ==> StepOf(states, sent, ops, k, capacity)
  }

  ghost predicate StepOf(states: seq<Sched>, sent: seq<Option<Due>>, ops: seq<Op>, k: nat, capacity: nat) {
    && k < |ops| && k < |sent| && k + 1 < |states|
    && Inv(states[k], capacity) && Do(states[k], ops[k], capacity) == (states[k + 1], sent[k])
  }

  /** Every schedule can go through every list of operations. */
  lemma {:induction false} EverythingExecutes(s: Sched, ops: seq<Op>, capacity: nat)
    returns (states: seq<Sched>, sent: seq<Option<Due>>)
    requires Inv(s, capacity)
    ensures Execution(states, sent, ops, capacity) && states[0] == s
    decreases |ops|
  {
    if ops == [] {
      states, sent := [s], [];
    } else {
      var (s', out) := Do(s, ops[0], capacity);
      var states', sent' := EverythingExecutes(s', ops[1..], capacity);
      states, sent := [s] + states', [out] + sent';
      forall k: nat | k < |ops| ensures StepOf(states, sent, ops, k, capacity) {
        if k > 0 {
          assert StepOf(states', sent', ops[1..], k - 1, capacity);
        }
      }
    }
  }

  /** Milliseconds an operation lets pass. */
  function Time(op: Op): nat {
    if op.Pass? then op.ms else 0
  }

  /** And those of them that count for the timers: none under suspension. */
  function Ran(s: Sched, op: Op): nat {
    if s.suspendedMs > 0 then 0 else Time(op)
  }

  /** Milliseconds ticked by operations i up to but not including j. */
  function Passed(ops: seq<Op>, i: nat, j: nat): nat
    requires j <= |ops|
  {
    if i >= j then 0 else Passed(ops, i, j - 1) + Time(ops[j - 1])
  }

  /** Milliseconds ticked while not suspended, in the first n operations. */
  function RanFor(states: seq<Sched>, ops: seq<Op>, n: nat): nat
    requires n <= |ops| && n <= |states|
  {
    if n == 0 then 0 else RanFor(states, ops, n - 1) + Ran(states[n - 1], ops[n - 1])
  }

  /** An operation that neither registers nor removes a message. */
  predicate Spares(op: Op, key: Due) {
    match op
    case Register(k, _) => k != key
    case Drop(k) => k != key
    case Empty => false
    case _ => true
  }

  ghost predicate SparedBy(ops: seq<Op>, key: Due) {
    forall k :: 0 <= k < |ops| ==> Spares(ops[k], key)
  }

  /** No tick that counts is longer than the 16-bit timer can take with this
      period. */
  ghost predicate Unclipped(states: seq<Sched>, ops: seq<Op>, period: U16) {
    forall k :: 0 <= k < |ops| && k < |states| ==> Ran(states[k], ops[k]) <= 65536 - period
  }

  /** What one operation does to a message it spares. */
  function Touched(e: Entry, s: Sched, op: Op, sent: Option<Due>): Entry
    requires e.period > 0
  {
    match op
    case Pass(ms) => if s.suspendedMs > 0 then e else TickEntry(e, ms)
    case Take => if sent == Some(e.key) then e.(due := false) else e
    case Halt(_) => e.(due := false)
    case _ => e
  }

  lemma SparedIsTouched(s: Sched, op: Op, key: Due, capacity: nat)
    requires Inv(s, capacity) && Lookup(s, key).Some? && Spares(op, key)
    ensures var (s', sent) := Do(s, op, capacity);
      && Lookup(s, key).value.key == key && Lookup(s, key).value.period > 0
      && Lookup(s', key) == Some(Touched(Lookup(s, key).value, s, op, sent))
      && (sent == Some(key) ==> op.Take? && Lookup(s, key).value.due)
  {
    match op
    case Pass(ms) => TickTouchesEveryEntry(s, ms, key, capacity);
    case Take => NextDueTouchesOneEntry(s, key, capacity);
    case Register(k, period) => SendEveryTouchesOneEntry(s, k, period, key, capacity);
    case Drop(k) => RemoveTouchesOneEntry(s, k, key, capacity);
    case Halt(timeout) => SuspendTouchesEveryEntry(s, timeout, key, capacity);
    case _ =>
  }

  /** The message has this period, and its timer stands where t milliseconds of
      exact time would put it. */
  ghost predicate InStep(s: Sched, key: Due, period: U16, t: nat) {
    period > 0 && match Lookup(s, key)
    case None => false
    case Some(e) => e.key == key && e.period == period && e.elapsed == Phase(t, period)
  }

  predicate Waits(s: Sched, key: Due) {
    Lookup(s, key).Some? && Lookup(s, key).value.due
  }

  /** A tick that crosses a multiple of the period. */
  predicate Rings(s: Sched, op: Op, period: U16, from: nat)
    requires period > 0
  {
    Crosses(from, from + Ran(s, op), period)
  }

  lemma StandingStillCrossesNothing(t: nat, period: nat)
    requires period > 0
    ensures !Crosses(t, t + 0, period)
  {
  }

  lemma TouchedKeepsStep(e: Entry, s: Sched, op: Op, sent: Option<Due>, from: nat)
    requires e.period > 0 && e.elapsed == Phase(from, e.period) && Ran(s, op) <= 65536 - e.period
    ensures var e' := Touched(e, s, op, sent);
      && e'.key == e.key && e'.period == e.period && e'.elapsed == Phase(from + Ran(s, op), e.period)
      && e'.due == (Rings(s, op, e.period, from) || (e.due && !(op.Take? && sent == Some(e.key)) && !op.Halt?))
  {
    if op.Pass? && s.suspendedMs == 0 {
      TickIsExact(e, from, op.ms);
    } else {
      StandingStillCrossesNothing(from, e.period);
    }
  }

  /** One operation: the timer keeps exact time, and the message waits exactly if
      it rang, or waited and was neither handed out nor dropped. */
  lemma OpKeepsStep(s: Sched, op: Op, key: Due, period: U16, from: nat, to: nat, capacity: nat)
    requires Inv(s, capacity) && InStep(s, key, period, from) && Spares(op, key) && Ran(s, op) <= 65536 - period
    requires to == from + Ran(s, op)
    ensures var (s', sent) := Do(s, op, capacity);
      && InStep(s', key, period, to)
      && (Waits(s', key) <==> Rings(s, op, period, from) || (Waits(s, key) && sent != Some(key) && !op.Halt?))
      && (sent == Some(key) ==> op.Take? && Waits(s, key))
  {
    var (s', sent) := Do(s, op, capacity);
    var e := Lookup(s, key).value;
    SparedIsTouched(s, op, key, capacity);
    TouchedKeepsStep(e, s, op, sent, from);
    assert Lookup(s', key) == Some(Touched(e, s, op, sent));
  }

  lemma StepAt(
      states: seq<Sched>, sent: seq<Option<Due>>, ops: seq<Op>, key: Due, period: U16,
      from: nat, to: nat, m: nat, capacity: nat)
    requires Execution(states, sent, ops, capacity) && SparedBy(ops, key) && Unclipped(states, ops, period) && m < |ops|
    requires InStep(states[m], key, period, from) && to == from + Ran(states[m], ops[m])
    ensures InStep(states[m + 1], key, period, to)
    ensures Waits(states[m + 1], key) <==>
      Rings(states[m], ops[m], period, from) || (Waits(states[m], key) && sent[m] != Some(key) && !ops[m].Halt?)
    ensures sent[m] == Some(key) ==> ops[m].Take? && Waits(states[m], key)
  {
    assert StepOf(states, sent, ops, m, capacity);
    OpKeepsStep(states[m], ops[m], key, period, from, to, capacity);
  }

  /** Over every run that neither registers nor removes a message, whatever is
      registered and removed beside it, taken or left waiting, suspended, renewed
      and resumed: its timer is the time run, modulo its period. */
  lemma {:induction false} EntryStaysInStep(
      states: seq<Sched>, sent: seq<Option<Due>>, ops: seq<Op>, key: Due, period: U16, t: nat, n: nat, capacity: nat)
    requires Execution(states, sent, ops, capacity) && n <= |ops|
    requires InStep(states[0], key, period, t) && SparedBy(ops, key) && Unclipped(states, ops, period)
    ensures InStep(states[n], key, period, t + RanFor(states, ops, n))
    decreases n
  {
    if n > 0 {
      var m: nat := n - 1;
      EntryStaysInStep(states, sent, ops, key, period, t, m, capacity);
      StepAt(states, sent, ops, key, period, t + RanFor(states, ops, m), t + RanFor(states, ops, n), m, capacity);
    }
  }

  // --------------------------------------------------------- what goes out

  /** Of the first n operations: how many ticks cross a multiple of the period,
      starting from time t; how many of those find the message waiting already;
      how many suspensions drop it waiting; and how often it is handed out. */
  function Crossings(states: seq<Sched>, ops: seq<Op>, period: U16, t: nat, n: nat): nat
    requires period > 0 && n <= |ops| && n <= |states|
  {
    if n == 0 then 0
    else
      Crossings(states, ops, period, t, n - 1) +
      (if Rings(states[n - 1], ops[n - 1], period, t + RanFor(states, ops, n - 1)) then 1 else 0)
  }

  function Merged(states: seq<Sched>, ops: seq<Op>, key: Due, period: U16, t: nat, n: nat): nat
    requires period > 0 && n <= |ops| && n <= |states|
  {
    if n == 0 then 0
    else
      var rang := Rings(states[n - 1], ops[n - 1], period, t + RanFor(states, ops, n - 1));
      Merged(states, ops, key, period, t, n - 1) + (if rang && Waits(states[n - 1], key) then 1 else 0)
  }

  function Dropped(states: seq<Sched>, ops: seq<Op>, key: Due, n: nat): nat
    requires n <= |ops| && n <= |states|
  {
    if n == 0 then 0
    else Dropped(states, ops, key, n - 1) + (if ops[n - 1].Halt? && Waits(states[n - 1], key) then 1 else 0)
  }

  function Sends(sent: seq<Option<Due>>, key: Due, n: nat): nat
    requires n <= |sent|
  {
    if n == 0 then 0 else Sends(sent, key, n - 1) + (if sent[n - 1] == Some(key) then 1 else 0)
  }

  function Waiting(s: Sched, key: Due): nat {
    if Waits(s, key) then 1 else 0
  }

  /** Over every such run nothing is lost or made up: each crossing is one
      message that has gone out, still waits, was merged with one that waited
      already, or was dropped by a suspension. */
  lemma {:induction false} CrossingsAreAccountedFor(
      states: seq<Sched>, sent: seq<Option<Due>>, ops: seq<Op>, key: Due, period: U16, t: nat, n: nat, capacity: nat)
    requires Execution(states, sent, ops, capacity) && n <= |ops|
    requires InStep(states[0], key, period, t) && SparedBy(ops, key) && Unclipped(states, ops, period)
    ensures Waiting(states[0], key) + Crossings(states, ops, period, t, n) ==
      Sends(sent, key, n) + Waiting(states[n], key)
      + Merged(states, ops, key, period, t, n) + Dropped(states, ops, key, n)
    decreases n
  {
    if n > 0 {
      var m: nat := n - 1;
      CrossingsAreAccountedFor(states, sent, ops, key, period, t, m, capacity);
      EntryStaysInStep(states, sent, ops, key, period, t, m, capacity);
      StepAt(states, sent, ops, key, period, t + RanFor(states, ops, m), t + RanFor(states, ops, n), m, capacity);
      if !ops[m].Pass? {
        OnlyTicksRing(states[m], ops[m], period, t + RanFor(states, ops, m));
      }
    }
  }

  lemma OnlyTicksRing(s: Sched, op: Op, period: U16, from: nat)
    requires period > 0 && !op.Pass?
    ensures !Rings(s, op, period, from)
  {
  }

  /** The message does not wait when a tick or a suspension comes. */
  ghost predicate DrainedInTime(states: seq<Sched>, ops: seq<Op>, key: Due) {
    && |states| == |ops| + 1
    && !Waits(states[|ops|], key)
    && forall k :: 0 <= k < |ops| && (ops[k].Pass? || ops[k].Halt?) ==> !Waits(states[k], key)
  }

  lemma {:induction false} DrainedLosesNothing(states: seq<Sched>, ops: seq<Op>, key: Due, period: U16, t: nat, n: nat)
    requires period > 0 && DrainedInTime(states, ops, key) && n <= |ops|
    ensures Merged(states, ops, key, period, t, n) == 0 && Dropped(states, ops, key, n) == 0
    decreases n
  {
    if n > 0 {
      DrainedLosesNothing(states, ops, key, period, t, n - 1);
      if !ops[n - 1].Pass? {
        OnlyTicksRing(states[n - 1], ops[n - 1], period, t + RanFor(states, ops, n - 1));
      }
    }
  }

  lemma {:induction false} ShortTicksCrossOnce(states: seq<Sched>, ops: seq<Op>, period: U16, t: nat, n: nat)
    requires period > 0 && n <= |ops| && n <= |states|
    requires forall k :: 0 <= k < n ==> Ran(states[k], ops[k]) <= period
    ensures Crossings(states, ops, period, t, n) == Whole(t + RanFor(states, ops, n), period) - Whole(t, period)
    decreases n
  {
    if n > 0 {
      ShortTicksCrossOnce(states, ops, period, t, n - 1);
      AtMostOneMore(t + RanFor(states, ops, n - 1), t + RanFor(states, ops, n), period);
    }
  }

  lemma {:induction false} AtMostOneMore(t: nat, t': nat, period: nat)
    requires period > 0 && t <= t' <= t + period
    ensures Whole(t, period) <= Whole(t', period) <= Whole(t, period) + 1
    decreases t
  {
    if t >= period {
      AtMostOneMore(t - period, t' - period, period);
    }
  }

  lemma RegisteredInStep(s: Sched, key: Due, period: U16, capacity: nat)
    requires Inv(s, capacity) && Lookup(s, key) == None && |s.entries| < capacity && period > 0
    ensures InStep(SendEvery(s, key, period, capacity).0, key, period, 0)
    ensures !Waits(SendEvery(s, key, period, capacity).0, key)
  {
    SendEveryTouchesOneEntry(s, key, period, key, capacity);
  }

  /** A message just registered, with ticks no longer than its period and taken
      before the next tick, goes out exactly floor(time run / period) times,
      whatever the others do and whatever suspensions there are. */
  lemma SendsAreTotalOverPeriod(
      states: seq<Sched>, sent: seq<Option<Due>>, ops: seq<Op>, key: Due, period: U16, s: Sched, capacity: nat)
    requires Inv(s, capacity) && Lookup(s, key) == None && |s.entries| < capacity && period > 0
    requires Execution(states, sent, ops, capacity) && states[0] == SendEvery(s, key, period, capacity).0
    requires SparedBy(ops, key) && Unclipped(states, ops, period) && DrainedInTime(states, ops, key)
    requires forall k :: 0 <= k < |ops| ==> Ran(states[k], ops[k]) <= period
    ensures Sends(sent, key, |ops|) == RanFor(states, ops, |ops|) / period
  {
    RegisteredInStep(s, key, period, capacity);
    CrossingsAreAccountedFor(states, sent, ops, key, period, 0, |ops|, capacity);
    DrainedLosesNothing(states, ops, key, period, 0, |ops|);
    ShortTicksCrossOnce(states, ops, period, 0, |ops|);
    PeriodsAreDivision(RanFor(states, ops, |ops|), period);
  }

  // ----------------------------------------------------------- suspension

  /** From i up to j a suspension is neither renewed nor cut short. */
  ghost predicate LeftToRun(ops: seq<Op>, i: nat, j: nat) {
    forall k :: i <= k < j && k < |ops| ==> !ops[k].Halt? && !ops[k].Go?
  }

  lemma SuspendedStep(s: Sched, op: Op, capacity: nat)
    requires Inv(s, capacity) && s.suspendedMs > 0 && !op.Halt? && !op.Go?
    ensures var (s', sent) := Do(s, op, capacity);
      && sent == None && NothingDue(s'.entries) && s'.suspendedMs == SatSub(s.suspendedMs, Time(op))
  {
    match op
    case Drop(key) =>
      var s' := Do(s, op, capacity).0;
      var at := Position(s.entries, key);
      assert at.Some? ==>
        forall k :: 0 <= k < |s'.entries| ==> s'.entries[k] == s.entries[if k < at.value then k else k + 1];
    case _ =>
  }

  /** A suspension over every run: until it is renewed or cut short, and as long
      as each operation begins while it still runs, it has left what it began
      with less the time passed, nothing is due, and nothing goes out. */
  lemma {:induction false} SuspensionRunsDown(
      states: seq<Sched>, sent: seq<Option<Due>>, ops: seq<Op>, i: nat, j: nat, capacity: nat)
    requires Execution(states, sent, ops, capacity) && i <= j <= |ops| && LeftToRun(ops, i, j)
    requires Inv(states[i], capacity) && NothingDue(states[i].entries)
    requires i < j ==> Passed(ops, i, j - 1) < states[i].suspendedMs
    ensures states[j].suspendedMs == SatSub(states[i].suspendedMs, Passed(ops, i, j))
    ensures Inv(states[j], capacity) && NothingDue(states[j].entries) && Pending(states[j].entries) == 0
    ensures forall k :: i <= k < j ==> sent[k] == None
    decreases j
  {
    if i < j {
      var m: nat := j - 1;
      SuspensionRunsDown(states, sent, ops, i, m, capacity);
      assert StepOf(states, sent, ops, m, capacity);
      SuspendedStep(states[m], ops[m], capacity);
    }
    PendingIsZero(states[j].entries);
  }

  /** And meanwhile the timer of a message that is neither registered again nor
      removed stands still. */
  lemma {:induction false} SuspensionHoldsTimers(
      states: seq<Sched>, sent: seq<Option<Due>>, ops: seq<Op>, i: nat, j: nat, key: Due, capacity: nat)
    requires Execution(states, sent, ops, capacity) && i <= j <= |ops| && LeftToRun(ops, i, j)
    requires Inv(states[i], capacity) && NothingDue(states[i].entries)
    requires i < j ==> Passed(ops, i, j - 1) < states[i].suspendedMs
    requires SparedBy(ops[i..j], key)
    ensures Lookup(states[j], key) == Lookup(states[i], key)
    decreases j
  {
    if i < j {
      var m: nat := j - 1;
      assert SparedBy(ops[i..m], key) by { assert ops[i..m] == ops[i..j][..m - i]; }
      SuspensionHoldsTimers(states, sent, ops, i, m, key, capacity);
      SuspensionRunsDown(states, sent, ops, i, m, capacity);
      assert StepOf(states, sent, ops, m, capacity);
      assert Spares(ops[i..j][m - i], key);
      SuspendedLeavesEntry(states[m], ops[m], key, capacity);
    }
  }

  lemma SuspendedLeavesEntry(s: Sched, op: Op, key: Due, capacity: nat)
    requires Inv(s, capacity) && s.suspendedMs > 0 && !op.Halt? && !op.Go? && Spares(op, key)
    ensures Lookup(Do(s, op, capacity).0, key) == Lookup(s, key)
  {
    match op
    case Pass(ms) => TickTouchesEveryEntry(s, ms, key, capacity);
    case Take => NextDueTouchesOneEntry(s, key, capacity);
    case Register(k, period) => SendEveryTouchesOneEntry(s, k, period, key, capacity);
    case Drop(k) => RemoveTouchesOneEntry(s, k, key, capacity);
  }

  lemma SuspensionBegins(
      states: seq<Sched>, sent: seq<Option<Due>>, ops: seq<Op>, i: nat, key: Due, capacity: nat)
    requires Execution(states, sent, ops, capacity) && i < |ops| && ops[i].Halt?
    ensures Inv(states[i + 1], capacity) && NothingDue(states[i + 1].entries)
    ensures states[i + 1].suspendedMs == ops[i].timeout
    ensures Lookup(states[i + 1], key) == NotDue(Lookup(states[i], key))
  {
    assert StepOf(states, sent, ops, i, capacity);
    SuspendKeepsInv(states[i], ops[i].timeout, capacity);
    SuspendTouchesEveryEntry(states[i], ops[i].timeout, key, capacity);
  }

  /** From the operation that suspends, whatever is taken, registered and removed
      meanwhile: the suspension is over exactly when the time passed adds up to
      what was asked for, and till then and at its end nothing is due. */
  lemma SuspensionEndsOnTime(
      states: seq<Sched>, sent: seq<Option<Due>>, ops: seq<Op>, i: nat, j: nat, capacity: nat)
    requires Execution(states, sent, ops, capacity) && i < j <= |ops|
    requires ops[i].Halt? && LeftToRun(ops, i + 1, j)
    requires i + 1 < j ==> Passed(ops, i + 1, j - 1) < ops[i].timeout
    ensures states[j].suspendedMs == 0 <==> Passed(ops, i + 1, j) >= ops[i].timeout
    ensures NothingDue(states[j].entries) && Pending(states[j].entries) == 0
    ensures forall k :: i < k < j ==> sent[k] == None
  {
    SuspensionBegins(states, sent, ops, i, Due(0, GLOBAL_ADDRESS), capacity);
    SuspensionRunsDown(states, sent, ops, i + 1, j, capacity);
  }

  lemma HeldFrom(
      states: seq<Sched>, sent: seq<Option<Due>>, ops: seq<Op>, i: nat, begun: nat, j: nat, key: Due, capacity: nat)
    requires Execution(states, sent, ops, capacity) && begun == i + 1 && begun <= j <= |ops|
    requires ops[i].Halt? && LeftToRun(ops, begun, j) && SparedBy(ops[begun..j], key)
    requires begun < j ==> Passed(ops, begun, j - 1) < ops[i].timeout
    ensures Lookup(states[j], key) == NotDue(Lookup(states[i], key))
  {
    SuspensionBegins(states, sent, ops, i, key, capacity);
    SuspensionHoldsTimers(states, sent, ops, begun, j, key, capacity);
  }

  /** And a message neither registered again nor removed meanwhile has its timer
      where it was before, so no backlog is released. */
  lemma SuspensionKeepsPhase(
      states: seq<Sched>, sent: seq<Option<Due>>, ops: seq<Op>, i: nat, j: nat, key: Due, capacity: nat)
    requires Execution(states, sent, ops, capacity) && i < j <= |ops|
    requires ops[i].Halt? && LeftToRun(ops, i + 1, j) && SparedBy(ops[i + 1..j], key)
    requires i + 1 < j ==> Passed(ops, i + 1, j - 1) < ops[i].timeout
    ensures Lookup(states[j], key) == NotDue(Lookup(states[i], key))
  {
    HeldFrom(states, sent, ops, i, i + 1, j, key, capacity);
  }

  /** However a suspension ends, by running out or by being cut short: the first
      tick after it finds each timer where it was before the suspension, and it
      comes due exactly if that tick alone takes it past its period. */
  lemma ResumesInPhase(
      states: seq<Sched>, sent: seq<Option<Due>>, ops: seq<Op>, i: nat, j: nat, key: Due, capacity: nat)
    requires Execution(states, sent, ops, capacity) && i < j < |ops|
    requires ops[i].Halt? && LeftToRun(ops, i + 1, j) && SparedBy(ops[i + 1..j], key)
    requires i + 1 < j ==> Passed(ops, i + 1, j - 1) < ops[i].timeout
    requires ops[j].Go? || (ops[j].Pass? && states[j].suspendedMs == 0)
    requires Lookup(states[i], key).Some?
    ensures var e := Lookup(states[i], key).value;
      && states[j + 1].suspendedMs == 0 && e.period > 0
      && Lookup(states[j + 1], key) ==
           Some(if ops[j].Go? then e.(due := false) else TickEntry(e.(due := false), ops[j].ms))
  {
    SuspensionKeepsPhase(states, sent, ops, i, j, key, capacity);
    assert StepOf(states, sent, ops, i, capacity);
    assert StepOf(states, sent, ops, j, capacity);
    SparedIsTouched(states[j], ops[j], key, capacity);
  }

  /** Registering a message again is the one thing that moves its timer during a
      suspension: at a tenth of its period of 1000 ms, 900 ms in, it is put back
      to 99. */
  lemma RateChangeMovesATimer(key: Due)
    ensures var s := Sched([Entry(key, 1000, 900, false)], 5000);
      Inv(s, 1) && Lookup(SendEvery(s, key, 100, 1).0, key) == Some(Entry(key, 100, 99, false))
  {
    var s := Sched([Entry(key, 1000, 900, false)], 5000);
    LookupAt(s, 0, key);
    SendEveryTouchesOneEntry(s, key, 100, key, 1);
  }
}
