/** When a fault log's DM1 comes due, over every interleaving of raising,
    clearing, forgetting and time, from any state of the log. */
module FaultTiming {
  import opened Types
  import opened FaultLogSpec
  import opened FaultHistory

  /** The states a log goes through: the one it starts in, and the one each
      operation leaves. */
  ghost predicate Trace(states: seq<Log>, ops: seq<Op>, capacity: nat) {
    |states| == |ops| + 1 && forall k :: 0 <= k < |ops| ==> Leads(states[k], ops[k], states[k + 1], capacity)
  }

  ghost predicate Leads(was: Log, op: Op, log: Log, capacity: nat) {
    |was.lamps| == |was.active| <= capacity && log == Step(was, op, capacity)
  }

  /** Every run of a fresh log is such a trace. */
  lemma RunIsTrace(ops: seq<Op>, capacity: nat)
    ensures Trace(seq(|ops| + 1, k requires 0 <= k <= |ops| => Run(ops[..k], capacity)), ops, capacity)
  {
    var states := seq(|ops| + 1, k requires 0 <= k <= |ops| => Run(ops[..k], capacity));
    forall k | 0 <= k < |ops|
      ensures Leads(states[k], ops[k], states[k + 1], capacity)
    {
      assert ops[..k + 1][..k] == ops[..k];
    }
  }

  /** Whether operation k is a tick that makes a DM1 due. */
  predicate Reports(states: seq<Log>, ops: seq<Op>, k: nat) {
    k < |ops| && k < |states| && ops[k].Tick? && Due(states[k], ops[k].ms)
  }

  ghost predicate NoReport(states: seq<Log>, ops: seq<Op>, i: nat, j: nat) {
    forall k :: i <= k < j ==> !Reports(states, ops, k)
  }

  function Ticked(op: Op): nat {
    if op.Tick? then op.ms else 0
  }

  /** Milliseconds ticked by operations i up to but not including j. */
  function Elapsed(ops: seq<Op>, i: nat, j: nat): nat
    requires j <= |ops|
  {
    if i >= j then 0 else Elapsed(ops, i, j - 1) + Ticked(ops[j - 1])
  }

  lemma {:induction false} ElapsedGrows(ops: seq<Op>, h: nat, i: nat, j: nat)
    requires h <= i && j <= |ops|
    ensures Elapsed(ops, i, j) <= Elapsed(ops, h, j)
    decreases j
  {
    if i < j {
      ElapsedGrows(ops, h, i, j - 1);
    }
  }

  lemma TimerStep(states: seq<Log>, ops: seq<Op>, k: nat, next: nat, capacity: nat)
    requires Trace(states, ops, capacity) && k < |ops| && next == k + 1
    ensures states[next].sinceMs ==
      if Reports(states, ops, k) then 0 else Min(states[k].sinceMs + Ticked(ops[k]), U32_MAX)
  {
    assert Leads(states[k], ops[k], states[next], capacity);
  }

  /** While nothing is reported, the timer measures the time ticked, on top of
      what it showed, until it saturates. */
  lemma {:induction false} TimerMeasures(states: seq<Log>, ops: seq<Op>, i: nat, j: nat, capacity: nat)
    requires Trace(states, ops, capacity) && i <= j <= |ops| && NoReport(states, ops, i, j)
    ensures states[j].sinceMs == Min(states[i].sinceMs + Elapsed(ops, i, j), U32_MAX)
    decreases j
  {
    if i < j {
      var h := j - 1;
      TimerMeasures(states, ops, i, h, capacity);
      TimerStep(states, ops, h, j, capacity);
      assert !Reports(states, ops, h);
      assert Elapsed(ops, i, j) == Elapsed(ops, i, h) + Ticked(ops[h]);
    }
  }

  predicate HasNews(log: Log) {
    log.active != [] || log.owesAllClear
  }

  /** A tick reports exactly when a second has been ticked since the report
      before it and there is something to say: a fault, or a last all-clear. */
  lemma ReportsWhenDue(states: seq<Log>, ops: seq<Op>, i: nat, j: nat, capacity: nat)
    requires Trace(states, ops, capacity) && i < j < |ops| && ops[j].Tick?
    requires Reports(states, ops, i) && NoReport(states, ops, i + 1, j)
    ensures Reports(states, ops, j) <==> Elapsed(ops, i + 1, j + 1) >= 1000 && HasNews(states[j])
  {
    TimerStep(states, ops, i, i + 1, capacity);
    TimerMeasures(states, ops, i + 1, j, capacity);
  }

  /** The first report of a fresh log does not wait. */
  lemma FirstReportIsPrompt(states: seq<Log>, ops: seq<Op>, j: nat, capacity: nat)
    requires Trace(states, ops, capacity) && states[0] == FRESH
    requires j < |ops| && ops[j].Tick? && NoReport(states, ops, 0, j)
    ensures Reports(states, ops, j) <==> HasNews(states[j])
  {
    TimerMeasures(states, ops, 0, j, capacity);
  }

  /** Any two reports are at least a second of ticks apart. */
  lemma {:induction false} ReportsAreASecondApart(states: seq<Log>, ops: seq<Op>, i: nat, j: nat, capacity: nat)
    requires Trace(states, ops, capacity) && i < j && Reports(states, ops, i) && Reports(states, ops, j)
    ensures Elapsed(ops, i + 1, j + 1) >= 1000
    decreases j - i
  {
    if NoReport(states, ops, i + 1, j) {
      ReportsWhenDue(states, ops, i, j, capacity);
    } else {
      var k :| i + 1 <= k < j && Reports(states, ops, k);
      ReportsAreASecondApart(states, ops, k, j, capacity);
      ElapsedGrows(ops, i + 1, k + 1, j + 1);
    }
  }

  /** A second ticked while a fault stays active does not pass unreported. */
  lemma {:induction false} ActiveFaultsAreReported(states: seq<Log>, ops: seq<Op>, i: nat, j: nat, capacity: nat)
    requires Trace(states, ops, capacity) && i < j <= |ops| && Reports(states, ops, i)
    requires forall k :: i < k < j ==> states[k].active != []
    requires Elapsed(ops, i + 1, j) >= 1000
    ensures !NoReport(states, ops, i + 1, j)
    decreases j
  {
    if Elapsed(ops, i + 1, j - 1) >= 1000 {
      ActiveFaultsAreReported(states, ops, i, j - 1, capacity);
    } else if NoReport(states, ops, i + 1, j - 1) {
      ReportsWhenDue(states, ops, i, j - 1, capacity);
      assert Reports(states, ops, j - 1);
    }
  }

  /** While a fault stays active, the gap to the next report is less than a
      second plus the tick that reports. */
  lemma GapWhileActive(states: seq<Log>, ops: seq<Op>, i: nat, j: nat, capacity: nat)
    requires Trace(states, ops, capacity) && i < j && Reports(states, ops, i) && Reports(states, ops, j)
    requires NoReport(states, ops, i + 1, j)
    requires forall k :: i < k <= j ==> states[k].active != []
    ensures 1000 <= Elapsed(ops, i + 1, j + 1) < 1000 + ops[j].ms
  {
    ReportsAreASecondApart(states, ops, i, j, capacity);
    if Elapsed(ops, i + 1, j) >= 1000 {
      ActiveFaultsAreReported(states, ops, i, j, capacity);
    }
  }

  // --------------------------------------------------------- the all-clear

  function ReportCount(states: seq<Log>, ops: seq<Op>, i: nat, j: nat): nat {
    if i >= j then 0
    else ReportCount(states, ops, i, j - 1) + if Reports(states, ops, j - 1) then 1 else 0
  }

  predicate HasTick(ops: seq<Op>, i: nat, j: nat)
    requires j <= |ops|
  {
    i < j && (ops[j - 1].Tick? || HasTick(ops, i, j - 1))
  }

  ghost predicate NothingActive(states: seq<Log>, i: nat, j: nat) {
    forall k :: i <= k <= j && k < |states| ==> states[k].active == []
  }

  /** Over a stretch with nothing active: what has been sent, what is still owed
      and what the timer shows. */
  lemma {:induction false} QuietStretch(states: seq<Log>, ops: seq<Op>, i: nat, j: nat, capacity: nat)
    requires Trace(states, ops, capacity) && i <= j <= |ops| && NothingActive(states, i, j)
    ensures var was, log, sent := states[i], states[j], ReportCount(states, ops, i, j);
      && sent == (if was.owesAllClear && HasTick(ops, i, j) && was.sinceMs + Elapsed(ops, i, j) >= 1000 then 1 else 0)
      && log.owesAllClear == (was.owesAllClear && sent == 0)
      && (sent == 0 ==> log.sinceMs == Min(was.sinceMs + Elapsed(ops, i, j), U32_MAX))
    decreases j
  {
    if i < j {
      var h := j - 1;
      QuietStretch(states, ops, i, h, capacity);
      QuietStep(states, ops, h, j, capacity);
      assert Elapsed(ops, i, j) == Elapsed(ops, i, h) + Ticked(ops[h]);
    }
  }

  lemma QuietStep(states: seq<Log>, ops: seq<Op>, k: nat, next: nat, capacity: nat)
    requires Trace(states, ops, capacity) && k < |ops| && next == k + 1
    requires states[k].active == [] && states[next].active == []
    ensures var was, log, reports := states[k], states[next], Reports(states, ops, k);
      && log.owesAllClear == (was.owesAllClear && !reports)
      && (!reports ==> log.sinceMs == Min(was.sinceMs + Ticked(ops[k]), U32_MAX))
      && (reports <==> was.owesAllClear && ops[k].Tick? && was.sinceMs + Ticked(ops[k]) >= 1000)
  {
    assert Leads(states[k], ops[k], states[next], capacity);
  }

  /** When the last fault goes, by being cleared or forgotten, and until another
      is raised: exactly one more report comes due, at the first tick that finds
      the second since the last one over, and then none. */
  lemma AllClearIsReportedOnce(states: seq<Log>, ops: seq<Op>, e: nat, j: nat, capacity: nat)
    requires Trace(states, ops, capacity) && e < j <= |ops| && states[e].active != []
    requires NothingActive(states, e + 1, j)
    ensures ReportCount(states, ops, e + 1, j) ==
      if HasTick(ops, e + 1, j) && states[e + 1].sinceMs + Elapsed(ops, e + 1, j) >= 1000 then 1 else 0
  {
    assert Leads(states[e], ops[e], states[e + 1], capacity);
    QuietStretch(states, ops, e + 1, j, capacity);
  }

  /** A fresh log that never holds a fault never reports. */
  lemma HealthyIsSilent(states: seq<Log>, ops: seq<Op>, capacity: nat)
    requires Trace(states, ops, capacity) && states[0] == FRESH && NothingActive(states, 0, |ops|)
    ensures ReportCount(states, ops, 0, |ops|) == 0
  {
    QuietStretch(states, ops, 0, |ops|, capacity);
  }
}
