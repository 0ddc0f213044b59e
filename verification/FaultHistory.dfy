/** Whole runs of a fault log: what its two lists hold, in what order, and how
    often each fault is said to have occurred. */
module FaultHistory {
  import opened Types
  import opened Diagnostics
  import opened FaultLogSpec

  datatype Op =
    | Set(fault: Fault, lamp: Lamp)
    | Clear(fault: Fault)
    | ForgetActive
    | ForgetPrevious
    | Tick(ms: U16)

  function Step(log: Log, op: Op, capacity: nat): Log
    requires |log.lamps| == |log.active| <= capacity
  {
    match op
    case Set(f, lamp) => SetFault(log, f, lamp, capacity).0
    case Clear(f) => ClearFault(log, f, capacity).0
    case ForgetActive => ClearActive(log)
    case ForgetPrevious => ClearPrevious(log)
    case Tick(ms) => TickLog(log, ms)
  }

  /** The log after a run of operations on a fresh one. */
  function Run(ops: seq<Op>, capacity: nat): (log: Log)
    ensures |log.lamps| == |log.active| <= capacity
  {
    if ops == [] then FRESH
    else Step(Run(ops[..|ops| - 1], capacity), ops[|ops| - 1], capacity)
  }

  /** Whether the last operation of a run raised a fault that was not active. */
  predicate JustRaised(ops: seq<Op>, f: Fault, capacity: nat) {
    ops != [] && !IsActive(Run(ops[..|ops| - 1], capacity), f) && IsActive(Run(ops, capacity), f)
  }

  /** Whether the last operation of a run moved a fault into the history. */
  predicate JustCleared(ops: seq<Op>, f: Fault, capacity: nat) {
    ops != [] && IsActive(Run(ops[..|ops| - 1], capacity), f) && WasActive(Run(ops, capacity), f)
  }

  predicate Remembered(ops: seq<Op>, f: Fault, capacity: nat) {
    IsActive(Run(ops, capacity), f) || WasActive(Run(ops, capacity), f)
  }

  /** How many operations ago counts from: when a fault was last raised. */
  function LastRaise(ops: seq<Op>, f: Fault, capacity: nat): (n: nat)
    ensures n <= |ops|
  {
    if ops == [] then 0
    else if JustRaised(ops, f, capacity) then |ops|
    else LastRaise(ops[..|ops| - 1], f, capacity)
  }

  function LastClear(ops: seq<Op>, f: Fault, capacity: nat): (n: nat)
    ensures n <= |ops|
  {
    if ops == [] then 0
    else if JustCleared(ops, f, capacity) then |ops|
    else LastClear(ops[..|ops| - 1], f, capacity)
  }

  /** How often a fault has been raised since the log last forgot it, whether by
      a reset of either list or by eviction. Nothing here saturates. */
  function Raises(ops: seq<Op>, f: Fault, capacity: nat): nat {
    if ops == [] || !Remembered(ops, f, capacity) then 0
    else Raises(ops[..|ops| - 1], f, capacity) + if JustRaised(ops, f, capacity) then 1 else 0
  }

  // ------------------------------------------------- lists ordered by a stamp

  ghost predicate Ordered(dtcs: seq<Dtc>, stamp: Fault -> nat) {
    forall i, j :: 0 <= i < j < |dtcs| ==> stamp(FaultOf(dtcs[i])) < stamp(FaultOf(dtcs[j]))
  }

  lemma DropKeepsOrder(dtcs: seq<Dtc>, i: nat, stamp: Fault -> nat)
    requires i < |dtcs| && Ordered(dtcs, stamp)
    ensures Ordered(Without(dtcs, i), stamp)
  {
  }

  /** The new entry's stamp is the latest; the others' are what they were. */
  lemma AddKeepsOrder(dtcs: seq<Dtc>, d: Dtc, stamp: Fault -> nat, stamp': Fault -> nat)
    requires Ordered(dtcs, stamp)
    requires forall i :: 0 <= i < |dtcs| ==> stamp'(FaultOf(dtcs[i])) == stamp(FaultOf(dtcs[i])) < stamp'(FaultOf(d))
    ensures Ordered(dtcs + [d], stamp')
  {
  }

  ghost predicate Counted(dtcs: seq<Dtc>, count: Fault -> nat) {
    forall i :: 0 <= i < |dtcs| ==> dtcs[i].occurrenceCount == Min(count(FaultOf(dtcs[i])), MAX_OCCURRENCE_COUNT)
  }

  // ---------------------------------------------------------------- the run

  /** Everything a run establishes about its lists. */
  ghost predicate History(ops: seq<Op>, capacity: nat) {
    var log := Run(ops, capacity);
    && Inv(log, capacity)
    && Ordered(log.active, f => LastRaise(ops, f, capacity))
    && Ordered(log.previous, f => LastClear(ops, f, capacity))
    && Counted(log.active, f => Raises(ops, f, capacity))
    && Counted(log.previous, f => Raises(ops, f, capacity))
  }

  /** The log before the last operation. */
  function Before(ops: seq<Op>, capacity: nat): Log
    requires ops != []
  {
    Run(ops[..|ops| - 1], capacity)
  }

  /** Faults that are where they were keep their stamps and their counts. */
  lemma Unmoved(ops: seq<Op>, f: Fault, capacity: nat)
    requires ops != [] && Inv(Before(ops, capacity), capacity)
    requires var was, log := Before(ops, capacity), Run(ops, capacity);
      (IsActive(was, f) && IsActive(log, f)) || (WasActive(was, f) && WasActive(log, f) && !IsActive(log, f))
    ensures var init := ops[..|ops| - 1];
      && LastRaise(ops, f, capacity) == LastRaise(init, f, capacity)
      && (!IsActive(Run(ops, capacity), f) ==> LastClear(ops, f, capacity) == LastClear(init, f, capacity))
      && Raises(ops, f, capacity) == Raises(init, f, capacity)
  {
    assert Disjoint(Before(ops, capacity).active, Before(ops, capacity).previous);
  }

  /** If the history only lost entries, what is left is ordered and counted. */
  lemma HistoryListKept(ops: seq<Op>, capacity: nat)
    requires ops != [] && Inv(Before(ops, capacity), capacity) && Inv(Run(ops, capacity), capacity)
    requires var log, init := Run(ops, capacity), ops[..|ops| - 1];
      && Ordered(log.previous, f => LastClear(init, f, capacity))
      && Counted(log.previous, f => Raises(init, f, capacity))
      && (forall g :: WasActive(log, g) ==> WasActive(Before(ops, capacity), g))
    ensures Ordered(Run(ops, capacity).previous, f => LastClear(ops, f, capacity))
    ensures Counted(Run(ops, capacity).previous, f => Raises(ops, f, capacity))
  {
    var log, init := Run(ops, capacity), ops[..|ops| - 1];
    forall i | 0 <= i < |log.previous|
      ensures var g := FaultOf(log.previous[i]);
        && LastClear(ops, g, capacity) == LastClear(init, g, capacity)
        && Raises(ops, g, capacity) == Raises(init, g, capacity)
    {
      HoldsAt(log.previous, i);
      Unmoved(ops, FaultOf(log.previous[i]), capacity);
    }
  }

  /** The same for the active list. */
  lemma ActiveListKept(ops: seq<Op>, capacity: nat)
    requires ops != [] && Inv(Before(ops, capacity), capacity) && Inv(Run(ops, capacity), capacity)
    requires var log, init := Run(ops, capacity), ops[..|ops| - 1];
      && Ordered(log.active, f => LastRaise(init, f, capacity))
      && Counted(log.active, f => Raises(init, f, capacity))
      && (forall g :: IsActive(log, g) ==> IsActive(Before(ops, capacity), g))
    ensures Ordered(Run(ops, capacity).active, f => LastRaise(ops, f, capacity))
    ensures Counted(Run(ops, capacity).active, f => Raises(ops, f, capacity))
  {
    var log, init := Run(ops, capacity), ops[..|ops| - 1];
    forall i | 0 <= i < |log.active|
      ensures var g := FaultOf(log.active[i]);
        && LastRaise(ops, g, capacity) == LastRaise(init, g, capacity)
        && Raises(ops, g, capacity) == Raises(init, g, capacity)
    {
      HoldsAt(log.active, i);
      Unmoved(ops, FaultOf(log.active[i]), capacity);
    }
  }

  /** The active list gained the fault just raised, behind those that stay. */
  lemma ActiveListGrew(ops: seq<Op>, kept: seq<Dtc>, d: Dtc, capacity: nat)
    requires ops != [] && Inv(Before(ops, capacity), capacity) && Inv(Run(ops, capacity), capacity)
    requires Before(ops, capacity).active == kept && Run(ops, capacity).active == kept + [d]
    requires var init := ops[..|ops| - 1];
      Ordered(kept, f => LastRaise(init, f, capacity)) && Counted(kept, f => Raises(init, f, capacity))
    requires JustRaised(ops, FaultOf(d), capacity)
    requires d.occurrenceCount == Min(Raises(ops, FaultOf(d), capacity), MAX_OCCURRENCE_COUNT)
    ensures Ordered(kept + [d], f => LastRaise(ops, f, capacity))
    ensures Counted(kept + [d], f => Raises(ops, f, capacity))
  {
    var init := ops[..|ops| - 1];
    AddOne(kept, d);
    forall i | 0 <= i < |kept|
      ensures var g := FaultOf(kept[i]);
        && LastRaise(ops, g, capacity) == LastRaise(init, g, capacity) < LastRaise(ops, FaultOf(d), capacity)
        && Raises(ops, g, capacity) == Raises(init, g, capacity)
    {
      HoldsAt(kept, i);
      Unmoved(ops, FaultOf(kept[i]), capacity);
    }
    AddKeepsOrder(kept, d, f => LastRaise(init, f, capacity), f => LastRaise(ops, f, capacity));
  }

  /** The history gained the fault just cleared, behind those that stay. */
  lemma HistoryListGrew(ops: seq<Op>, kept: seq<Dtc>, d: Dtc, capacity: nat)
    requires ops != [] && Inv(Before(ops, capacity), capacity) && Inv(Run(ops, capacity), capacity)
    requires Run(ops, capacity).previous == kept + [d]
    requires forall g :: Holds(kept, g) ==> WasActive(Before(ops, capacity), g)
    requires var init := ops[..|ops| - 1];
      Ordered(kept, f => LastClear(init, f, capacity)) && Counted(kept, f => Raises(init, f, capacity))
    requires JustCleared(ops, FaultOf(d), capacity)
    requires d.occurrenceCount == Min(Raises(ops, FaultOf(d), capacity), MAX_OCCURRENCE_COUNT)
    ensures Ordered(kept + [d], f => LastClear(ops, f, capacity))
    ensures Counted(kept + [d], f => Raises(ops, f, capacity))
  {
    var init := ops[..|ops| - 1];
    AddOne(kept, d);
    assert Disjoint(Run(ops, capacity).active, Run(ops, capacity).previous);
    forall i | 0 <= i < |kept|
      ensures var g := FaultOf(kept[i]);
        && LastClear(ops, g, capacity) == LastClear(init, g, capacity) < LastClear(ops, FaultOf(d), capacity)
        && Raises(ops, g, capacity) == Raises(init, g, capacity)
    {
      HoldsAt(kept, i);
      Unmoved(ops, FaultOf(kept[i]), capacity);
    }
    AddKeepsOrder(kept, d, f => LastClear(init, f, capacity), f => LastClear(ops, f, capacity));
  }

  /** A raised fault resumes the count the history remembers. */
  lemma RaiseCounts(ops: seq<Op>, f: Fault, lamp: Lamp, capacity: nat)
    requires ops != [] && ops[|ops| - 1] == Set(f, lamp) && History(ops[..|ops| - 1], capacity)
    requires var was := Before(ops, capacity); Fits(f) && !IsActive(was, f) && |was.active| < capacity
    ensures var was, log := Before(ops, capacity), Run(ops, capacity);
      && JustRaised(ops, f, capacity)
      && log.active[|was.active|].occurrenceCount == Min(Raises(ops, f, capacity), MAX_OCCURRENCE_COUNT)
  {
    var was := Before(ops, capacity);
    RaiseKeepsInv(was, f, lamp, capacity);
    var known := IndexOf(was.previous, f);
    if known.Some? {
      assert was.previous[known.value].occurrenceCount ==
        Min(Raises(ops[..|ops| - 1], f, capacity), MAX_OCCURRENCE_COUNT);
    }
  }

  lemma RaiseStep(ops: seq<Op>, f: Fault, lamp: Lamp, capacity: nat)
    requires ops != [] && ops[|ops| - 1] == Set(f, lamp) && History(ops[..|ops| - 1], capacity)
    requires var was := Before(ops, capacity); Fits(f) && !IsActive(was, f) && |was.active| < capacity
    ensures History(ops, capacity)
  {
    var was, log := Before(ops, capacity), Run(ops, capacity);
    RaiseKeepsInv(was, f, lamp, capacity);
    RaiseCounts(ops, f, lamp, capacity);
    ActiveListGrew(ops, was.active, log.active[|was.active|], capacity);
    var known := IndexOf(was.previous, f);
    if known.Some? {
      DropKeepsOrder(was.previous, known.value, f => LastClear(ops[..|ops| - 1], f, capacity));
    }
    HistoryListKept(ops, capacity);
  }

  lemma ClearShrinksActive(ops: seq<Op>, f: Fault, capacity: nat)
    requires ops != [] && ops[|ops| - 1] == Clear(f) && History(ops[..|ops| - 1], capacity)
    requires IsActive(Before(ops, capacity), f)
    ensures Ordered(Run(ops, capacity).active, f => LastRaise(ops, f, capacity))
    ensures Counted(Run(ops, capacity).active, f => Raises(ops, f, capacity))
  {
    var was := Before(ops, capacity);
    ClearKeepsInv(was, f, capacity);
    DropKeepsOrder(was.active, IndexOf(was.active, f).value, f => LastRaise(ops[..|ops| - 1], f, capacity));
    ActiveListKept(ops, capacity);
  }

  /** What is left of the history once there is room for one more. */
  lemma RoomKeepsHistory(previous: seq<Dtc>, stamp: Fault -> nat, count: Fault -> nat, capacity: nat)
    requires capacity > 0 && Distinct(previous) && Ordered(previous, stamp) && Counted(previous, count)
    ensures var kept := if |previous| == capacity then previous[1..] else previous;
      && Ordered(kept, stamp) && Counted(kept, count)
      && (forall g :: Holds(kept, g) ==> Holds(previous, g))
  {
    if |previous| == capacity {
      DropOne(previous, 0);
      DropKeepsOrder(previous, 0, stamp);
      assert Without(previous, 0) == previous[1..];
    }
  }

  lemma ClearGrowsHistory(ops: seq<Op>, f: Fault, capacity: nat)
    requires ops != [] && ops[|ops| - 1] == Clear(f) && History(ops[..|ops| - 1], capacity)
    requires IsActive(Before(ops, capacity), f)
    ensures Ordered(Run(ops, capacity).previous, f => LastClear(ops, f, capacity))
    ensures Counted(Run(ops, capacity).previous, f => Raises(ops, f, capacity))
  {
    var init := ops[..|ops| - 1];
    var was := Before(ops, capacity);
    var i := IndexOf(was.active, f).value;
    var kept := if |was.previous| == capacity then was.previous[1..] else was.previous;
    ClearKeepsInv(was, f, capacity);
    RecordNeverReplaces(was, i, capacity);
    RoomKeepsHistory(was.previous, f => LastClear(init, f, capacity), f => Raises(init, f, capacity), capacity);
    assert JustCleared(ops, f, capacity);
    HistoryListGrew(ops, kept, was.active[i], capacity);
  }

  lemma ClearStep(ops: seq<Op>, f: Fault, capacity: nat)
    requires ops != [] && ops[|ops| - 1] == Clear(f) && History(ops[..|ops| - 1], capacity)
    requires IsActive(Before(ops, capacity), f)
    ensures History(ops, capacity)
  {
    ClearKeepsInv(Before(ops, capacity), f, capacity);
    ClearShrinksActive(ops, f, capacity);
    ClearGrowsHistory(ops, f, capacity);
  }

  /** Operations that move no fault from list to list, or only forget some. */
  lemma ForgetStep(ops: seq<Op>, capacity: nat)
    requires ops != [] && History(ops[..|ops| - 1], capacity)
    requires var was, log := Before(ops, capacity), Run(ops, capacity);
      && (log.active == was.active || log.active == [])
      && (log.previous == was.previous || log.previous == [])
      && (log.owesAllClear ==> log.active == [])
    ensures History(ops, capacity)
  {
    ActiveListKept(ops, capacity);
    HistoryListKept(ops, capacity);
  }

  /** In every run the two lists are free of duplicates, share no fault and fit
      the log; active faults stand in the order they were last raised, history
      in the order it was last cleared; and every count is the number of raises
      since the fault was last forgotten, stopped at 127. */
  lemma {:induction false} EveryRunKeepsHistory(ops: seq<Op>, capacity: nat)
    ensures History(ops, capacity)
  {
    if ops != [] {
      EveryRunKeepsHistory(ops[..|ops| - 1], capacity);
      var was := Before(ops, capacity);
      match ops[|ops| - 1] {
        case Set(f, lamp) =>
          if Fits(f) && !IsActive(was, f) && |was.active| < capacity {
            RaiseStep(ops, f, lamp, capacity);
          } else {
            ForgetStep(ops, capacity);
          }
        case Clear(f) =>
          if IsActive(was, f) {
            ClearStep(ops, f, capacity);
          } else {
            ForgetStep(ops, capacity);
          }
        case _ =>
          ForgetStep(ops, capacity);
      }
    }
  }

  // ------------------------------------------------- where a fault is, and why

  /** The operation raises a fault that fits, with room for it or none needed. */
  predicate RaisesFault(log: Log, op: Op, f: Fault, capacity: nat) {
    op.Set? && op.fault == f && f.spn <= 0x7FFFF && f.fmi <= 31 && (IsActive(log, f) || |log.active| < capacity)
  }

  predicate Retires(log: Log, op: Op, f: Fault) {
    op == Clear(f) && IsActive(log, f)
  }

  /** The operation retires a fault into a full history, whose oldest entry goes. */
  predicate Evicts(log: Log, op: Op, f: Fault, capacity: nat) {
    op.Clear? && IsActive(log, op.fault) && |log.previous| == capacity > 0 && FaultOf(log.previous[0]) == f
  }

  lemma OldestGoes(previous: seq<Dtc>, f: Fault)
    requires previous != [] && Distinct(previous)
    ensures Holds(Without(previous, 0), f) <==> Holds(previous, f) && f != FaultOf(previous[0])
  {
    DropOne(previous, 0);
  }

  lemma RetiredIsHistory(log: Log, f: Fault, g: Fault, capacity: nat)
    requires Inv(log, capacity) && IsActive(log, g)
    ensures var log' := ClearFault(log, g, capacity).0;
      && (IsActive(log', f) <==> IsActive(log, f) && f != g)
      && (WasActive(log', f) <==> f == g || (WasActive(log, f) && !Evicts(log, Clear(g), f, capacity)))
  {
    var i := IndexOf(log.active, g).value;
    ClearKeepsInv(log, g, capacity);
    RecordNeverReplaces(log, i, capacity);
    DropOne(log.active, i);
    if |log.previous| == capacity {
      OldestGoes(log.previous, f);
    }
    AddOne(if |log.previous| == capacity then Without(log.previous, 0) else log.previous, log.active[i]);
  }

  lemma RaisedIsActive(log: Log, op: Op, f: Fault, capacity: nat)
    requires Inv(log, capacity) && op.Set?
    ensures var log' := Step(log, op, capacity);
      && (IsActive(log', f) <==> RaisesFault(log, op, f, capacity) || IsActive(log, f))
      && (WasActive(log', f) <==> WasActive(log, f) && !RaisesFault(log, op, f, capacity))
  {
    var g := op.fault;
    if Fits(g) && !IsActive(log, g) && |log.active| < capacity {
      RaiseKeepsInv(log, g, op.lamp, capacity);
      var known := IndexOf(log.previous, g);
      AddOne(log.active, Step(log, op, capacity).active[|log.active|]);
      if known.Some? {
        DropOne(log.previous, known.value);
      }
    } else if IsActive(log, g) {
      assert Disjoint(log.active, log.previous);
    }
  }

  /** After any run, where the next operation leaves every fault: it is active if
      it is raised, or was and is neither cleared nor forgotten; it is history if
      it is retired, or was and is not raised again, forgotten, or the oldest of
      a full history into which another is retired. */
  lemma WhereAFaultGoes(ops: seq<Op>, op: Op, f: Fault, capacity: nat)
    ensures var was, log := Run(ops, capacity), Run(ops + [op], capacity);
      && (IsActive(log, f) <==>
            RaisesFault(was, op, f, capacity) || (IsActive(was, f) && op != Clear(f) && op != ForgetActive))
      && (WasActive(log, f) <==>
            Retires(was, op, f)
            || (WasActive(was, f) && !RaisesFault(was, op, f, capacity) && op != ForgetPrevious
                && !Evicts(was, op, f, capacity)))
  {
    EveryRunKeepsHistory(ops, capacity);
    assert (ops + [op])[..|ops|] == ops;
    var was := Run(ops, capacity);
    match op
    case Set(_, _) => RaisedIsActive(was, op, f, capacity);
    case Clear(g) => if IsActive(was, g) { RetiredIsHistory(was, f, g, capacity); }
    case _ =>
  }

  /** Every code is in the current format. */
  ghost predicate Converted(dtcs: seq<Dtc>) {
    forall i :: 0 <= i < |dtcs| ==> dtcs[i].conversionMethod
  }

  lemma StepKeepsConverted(log: Log, op: Op, capacity: nat)
    requires |log.lamps| == |log.active| <= capacity
    requires Converted(log.active) && Converted(log.previous)
    ensures Converted(Step(log, op, capacity).active) && Converted(Step(log, op, capacity).previous)
  {
  }

  lemma {:induction false} EveryCodeIsConverted(ops: seq<Op>, capacity: nat)
    ensures Converted(Run(ops, capacity).active) && Converted(Run(ops, capacity).previous)
  {
    if ops != [] {
      var init := ops[..|ops| - 1];
      EveryCodeIsConverted(init, capacity);
      StepKeepsConverted(Run(init, capacity), ops[|ops| - 1], capacity);
    }
  }
}
