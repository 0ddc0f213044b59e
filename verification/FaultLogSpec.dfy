/** An ECU's fault memory on values: which faults are active, which were, how
    often each occurred, and when the next DM1 is due. The class in FaultLog.dfy
    is proved to compute exactly this. */
module FaultLogSpec {
  import opened Types
  import opened Diagnostics

  const DM1_INTERVAL_MS: U16 := 1000

  /** What identifies a fault: its SPN and FMI, never its count. */
  datatype Fault = Fault(spn: U32, fmi: Byte)

  function FaultOf(d: Dtc): Fault {
    Fault(d.spn, d.fmi)
  }

  datatype Log = Log(
    active: seq<Dtc>,
    lamps: seq<Lamp>,
    previous: seq<Dtc>,
    sinceMs: U32,
    owesAllClear: bool)

  const FRESH := Log([], [], [], DM1_INTERVAL_MS, false)

  /** Where a fault sits in a list. */
  function IndexOf(dtcs: seq<Dtc>, f: Fault): (r: Option<nat>)
    ensures r.Some? ==> r.value < |dtcs| && FaultOf(dtcs[r.value]) == f
    ensures r.Some? ==> forall i :: 0 <= i < r.value ==> FaultOf(dtcs[i]) != f
    ensures r.None? ==> forall i :: 0 <= i < |dtcs| ==> FaultOf(dtcs[i]) != f
  {
    if dtcs == [] then None
    else if FaultOf(dtcs[0]) == f then Some(0)
    else
      match IndexOf(dtcs[1..], f)
      case None => None
      case Some(i) => Some(i + 1)
  }

  predicate Holds(dtcs: seq<Dtc>, f: Fault) {
    IndexOf(dtcs, f).Some?
  }

  predicate IsActive(log: Log, f: Fault) {
    Holds(log.active, f)
  }

  predicate WasActive(log: Log, f: Fault) {
    Holds(log.previous, f)
  }

  // -------------------------------------------------------------- operations

  predicate Fits(f: Fault) {
    f.spn <= MAX_SPN && f.fmi <= MAX_FMI
  }

  const FULL_FIELD := "active fault log capacity"

  /** Raise a fault, or refresh the lamp of one already raised. */
  function SetFault(log: Log, f: Fault, lamp: Lamp, capacity: nat): (r: (Log, Result<()>))
    requires |log.lamps| == |log.active|
  {
    if !Fits(f) then (log, Err(InvalidDtc))
    else
      match IndexOf(log.active, f)
      case Some(i) => (log.(lamps := log.lamps[i := lamp]), Ok(()))
      case None =>
        if |log.active| == capacity then (log, Err(ValueOutOfRange(FULL_FIELD, capacity % 0x1_0000_0000)))
        else
          var known := IndexOf(log.previous, f);
          var count := if known.None? then 1
            else Min(Min(log.previous[known.value].occurrenceCount + 1, U8_MAX), MAX_OCCURRENCE_COUNT);
          (log.(active := log.active + [Dtc(f.spn, f.fmi, count, true)],
                lamps := log.lamps + [lamp],
                previous := if known.Some? then Without(log.previous, known.value) else log.previous,
                owesAllClear := false),
           Ok(()))
  }

  /** Add a code to the history, replacing an entry for the same fault, and
      dropping the oldest entry if there is no room. */
  function Record(previous: seq<Dtc>, d: Dtc, capacity: nat): seq<Dtc>
    requires capacity > 0
  {
    match IndexOf(previous, FaultOf(d))
    case Some(i) => previous[i := d]
    case None => (if |previous| == capacity then Without(previous, 0) else previous) + [d]
  }

  /** Retire a fault into the history. */
  function ClearFault(log: Log, f: Fault, capacity: nat): (r: (Log, bool))
    requires |log.lamps| == |log.active| <= capacity
  {
    match IndexOf(log.active, f)
    case None => (log, false)
    case Some(i) =>
      (log.(active := Without(log.active, i),
            lamps := Without(log.lamps, i),
            previous := Record(log.previous, log.active[i], capacity),
            owesAllClear := log.owesAllClear || |log.active| == 1),
       true)
  }

  /** Forget the active faults: DM11. */
  function ClearActive(log: Log): Log {
    log.(active := [], lamps := [], owesAllClear := log.owesAllClear || log.active != [])
  }

  /** Forget the history: DM3. */
  function ClearPrevious(log: Log): Log {
    log.(previous := [])
  }

  function Since(log: Log, elapsed: U16): U32 {
    Min(log.sinceMs + elapsed, U32_MAX)
  }

  /** Whether a tick of `elapsed` makes a DM1 due. */
  predicate Due(log: Log, elapsed: U16) {
    Since(log, elapsed) >= DM1_INTERVAL_MS && (log.active != [] || log.owesAllClear)
  }

  function TickLog(log: Log, elapsed: U16): Log {
    if Due(log, elapsed) then log.(sinceMs := 0, owesAllClear := false)
    else log.(sinceMs := Since(log, elapsed))
  }

  /** The lamp bytes: every lamp named by an active fault, and no other. */
  function LampsOf(lamps: seq<Lamp>): (l: Lamps)
    ensures forall lamp :: Status(l, lamp) == if lamp in lamps then On else Off
    ensures forall lamp :: FlashStatus(l, lamp) == Off
  {
    if lamps == [] then ALL_OFF
    else
      assert lamps == lamps[..|lamps| - 1] + [lamps[|lamps| - 1]];
      WithStatus(LampsOf(lamps[..|lamps| - 1]), lamps[|lamps| - 1], On)
  }

  /** The codes a DM1 or DM2 reports: a list, or the placeholder for none. */
  function Reported(dtcs: seq<Dtc>): seq<Dtc> {
    if dtcs == [] then [NO_FAULT] else dtcs
  }

  function Dm1(log: Log): seq<Byte> {
    Payload(LampsOf(log.lamps), Reported(log.active))
  }

  function Dm2(log: Log): seq<Byte> {
    Payload(ALL_OFF, Reported(log.previous))
  }

  // ---------------------------------------------------------- the invariant

  ghost predicate Distinct(dtcs: seq<Dtc>) {
    forall i, j :: 0 <= i < j < |dtcs| ==> FaultOf(dtcs[i]) != FaultOf(dtcs[j])
  }

  ghost predicate Disjoint(s: seq<Dtc>, t: seq<Dtc>) {
    forall f :: !(Holds(s, f) && Holds(t, f))
  }

  /** Both lists are free of duplicates, share no fault, and fit. */
  ghost predicate Inv(log: Log, capacity: nat) {
    && |log.lamps| == |log.active| <= capacity
    && |log.previous| <= capacity
    && Distinct(log.active) && Distinct(log.previous)
    && Disjoint(log.active, log.previous)
    && AllInRange(log.active) && AllInRange(log.previous)
    && (log.owesAllClear ==> log.active == [])
  }

  lemma HoldsAt(dtcs: seq<Dtc>, i: nat)
    requires i < |dtcs|
    ensures Holds(dtcs, FaultOf(dtcs[i]))
  {
  }

  lemma DropOne(dtcs: seq<Dtc>, i: nat)
    requires i < |dtcs| && Distinct(dtcs)
    ensures Distinct(Without(dtcs, i))
    ensures forall f :: Holds(Without(dtcs, i), f) <==> Holds(dtcs, f) && f != FaultOf(dtcs[i])
    ensures forall d :: d in Without(dtcs, i) ==> d in dtcs
  {
    var rest := Without(dtcs, i);
    forall k | 0 <= k < |rest|
      ensures rest[k] == dtcs[if k < i then k else k + 1]
    {
    }
    forall f
      ensures Holds(rest, f) <==> Holds(dtcs, f) && f != FaultOf(dtcs[i])
    {
      if Holds(dtcs, f) && f != FaultOf(dtcs[i]) {
        var j := IndexOf(dtcs, f).value;
        assert rest[if j < i then j else j - 1] == dtcs[j];
      }
    }
  }

  lemma AddOne(dtcs: seq<Dtc>, d: Dtc)
    ensures forall f :: Holds(dtcs + [d], f) <==> Holds(dtcs, f) || f == FaultOf(d)
    ensures Distinct(dtcs + [d]) <==> Distinct(dtcs) && !Holds(dtcs, FaultOf(d))
  {
    var more := dtcs + [d];
    assert more[|dtcs|] == d;
    assert forall k :: 0 <= k < |dtcs| ==> more[k] == dtcs[k];
    forall f
      ensures Holds(more, f) <==> Holds(dtcs, f) || f == FaultOf(d)
    {
      if Holds(dtcs, f) {
        assert FaultOf(more[IndexOf(dtcs, f).value]) == f;
      }
    }
    if Distinct(more) {
      assert forall i, j :: 0 <= i < j < |dtcs| ==> more[i] == dtcs[i] && more[j] == dtcs[j];
    }
  }

  /** What a newly raised fault changes. */
  lemma RaiseKeepsInv(log: Log, f: Fault, lamp: Lamp, capacity: nat)
    requires Inv(log, capacity) && Fits(f) && !IsActive(log, f) && |log.active| < capacity
    ensures var log' := SetFault(log, f, lamp, capacity).0;
      && Inv(log', capacity)
      && (forall g :: IsActive(log', g) <==> IsActive(log, g) || g == f)
      && (forall g :: WasActive(log', g) <==> WasActive(log, g) && g != f)
  {
    var log' := SetFault(log, f, lamp, capacity).0;
    AddOne(log.active, log'.active[|log.active|]);
    var known := IndexOf(log.previous, f);
    if known.Some? {
      DropOne(log.previous, known.value);
    }
  }

  /** The history never holds an active fault, so recording a cleared one never
      replaces an entry: it always appends, after dropping the oldest if full. */
  lemma RecordNeverReplaces(log: Log, i: nat, capacity: nat)
    requires Inv(log, capacity) && i < |log.active|
    ensures var recorded := Record(log.previous, log.active[i], capacity);
      && IndexOf(log.previous, FaultOf(log.active[i])) == None
      && recorded == (if |log.previous| == capacity then log.previous[1..] else log.previous) + [log.active[i]]
  {
    HoldsAt(log.active, i);
    assert !(Holds(log.active, FaultOf(log.active[i])) && Holds(log.previous, FaultOf(log.active[i])));
  }

  lemma ClearKeepsInv(log: Log, f: Fault, capacity: nat)
    requires Inv(log, capacity) && IsActive(log, f)
    ensures var log' := ClearFault(log, f, capacity).0;
      && Inv(log', capacity)
      && (forall g :: IsActive(log', g) <==> IsActive(log, g) && g != f)
      && WasActive(log', f)
      && (forall g :: WasActive(log', g) && g != f ==> WasActive(log, g))
  {
    var i := IndexOf(log.active, f).value;
    RecordNeverReplaces(log, i, capacity);
    DropOne(log.active, i);
    var kept := if |log.previous| == capacity then Without(log.previous, 0) else log.previous;
    if |log.previous| == capacity {
      DropOne(log.previous, 0);
    }
    AddOne(kept, log.active[i]);
    var log' := ClearFault(log, f, capacity).0;
    assert log'.previous == kept + [log.active[i]];
    assert log.active[i] in log.active;
  }

  /** A fault is refused exactly when its numbers do not fit or the log is full
      of others; then nothing changes, not even the history. */
  lemma WhichFaultsAreRefused(log: Log, f: Fault, lamp: Lamp, capacity: nat)
    requires Inv(log, capacity)
    ensures var (log', r) := SetFault(log, f, lamp, capacity);
      && (r.Err? <==> !Fits(f) || (!IsActive(log, f) && |log.active| == capacity))
      && (r.Err? ==>
            && log' == log
            && r.error == if !Fits(f) then InvalidDtc
                          else ValueOutOfRange("active fault log capacity", capacity % 0x1_0000_0000))
      && (r.Ok? ==> IsActive(log', f) && !WasActive(log', f))
  {
    if Fits(f) && !IsActive(log, f) && |log.active| < capacity {
      RaiseKeepsInv(log, f, lamp, capacity);
    }
  }

  // ------------------------------------------------------------- the lamps

  /** The lamp an active fault lights. */
  function LampFor(log: Log, f: Fault): Option<Lamp>
    requires |log.lamps| == |log.active|
  {
    match IndexOf(log.active, f)
    case None => None
    case Some(i) => Some(log.lamps[i])
  }

  lemma LampAt(log: Log, i: nat, f: Fault)
    requires |log.lamps| == |log.active| && Distinct(log.active)
    requires i < |log.active| && FaultOf(log.active[i]) == f
    ensures LampFor(log, f) == Some(log.lamps[i])
  {
    assert IndexOf(log.active, f).value == i;
  }

  /** An accepted fault lights the lamp it names; every other fault keeps its. */
  lemma SetTouchesOneLamp(log: Log, f: Fault, lamp: Lamp, g: Fault, capacity: nat)
    requires Inv(log, capacity) && SetFault(log, f, lamp, capacity).1.Ok?
    ensures var log' := SetFault(log, f, lamp, capacity).0;
      |log'.lamps| == |log'.active| && LampFor(log', g) == if g == f then Some(lamp) else LampFor(log, g)
  {
    var log' := SetFault(log, f, lamp, capacity).0;
    if !IsActive(log, f) {
      RaiseKeepsInv(log, f, lamp, capacity);
      LampAt(log', |log.active|, f);
      if g != f && IsActive(log, g) {
        LampAt(log', IndexOf(log.active, g).value, g);
      }
    }
  }

  /** A retired fault takes its own lamp with it and no other. */
  lemma ClearTouchesOneLamp(log: Log, f: Fault, g: Fault, capacity: nat)
    requires Inv(log, capacity)
    ensures ClearFault(log, f, capacity).1 <==> IsActive(log, f)
    ensures var log' := ClearFault(log, f, capacity).0;
      |log'.lamps| == |log'.active| && LampFor(log', g) == if g == f then None else LampFor(log, g)
  {
    if IsActive(log, f) {
      ClearKeepsInv(log, f, capacity);
      var i := IndexOf(log.active, f).value;
      var log' := ClearFault(log, f, capacity).0;
      if g != f && IsActive(log, g) {
        var j := IndexOf(log.active, g).value;
        var k := if j < i then j else j - 1;
        assert log'.active[k] == log.active[j] && log'.lamps[k] == log.lamps[j];
        LampAt(log', k, g);
      }
    }
  }
}
