/** The fault log as the crate holds it: parallel arrays shifted in place. */
module FaultLog {
  import opened Types
  import opened Buffers
  import opened Diagnostics
  import opened FaultLogSpec

  /** Close the gap an entry leaves, keeping the order of the rest. */
  method RemoveAt<T>(a: array<T>, len: nat, index: nat)
    requires index < len <= a.Length
    modifies a
    ensures a[..len - 1] == Without(old(a[..len]), index)
  {
    forall i | index <= i < len - 1 {
      a[i] := a[i + 1];
    }
  }

  /** Where a fault sits among the first `len` codes. */
  method Find(dtcs: array<Dtc>, len: nat, f: Fault) returns (r: Option<nat>)
    requires len <= dtcs.Length
    ensures r == IndexOf(dtcs[..len], f)
  {
    var i := 0;
    while i < len
      invariant 0 <= i <= len
      invariant forall k :: 0 <= k < i ==> FaultOf(dtcs[k]) != f
    {
      if FaultOf(dtcs[i]) == f {
        FirstIs(dtcs[..len], f, i);
        return Some(i);
      }
      i := i + 1;
    }
    NoneIs(dtcs[..len], f);
    r := None;
  }

  lemma FirstIs(dtcs: seq<Dtc>, f: Fault, i: nat)
    requires i < |dtcs| && FaultOf(dtcs[i]) == f
    requires forall k :: 0 <= k < i ==> FaultOf(dtcs[k]) != f
    ensures IndexOf(dtcs, f) == Some(i)
  {
    var r := IndexOf(dtcs, f);
    assert r.Some?;
    assert FaultOf(dtcs[r.value]) == f;
  }

  lemma NoneIs(dtcs: seq<Dtc>, f: Fault)
    requires forall k :: 0 <= k < |dtcs| ==> FaultOf(dtcs[k]) != f
    ensures IndexOf(dtcs, f) == None
  {
  }

  class FaultLog {
    const active: array<Dtc>
    const lamps: array<Lamp>
    const previous: array<Dtc>
    var activeLen: nat
    var previousLen: nat
    var sinceDm1Ms: U32
    var owesAllClear: bool

    ghost predicate Shape()
      reads this
    {
      && active != previous
      && lamps.Length == active.Length && previous.Length == active.Length
      && activeLen <= active.Length && previousLen <= active.Length
    }

    ghost predicate Valid()
      reads this, active, lamps, previous
    {
      Shape() && Inv(Value(), active.Length)
    }

    ghost function Value(): Log
      requires activeLen <= active.Length && activeLen <= lamps.Length && previousLen <= previous.Length
      reads this, active, lamps, previous
    {
      Log(active[..activeLen], lamps[..activeLen], previous[..previousLen], sinceDm1Ms, owesAllClear)
    }

    constructor (capacity: nat)
      ensures Valid() && fresh(active) && fresh(lamps) && fresh(previous)
      ensures active.Length == capacity && Value() == FRESH
    {
      active := new Dtc[capacity](_ => Dtc(0, 0, 0, true));
      lamps := new Lamp[capacity](_ => AmberWarning);
      previous := new Dtc[capacity](_ => Dtc(0, 0, 0, true));
      activeLen, previousLen := 0, 0;
      sinceDm1Ms, owesAllClear := DM1_INTERVAL_MS, false;
    }

    /** Raise a fault, or refresh one already raised. */
    method Set(f: Fault, lamp: Lamp) returns (r: Result<()>)
      requires Valid()
      modifies this, active, lamps, previous
      ensures Valid()
      ensures (Value(), r) == SetFault(old(Value()), f, lamp, active.Length)
    {
      var built := NewDtc(f.spn, f.fmi, 1);
      if built.Err? {
        return Err(built.error);
      }
      var index := Find(active, activeLen, f);
      if index.Some? {
        lamps[index.value] := lamp;
        return Ok(());
      }
      if activeLen == active.Length {
        return Err(ValueOutOfRange(FULL_FIELD, active.Length % 0x1_0000_0000));
      }
      RaiseKeepsInv(Value(), f, lamp, active.Length);
      Raise(built.value, lamp);
      r := Ok(());
    }

    /** The inactive-to-active transition: resume a remembered count. */
    method Raise(first: Dtc, lamp: Lamp)
      requires Shape() && activeLen < active.Length
      requires NewDtc(first.spn, first.fmi, 1) == Ok(first) && !IsActive(Value(), FaultOf(first))
      modifies this, active, lamps, previous
      ensures Shape()
      ensures Value() == SetFault(old(Value()), FaultOf(first), lamp, active.Length).0
    {
      var dtc := first;
      var known := Find(previous, previousLen, FaultOf(first));
      if known.Some? {
        var seen := previous[known.value].occurrenceCount;
        dtc := dtc.(occurrenceCount := Min(Min(seen as int + 1, U8_MAX), MAX_OCCURRENCE_COUNT));
        RemovePrevious(known.value);
      }
      AppendActive(dtc, lamp);
      owesAllClear := false;
    }

    method AppendActive(dtc: Dtc, lamp: Lamp)
      requires Shape() && activeLen < active.Length
      modifies `activeLen, active, lamps
      ensures Shape()
      ensures active[..activeLen] == old(active[..activeLen]) + [dtc]
      ensures lamps[..activeLen] == old(lamps[..activeLen]) + [lamp]
    {
      active[activeLen] := dtc;
      lamps[activeLen] := lamp;
      activeLen := activeLen + 1;
    }

    /** Take a code and its lamp out of the active list, keeping the order. */
    method RemoveActive(index: nat)
      requires Shape() && index < activeLen
      modifies `activeLen, active, lamps
      ensures Shape() && activeLen == old(activeLen) - 1
      ensures active[..activeLen] == Without(old(active[..activeLen]), index)
      ensures lamps[..activeLen] == Without(old(lamps[..activeLen]), index)
    {
      RemoveAt(active, activeLen, index);
      RemoveAt(lamps, activeLen, index);
      activeLen := activeLen - 1;
    }

    method RemovePrevious(index: nat)
      requires Shape() && index < previousLen
      modifies `previousLen, previous
      ensures Shape() && previousLen == old(previousLen) - 1
      ensures previous[..previousLen] == Without(old(previous[..previousLen]), index)
    {
      RemoveAt(previous, previousLen, index);
      previousLen := previousLen - 1;
    }

    /** Add a code to the history. */
    method RecordPrevious(dtc: Dtc)
      requires Shape() && previous.Length > 0
      modifies `previousLen, previous
      ensures Shape()
      ensures previous[..previousLen] == Record(old(previous[..previousLen]), dtc, previous.Length)
    {
      var index := Find(previous, previousLen, FaultOf(dtc));
      if index.Some? {
        previous[index.value] := dtc;
        return;
      }
      if previousLen == previous.Length {
        RemovePrevious(0);
      }
      previous[previousLen] := dtc;
      previousLen := previousLen + 1;
    }

    /** Retire a fault whose condition has gone away. */
    method Clear(f: Fault) returns (wasActive: bool)
      requires Valid()
      modifies this, active, lamps, previous
      ensures Valid()
      ensures (Value(), wasActive) == ClearFault(old(Value()), f, active.Length)
    {
      var index := Find(active, activeLen, f);
      if index.None? {
        return false;
      }
      ClearKeepsInv(Value(), f, active.Length);
      Retire(index.value);
      wasActive := true;
    }

    method Retire(index: nat)
      requires Shape() && index < activeLen
      modifies this, active, lamps, previous
      ensures Shape()
      ensures IndexOf(old(Value()).active, FaultOf(old(active[index]))) == Some(index) ==>
        Value() == ClearFault(old(Value()), FaultOf(old(active[index])), active.Length).0
    {
      var dtc := active[index];
      RemoveActive(index);
      RecordPrevious(dtc);
      if activeLen == 0 {
        owesAllClear := true;
      }
    }

    method ForgetActive()
      requires Valid()
      modifies this
      ensures Valid()
      ensures Value() == ClearActive(old(Value()))
    {
      if activeLen > 0 {
        owesAllClear := true;
      }
      activeLen := 0;
    }

    method ForgetPrevious()
      requires Valid()
      modifies `previousLen
      ensures Valid()
      ensures Value() == ClearPrevious(old(Value()))
    {
      previousLen := 0;
    }

    /** Advance the DM1 timer; says whether a DM1 is due now. */
    method Tick(elapsed: U16) returns (due: bool)
      requires Valid()
      modifies `sinceDm1Ms, `owesAllClear
      ensures Valid()
      ensures Value() == TickLog(old(Value()), elapsed)
      ensures due == Due(old(Value()), elapsed)
    {
      sinceDm1Ms := Min(sinceDm1Ms + elapsed, U32_MAX);
      if sinceDm1Ms < DM1_INTERVAL_MS {
        return false;
      }
      if activeLen == 0 && !owesAllClear {
        return false;
      }
      sinceDm1Ms := 0;
      owesAllClear := false;
      due := true;
    }

    /** Every lamp named by an active fault on, the rest off, none flashing. */
    method CurrentLamps() returns (l: Lamps)
      requires Valid()
      ensures l == LampsOf(Value().lamps)
      ensures forall lamp :: Status(l, lamp) == if lamp in Value().lamps then On else Off
      ensures forall lamp :: FlashStatus(l, lamp) == Off
    {
      l := ALL_OFF;
      var i := 0;
      while i < activeLen
        invariant 0 <= i <= activeLen
        invariant l == LampsOf(lamps[..i])
      {
        assert lamps[..i + 1][..i] == lamps[..i];
        l := WithStatus(l, lamps[i], On);
        i := i + 1;
      }
    }

    /** Write the DM1: lamps and every active code, or the all-clear. */
    method Dm1(out: array<Byte>) returns (r: Result<nat>)
      requires Valid()
      modifies out
      ensures Written(r, old(FaultLogSpec.Dm1(Value())), old(out[..]), out[..])
    {
      ghost var was := Value();
      var l := CurrentLamps();
      if activeLen == 0 {
        r := Encode(l, [NO_FAULT], out);
      } else {
        r := Encode(l, active[..activeLen], out);
      }
      assert was.active == [] <==> activeLen == 0;
    }

    /** Write the DM2: the history, with the lamps off. */
    method Dm2(out: array<Byte>) returns (r: Result<nat>)
      requires Valid()
      modifies out
      ensures Written(r, old(FaultLogSpec.Dm2(Value())), old(out[..]), out[..])
    {
      ghost var was := Value();
      if previousLen == 0 {
        r := Encode(ALL_OFF, [NO_FAULT], out);
      } else {
        r := Encode(ALL_OFF, previous[..previousLen], out);
      }
      assert was.previous == [] <==> previousLen == 0;
    }
  }
}
