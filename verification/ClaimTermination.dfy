/** With no new claims, requests or commands, contention settles: a measure that
    every delivery lowers, and the ECU that never has to give way. */
module ClaimTermination {
  import opened Types
  import opened Arith
  import opened AddressClaim
  import opened ClaimBus
  import Slots

  function Pow(b: nat, e: nat): nat {
    if e == 0 then 1 else b * Pow(b, e - 1)
  }

  lemma {:induction false} PowGrows(b: nat, d: nat, e: nat)
    requires b >= 1 && d <= e
    ensures 1 <= Pow(b, d) <= Pow(b, e)
    decreases e
  {
    if d < e {
      PowGrows(b, d, e - 1);
      MulLe(1, b, Pow(b, e - 1));
    } else if d > 0 {
      PowGrows(b, d - 1, d - 1);
      MulLe(1, b, Pow(b, d - 1));
    }
  }

  /** The ECUs whose NAMEs come before this one. */
  function Before(ecus: seq<Ecu>, name: Name): set<nat> {
    set j: nat | j < |ecus| && ecus[j].name < name
  }

  function Rank(ecus: seq<Ecu>, name: Name): nat {
    |Before(ecus, name)|
  }

  lemma LowerNameLowerRank(ecus: seq<Ecu>, i: nat, name: Name)
    requires i < |ecus| && ecus[i].name < name
    ensures Rank(ecus, ecus[i].name) < Rank(ecus, name)
  {
    SmallerSet(Before(ecus, ecus[i].name), Before(ecus, name), i);
  }

  lemma SmallerSet(a: set<int>, b: set<int>, i: int)
    requires a <= b && i in b && i !in a
    ensures |a| < |b|
  {
    assert b == a + (b - a);
    assert |b| == |a| + |b - a|;
    assert i in b - a;
  }

  lemma RankIsBelowCount(ecus: seq<Ecu>, i: nat)
    requires i < |ecus|
    ensures Rank(ecus, ecus[i].name) < |ecus|
  {
    SmallerSet(Before(ecus, ecus[i].name), Slots.Below(|ecus|), i);
  }

  /** Ranks depend on NAMEs alone, which never change. */
  lemma SameNamesSameRank(ecus: seq<Ecu>, ecus': seq<Ecu>, name: Name)
    requires |ecus| == |ecus'| && forall i :: 0 <= i < |ecus| ==> ecus[i].name == ecus'[i].name
    ensures Rank(ecus, name) == Rank(ecus', name)
  {
    assert Before(ecus, name) == Before(ecus', name);
  }

  // ------------------------------------------------------------ the measure

  /** Self-configurable addresses an ECU could still move to. */
  function Free(e: Ecu): set<int> {
    set c: int | DYNAMIC_ADDRESS_START <= c <= DYNAMIC_ADDRESS_END && IsFree(e, c)
  }

  function Room(e: Ecu): nat {
    if e.state.CannotClaim? then 0 else 1 + |Free(e)|
  }

  function Rooms(ecus: seq<Ecu>): nat {
    if ecus == [] then 0 else Room(ecus[0]) + Rooms(ecus[1..])
  }

  /** What one message weighs: more, the weaker its sender. */
  function Weight(ecus: seq<Ecu>, m: Msg): nat {
    Pow(|ecus|, Rank(ecus, m.claim.name))
  }

  function Load(ecus: seq<Ecu>, flight: seq<Msg>): nat {
    if flight == [] then 0 else Weight(ecus, flight[0]) + Load(ecus, flight[1..])
  }

  /** Room to move dominates claims in flight. */
  function Measure(bus: Bus): nat {
    Rooms(bus.ecus) * Pow(|bus.ecus|, |bus.ecus|) + Load(bus.ecus, bus.flight)
  }

  lemma {:induction false} LoadOfConcat(ecus: seq<Ecu>, f: seq<Msg>, g: seq<Msg>)
    ensures Load(ecus, f + g) == Load(ecus, f) + Load(ecus, g)
  {
    if f == [] {
      assert f + g == g;
    } else {
      assert (f + g)[1..] == f[1..] + g;
      LoadOfConcat(ecus, f[1..], g);
    }
  }

  lemma LoadWithout(ecus: seq<Ecu>, f: seq<Msg>, p: nat)
    requires p < |f|
    ensures Load(ecus, f) == Load(ecus, f[..p] + f[p + 1..]) + Weight(ecus, f[p])
  {
    assert f == f[..p] + ([f[p]] + f[p + 1..]);
    LoadOfConcat(ecus, f[..p], [f[p]] + f[p + 1..]);
    LoadOfConcat(ecus, f[..p], f[p + 1..]);
    assert ([f[p]] + f[p + 1..])[1..] == f[p + 1..];
  }

  lemma {:induction false} LoadOfCopies(ecus: seq<Ecu>, n: nat, from: nat, claim: Claim)
    ensures Load(ecus, Copies(n, from, claim)) ==
      (if from < n then n - 1 else n) * Pow(|ecus|, Rank(ecus, claim.name))
  {
    if n > 0 {
      var w := Pow(|ecus|, Rank(ecus, claim.name));
      LoadOfCopies(ecus, n - 1, from, claim);
      if n - 1 != from {
        LoadOfConcat(ecus, Copies(n - 1, from, claim), [Msg(n - 1, claim)]);
        LoadOfOne(ecus, Msg(n - 1, claim));
        OneMore(if from < n - 1 then n - 2 else n - 1, w);
      } else {
        assert Copies(n - 1, from, claim) + [] == Copies(n - 1, from, claim);
      }
    }
  }

  lemma LoadOfOne(ecus: seq<Ecu>, m: Msg)
    ensures Load(ecus, [m]) == Weight(ecus, m)
  {
    assert [m][1..] == [];
  }

  lemma OneMore(k: nat, w: nat)
    ensures (k + 1) * w == k * w + w
  {
  }

  lemma {:induction false} LoadOfSameNames(ecus: seq<Ecu>, ecus': seq<Ecu>, f: seq<Msg>)
    requires |ecus| == |ecus'| && forall i :: 0 <= i < |ecus| ==> ecus[i].name == ecus'[i].name
    ensures Load(ecus, f) == Load(ecus', f)
  {
    if f != [] {
      SameNamesSameRank(ecus, ecus', f[0].claim.name);
      LoadOfSameNames(ecus, ecus', f[1..]);
    }
  }

  lemma {:induction false} RoomsAfter(ecus: seq<Ecu>, i: nat, e: Ecu)
    requires i < |ecus|
    ensures Rooms(ecus[i := e]) == Rooms(ecus) - Room(ecus[i]) + Room(e)
    ensures Room(ecus[i]) <= Rooms(ecus)
  {
    if i > 0 {
      assert ecus[i := e][1..] == ecus[1..][i - 1 := e];
      RoomsAfter(ecus[1..], i - 1, e);
    } else {
      assert ecus[i := e][1..] == ecus[1..];
    }
  }

  /** What an ECU has seen stays seen, so no address becomes free, and an ECU
      that moves can no longer go where it is. */
  lemma FreeAfterClaim(e: Ecu, source: Address, name: Name, c: int)
    requires c in Free(OnClaim(e, source, name).0)
    ensures c in Free(e)
  {
    assert IsFree(OnClaim(e, source, name).0, c);
    assert e.seen <= OnClaim(e, source, name).0.seen;
  }

  lemma HearingFreesNothing(e: Ecu, source: Address, name: Name)
    ensures Free(OnClaim(e, source, name).0) <= Free(e)
  {
    forall c | c in Free(OnClaim(e, source, name).0) ensures c in Free(e) {
      FreeAfterClaim(e, source, name, c);
    }
  }

  /** An ECU that moves takes a free address. */
  lemma MovingUsesAnAddress(e: Ecu, source: Address, name: Name)
    requires var (e', claim) := OnClaim(e, source, name);
      claim.Some? && !(e.name < name) && !e'.state.CannotClaim?
    ensures var e' := OnClaim(e, source, name).0;
      e'.address in Free(e) && e'.address !in Free(e')
  {
  }

  /** Hearing a claim never gives an ECU more room, and losing takes some. */
  lemma HearingTakesRoom(e: Ecu, source: Address, name: Name)
    ensures var (e', claim) := OnClaim(e, source, name);
      && e'.name == e.name
      && Room(e') <= Room(e)
      && (claim.Some? ==> claim.value.name == e.name)
      && (claim.Some? && !(e.name < name) ==> Room(e') < Room(e))
  {
    var (e', claim) := OnClaim(e, source, name);
    HearingFreesNothing(e, source, name);
    Slots.SubsetSize(Free(e'), Free(e));
    if claim.Some? && !(e.name < name) && !e'.state.CannotClaim? {
      MovingUsesAnAddress(e, source, name);
      SmallerSet(Free(e'), Free(e), e'.address);
    }
  }

  /** A delivery uses up one message and adds a copy of the answer, if any,
      for every other ECU. */
  lemma LoadAfterDelivery(bus: Bus, p: nat)
    requires Enabled(bus, Delivered(p))
    ensures var bus' := Apply(bus, Delivered(p));
      var e := bus.ecus[bus.flight[p].to];
      Load(bus'.ecus, bus'.flight) == Load(bus.ecus, bus.flight) - Weight(bus.ecus, bus.flight[p])
        + if Reaction(bus, Delivered(p)).1.Some? then (|bus.ecus| - 1) * Pow(|bus.ecus|, Rank(bus.ecus, e.name)) else 0
    ensures Weight(bus.ecus, bus.flight[p]) >= 1
  {
    var n := |bus.ecus|;
    var i := bus.flight[p].to;
    var heard := bus.flight[p].claim;
    var claim := Reaction(bus, Delivered(p)).1;
    var bus' := Apply(bus, Delivered(p));
    var rest := bus.flight[..p] + bus.flight[p + 1..];
    HearingTakesRoom(bus.ecus[i], heard.source, heard.name);
    LoadWithout(bus.ecus, bus.flight, p);
    LoadOfSameNames(bus.ecus, bus'.ecus, bus'.flight);
    if claim.Some? {
      LoadOfConcat(bus.ecus, rest, Copies(n, i, claim.value));
      LoadOfCopies(bus.ecus, n, i, claim.value);
    } else {
      assert bus'.flight == rest;
    }
    PowGrows(n, 0, Rank(bus.ecus, heard.name));
  }

  /** n - 1 messages of a stronger sender weigh less than one of a weaker. */
  lemma DefenceIsLighter(n: nat, strong: nat, weak: nat)
    requires n >= 1 && strong < weak
    ensures (n - 1) * Pow(n, strong) < Pow(n, weak)
  {
    PowGrows(n, strong + 1, weak);
    PowGrows(n, 0, strong);
    assert (n - 1) * Pow(n, strong) == n * Pow(n, strong) - Pow(n, strong);
  }

  lemma Lighter(rooms': nat, rooms: nat, big: nat, load': int, load: int)
    requires (rooms' < rooms && load' < load + big) || (rooms' <= rooms && load' < load)
    ensures rooms' * big + load' < rooms * big + load
  {
    if rooms' < rooms {
      MulLe(rooms' + 1, rooms, big);
    } else {
      MulLe(rooms', rooms, big);
    }
  }

  /** The answer to a delivery is lighter than the room it took, or than the
      message it answers: an ECU that gives way has less room left, and one that
      defends sends lighter messages than the one it heard. */
  lemma AnswerIsLight(ecus: seq<Ecu>, i: nat, heard: Name)
    requires i < |ecus|
    ensures var answer := (|ecus| - 1) * Pow(|ecus|, Rank(ecus, ecus[i].name));
      && answer < Pow(|ecus|, |ecus|)
      && (ecus[i].name < heard ==> answer < Pow(|ecus|, Rank(ecus, heard)))
  {
    var n := |ecus|;
    RankIsBelowCount(ecus, i);
    DefenceIsLighter(n, Rank(ecus, ecus[i].name), n);
    if ecus[i].name < heard {
      LowerNameLowerRank(ecus, i, heard);
      DefenceIsLighter(n, Rank(ecus, ecus[i].name), Rank(ecus, heard));
    }
  }

  /** A delivery takes room, or else lightens the load. */
  lemma DeliveryLowersParts(bus: Bus, p: nat)
    requires Enabled(bus, Delivered(p))
    ensures var bus' := Apply(bus, Delivered(p));
      var rooms, rooms' := Rooms(bus.ecus), Rooms(bus'.ecus);
      var load, load' := Load(bus.ecus, bus.flight), Load(bus'.ecus, bus'.flight);
      && |bus'.ecus| == |bus.ecus|
      && ((rooms' < rooms && load' < load + Pow(|bus.ecus|, |bus.ecus|)) || (rooms' <= rooms && load' < load))
  {
    var i := bus.flight[p].to;
    var e := bus.ecus[i];
    var heard := bus.flight[p].claim;
    var (e', claim) := OnClaim(e, heard.source, heard.name);
    assert Apply(bus, Delivered(p)).ecus == bus.ecus[i := e'];
    HearingTakesRoom(e, heard.source, heard.name);
    RoomsAfter(bus.ecus, i, e');
    LoadAfterDelivery(bus, p);
    AnswerIsLight(bus.ecus, i, heard.name);
  }

  /** Every delivery lowers the measure. */
  lemma DeliveryLowersMeasure(bus: Bus, p: nat)
    requires Enabled(bus, Delivered(p))
    ensures Measure(Apply(bus, Delivered(p))) < Measure(bus)
  {
    var bus' := Apply(bus, Delivered(p));
    DeliveryLowersParts(bus, p);
    Lighter(Rooms(bus'.ecus), Rooms(bus.ecus), Pow(|bus.ecus|, |bus.ecus|),
      Load(bus'.ecus, bus'.flight), Load(bus.ecus, bus.flight));
  }

  ghost predicate OnlyDeliveries(events: seq<Event>) {
    forall e :: e in events ==> e.Delivered?
  }

  /** Contention terminates: from any state of the bus, in any order, no run of
      deliveries is longer than the measure. */
  lemma {:induction false} ContentionTerminates(bus: Bus, events: seq<Event>)
    requires IsRun(bus, events) && OnlyDeliveries(events)
    ensures |events| + Measure(After(bus, events)) <= Measure(bus)
    decreases |events|
  {
    if events != [] {
      assert events[0] in events;
      DeliveryLowersMeasure(bus, events[0].p);
      ContentionTerminates(Apply(bus, events[0]), events[1..]);
    }
  }

  // ----------------------------------------------------- the lowest NAME

  ghost predicate Lowest(ecus: seq<Ecu>, i: nat) {
    i < |ecus| && forall j :: 0 <= j < |ecus| && j != i ==> ecus[i].name < ecus[j].name
  }

  /** Every claim in flight carries the NAME of an ECU on the bus. */
  ghost predicate FromTheBus(bus: Bus) {
    forall m :: m in bus.flight ==> exists j :: 0 <= j < |bus.ecus| && bus.ecus[j].name == m.claim.name
  }

  lemma StepStaysOnTheBus(bus: Bus, e: Event)
    requires Enabled(bus, e) && FromTheBus(bus)
    ensures FromTheBus(Apply(bus, e))
    ensures forall j :: 0 <= j < |bus.ecus| ==> Apply(bus, e).ecus[j].name == bus.ecus[j].name
  {
    var a := Actor(bus, e);
    var (ecu, claim) := Reaction(bus, e);
    var bus' := Apply(bus, e);
    if claim.Some? {
      CopiesReachAll(|bus.ecus|, a, claim.value);
    }
    forall m | m in bus'.flight
      ensures exists j :: 0 <= j < |bus'.ecus| && bus'.ecus[j].name == m.claim.name
    {
      if m in Remaining(bus, e) {
        assert m in bus.flight;
        var j :| 0 <= j < |bus.ecus| && bus.ecus[j].name == m.claim.name;
        assert bus'.ecus[j].name == m.claim.name;
      } else {
        assert bus'.ecus[a].name == m.claim.name;
      }
    }
  }

  /** Not told to: nothing commands ECU i elsewhere or makes it resign. */
  ghost predicate LeftAlone(events: seq<Event>, i: nat) {
    forall e :: e in events ==> !(e.Resigns? && e.i == i) && !(e.IsCommanded? && e.i == i)
  }

  /** The ECU with the lowest NAME, once active, keeps its address through any
      run, whatever the others claim: it never moves and never gives up. */
  lemma {:induction false} LowestNameKeepsItsAddress(bus: Bus, events: seq<Event>, i: nat)
    requires Lowest(bus.ecus, i) && FromTheBus(bus) && IsRun(bus, events) && LeftAlone(events, i)
    requires Active(bus.ecus[i]) && WellPlaced(bus.ecus[i])
    ensures var after := After(bus, events);
      |after.ecus| == |bus.ecus| && Active(after.ecus[i]) && after.ecus[i].address == bus.ecus[i].address
    decreases |events|
  {
    if events != [] {
      assert events[0] in events;
      StepStaysOnTheBus(bus, events[0]);
      if events[0].Delivered? {
        assert bus.flight[events[0].p] in bus.flight;
      }
      LowestNameKeepsItsAddress(Apply(bus, events[0]), events[1..], i);
    }
  }
}
