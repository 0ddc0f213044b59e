/** Any number of ECUs claiming addresses on one bus, with their claims in
    flight and delivered in any order. */
module ClaimBus {
  import opened Types
  import opened AddressClaim

  /** A claim on its way to one ECU. */
  datatype Msg = Msg(to: nat, claim: Claim)

  datatype Bus = Bus(ecus: seq<Ecu>, flight: seq<Msg>)

  datatype Event =
    | PowersUp(i: nat)
    | Delivered(p: nat)
    | IsAsked(i: nat)
    | IsCommanded(i: nat, data: seq<Byte>)
    | WindowCloses(i: nat)
    | Resigns(i: nat)

  /** One copy of a claim for every ECU but the one that makes it. */
  function Copies(n: nat, from: nat, claim: Claim): seq<Msg> {
    if n == 0 then []
    else Copies(n - 1, from, claim) + if n - 1 == from then [] else [Msg(n - 1, claim)]
  }

  lemma {:induction false} CopiesReachAll(n: nat, from: nat, claim: Claim)
    ensures forall j :: 0 <= j < n && j != from ==> Msg(j, claim) in Copies(n, from, claim)
    ensures forall m :: m in Copies(n, from, claim) ==> m.claim == claim
  {
    if n > 0 {
      CopiesReachAll(n - 1, from, claim);
    }
  }

  predicate Enabled(bus: Bus, e: Event) {
    match e
    case Delivered(p) => p < |bus.flight| && bus.flight[p].to < |bus.ecus|
    case PowersUp(i) => i < |bus.ecus|
    case IsAsked(i) => i < |bus.ecus|
    case IsCommanded(i, _) => i < |bus.ecus|
    case WindowCloses(i) => i < |bus.ecus|
    case Resigns(i) => i < |bus.ecus|
  }

  /** The ECU an event happens to, what becomes of it, and what it announces. */
  function Actor(bus: Bus, e: Event): nat
    requires Enabled(bus, e)
  {
    match e
    case Delivered(p) => bus.flight[p].to
    case PowersUp(i) => i
    case IsAsked(i) => i
    case IsCommanded(i, _) => i
    case WindowCloses(i) => i
    case Resigns(i) => i
  }

  function Reaction(bus: Bus, e: Event): (Ecu, Option<Claim>)
    requires Enabled(bus, e)
  {
    var ecu := bus.ecus[Actor(bus, e)];
    match e
    case Delivered(p) => OnClaim(ecu, bus.flight[p].claim.source, bus.flight[p].claim.name)
    case PowersUp(_) => (AfterClaim(ecu), Some(CurrentClaim(AfterClaim(ecu))))
    case IsAsked(_) => (ecu, Some(CurrentClaim(ecu)))
    case IsCommanded(_, data) => (match OnCommanded(ecu, data) case Ok(r) => r case Err(_) => (ecu, None))
    case WindowCloses(_) => (WindowClosed(ecu), None)
    case Resigns(_) => (GaveUp(ecu), Some(CurrentClaim(GaveUp(ecu))))
  }

  /** What is still in flight once the event has used up its message. */
  function Remaining(bus: Bus, e: Event): seq<Msg>
    requires Enabled(bus, e)
  {
    if e.Delivered? then bus.flight[..e.p] + bus.flight[e.p + 1..] else bus.flight
  }

  function Apply(bus: Bus, e: Event): Bus
    requires Enabled(bus, e)
  {
    var i := Actor(bus, e);
    var (ecu, claim) := Reaction(bus, e);
    Bus(bus.ecus[i := ecu],
        Remaining(bus, e) + if claim.Some? then Copies(|bus.ecus|, i, claim.value) else [])
  }

  // ------------------------------------------------------------ uniqueness

  ghost predicate Distinct(ecus: seq<Ecu>) {
    forall i, j :: 0 <= i < j < |ecus| ==> ecus[i].name != ecus[j].name
  }

  /** One of the two has a claim on their common address in flight to the other. */
  ghost predicate Contested(bus: Bus, i: nat, j: nat)
    requires i < |bus.ecus| && j < |bus.ecus|
  {
    || Msg(i, CurrentClaim(bus.ecus[j])) in bus.flight
    || Msg(j, CurrentClaim(bus.ecus[i])) in bus.flight
  }

  ghost predicate Conflict(bus: Bus, i: nat, j: nat)
    requires i < |bus.ecus| && j < |bus.ecus|
  {
    i != j && Active(bus.ecus[i]) && Active(bus.ecus[j]) && bus.ecus[i].address == bus.ecus[j].address
  }

  ghost predicate Inv(bus: Bus) {
    && Distinct(bus.ecus)
    && (forall i :: 0 <= i < |bus.ecus| ==> WellPlaced(bus.ecus[i]))
    && (forall i, j :: 0 <= i < |bus.ecus| && 0 <= j < |bus.ecus| && Conflict(bus, i, j) ==> Contested(bus, i, j))
  }

  /** The event delivers to ECU i the claim of ECU j, which shares its address. */
  ghost predicate Contests(bus: Bus, e: Event, i: nat, j: nat)
    requires Enabled(bus, e)
  {
    && i < |bus.ecus| && j < |bus.ecus| && Conflict(bus, i, j)
    && e.Delivered? && bus.flight[e.p] == Msg(i, CurrentClaim(bus.ecus[j]))
  }

  /** The ECU whose NAME comes first keeps the address and answers; the other
      leaves it. */
  ghost predicate Answered(bus: Bus, bus': Bus, i: nat, j: nat)
    requires i < |bus.ecus| == |bus'.ecus| && j < |bus.ecus|
  {
    if bus.ecus[i].name < bus.ecus[j].name then
      Active(bus'.ecus[i]) && bus'.ecus[i].address == bus.ecus[i].address
      && Msg(j, CurrentClaim(bus'.ecus[i])) in bus'.flight
    else
      bus'.ecus[i].address != bus.ecus[i].address && !Conflict(bus', i, j)
  }

  lemma ContestIsAnswered(bus: Bus, e: Event, i: nat, j: nat)
    requires Inv(bus) && Enabled(bus, e) && Contests(bus, e, i, j)
    ensures Answered(bus, Apply(bus, e), i, j)
  {
    var claim := Reaction(bus, e).1;
    assert bus.ecus[i].name != bus.ecus[j].name;
    CopiesReachAll(|bus.ecus|, i, claim.value);
  }

  lemma ReactionIsSound(bus: Bus, e: Event)
    requires Enabled(bus, e) && WellPlaced(bus.ecus[Actor(bus, e)])
    ensures var ecu := bus.ecus[Actor(bus, e)];
      var (after, claim) := Reaction(bus, e);
      && after.name == ecu.name && WellPlaced(after)
      && (claim.Some? ==> claim.value == CurrentClaim(after))
      && (claim.None? ==> after.address == ecu.address && Active(after) == Active(ecu))
      && (claim.None? && e.Delivered? && Active(ecu) ==>
            bus.flight[e.p].claim.name == ecu.name || bus.flight[e.p].claim.source != ecu.address)
  {
  }

  lemma StillInFlight(bus: Bus, e: Event, m: Msg)
    requires Enabled(bus, e) && m in bus.flight
    requires e.Delivered? ==> m != bus.flight[e.p]
    ensures m in Remaining(bus, e)
  {
    if e.Delivered? {
      var k :| 0 <= k < |bus.flight| && bus.flight[k] == m;
      assert k < e.p ==> m in bus.flight[..e.p];
      assert k > e.p ==> bus.flight[e.p + 1..][k - e.p - 1] == m;
    }
  }

  lemma StepKeepsInv(bus: Bus, e: Event)
    requires Inv(bus) && Enabled(bus, e)
    ensures Inv(Apply(bus, e))
    ensures forall i, j :: Contests(bus, e, i, j) ==> Answered(bus, Apply(bus, e), i, j)
  {
    var a := Actor(bus, e);
    var (ecu, claim) := Reaction(bus, e);
    var bus' := Apply(bus, e);
    ReactionIsSound(bus, e);
    if claim.Some? {
      CopiesReachAll(|bus.ecus|, a, claim.value);
    }
    forall i, j | Contests(bus, e, i, j) ensures Answered(bus, bus', i, j) {
      ContestIsAnswered(bus, e, i, j);
    }
    forall i, j | 0 <= i < |bus'.ecus| && 0 <= j < |bus'.ecus| && Conflict(bus', i, j)
      ensures Contested(bus', i, j)
    {
      if claim.Some? && i == a {
        assert Msg(j, CurrentClaim(ecu)) in bus'.flight;
      } else if claim.Some? && j == a {
        assert Msg(i, CurrentClaim(ecu)) in bus'.flight;
      } else {
        assert Conflict(bus, i, j) && Contested(bus, i, j);
        OldWitnessSurvives(bus, e, i, j);
      }
    }
  }

  /** If an event's own ECU stays silent, or is neither of the two, then the
      claim that contests their address is still in flight afterwards. */
  lemma OldWitnessSurvives(bus: Bus, e: Event, i: nat, j: nat)
    requires Inv(bus) && Enabled(bus, e)
    requires i < |bus.ecus| && j < |bus.ecus| && Conflict(bus, i, j)
    requires Reaction(bus, e).1.None? || (i != Actor(bus, e) && j != Actor(bus, e))
    ensures Contested(Apply(bus, e), i, j)
  {
    ReactionIsSound(bus, e);
    var mi := Msg(i, CurrentClaim(bus.ecus[j]));
    var mj := Msg(j, CurrentClaim(bus.ecus[i]));
    assert bus.ecus[i].name != bus.ecus[j].name;
    if mi in bus.flight {
      StillInFlight(bus, e, mi);
    }
    if mj in bus.flight {
      StillInFlight(bus, e, mj);
    }
  }

  ghost predicate IsRun(bus: Bus, events: seq<Event>)
    decreases |events|
  {
    events == [] || (Enabled(bus, events[0]) && IsRun(Apply(bus, events[0]), events[1..]))
  }

  function After(bus: Bus, events: seq<Event>): Bus
    requires IsRun(bus, events)
    decreases |events|
  {
    if events == [] then bus else After(Apply(bus, events[0]), events[1..])
  }

  lemma {:induction false} RunKeepsInv(bus: Bus, events: seq<Event>)
    requires Inv(bus) && IsRun(bus, events)
    ensures Inv(After(bus, events))
    decreases |events|
  {
    if events != [] {
      StepKeepsInv(bus, events[0]);
      RunKeepsInv(Apply(bus, events[0]), events[1..]);
    }
  }

  /** Any number of ECUs with distinct NAMEs and any preferred addresses, after
      any run of power-ups, requests, commands, resignations, closing windows
      and deliveries in any order: whenever nothing is in flight, no two active
      ECUs hold the same address, and each active one holds a real one. */
  lemma QuietBusHasUniqueAddresses(ecus: seq<Ecu>, events: seq<Event>)
    requires Distinct(ecus)
    requires forall i :: 0 <= i < |ecus| ==> ecus[i].state == Idle
    requires IsRun(Bus(ecus, []), events)
    ensures var bus := After(Bus(ecus, []), events);
      bus.flight == [] ==>
        && (forall i, j :: 0 <= i < j < |bus.ecus| && Active(bus.ecus[i]) && Active(bus.ecus[j]) ==>
              bus.ecus[i].address != bus.ecus[j].address)
        && (forall i :: 0 <= i < |bus.ecus| && Active(bus.ecus[i]) ==> IsSpecific(bus.ecus[i].address))
  {
    RunKeepsInv(Bus(ecus, []), events);
    var bus := After(Bus(ecus, []), events);
    if bus.flight == [] {
      assert forall i, j :: 0 <= i < |bus.ecus| && 0 <= j < |bus.ecus| && Conflict(bus, i, j) ==> Contested(bus, i, j);
      forall i, j | 0 <= i < j < |bus.ecus| && Active(bus.ecus[i]) && Active(bus.ecus[j])
        ensures bus.ecus[i].address != bus.ecus[j].address
      {
        assert !Contested(bus, i, j);
      }
    }
  }
}
