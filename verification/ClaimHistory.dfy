/** The whole life of one ECU: what it answers to a claim, told from the claims
    it has heard and not from the memory it keeps of them. */
module ClaimHistory {
  import opened Types
  import opened AddressClaim

  datatype Event =
    | Hears(claim: Claim)
    | Starts
    | WindowCloses
    | IsCommanded(data: seq<Byte>)
    | Resigns

  function Step(e: Ecu, event: Event): Ecu {
    match event
    case Hears(claim) => OnClaim(e, claim.source, claim.name).0
    case Starts => AfterClaim(e)
    case WindowCloses => WindowClosed(e)
    case IsCommanded(data) => (match OnCommanded(e, data) case Ok(r) => r.0 case Err(_) => e)
    case Resigns => GaveUp(e)
  }

  function Lived(name: Name, preferred: Address, events: seq<Event>): Ecu {
    if events == [] then New(name, preferred)
    else Step(Lived(name, preferred, events[..|events| - 1]), events[|events| - 1])
  }

  /** Whether an ECU of another NAME has claimed the address in these events. */
  ghost predicate ClaimedByAnother(events: seq<Event>, name: Name, x: int) {
    exists c: Claim :: Hears(c) in events && c.source == x && c.name != name
  }

  /** A self-configurable address an ECU could move to from its own. */
  ghost predicate Open(events: seq<Event>, name: Name, own: Address, x: int) {
    128 <= x <= 247 && x != own && !ClaimedByAnother(events, name, x)
  }

  lemma ClaimedSoFar(events: seq<Event>, event: Event, name: Name, x: int)
    ensures ClaimedByAnother(events + [event], name, x) <==>
      ClaimedByAnother(events, name, x) || (event.Hears? && event.claim.source == x && event.claim.name != name)
  {
    if c: Claim :| Hears(c) in events && c.source == x && c.name != name {
      assert Hears(c) in events + [event];
    }
    if event.Hears? && event.claim.source == x && event.claim.name != name {
      assert Hears(event.claim) in events + [event];
    }
  }

  /** What an ECU remembers is exactly what the others have claimed. */
  lemma {:induction false} SeenIsClaimed(name: Name, preferred: Address, events: seq<Event>, x: Address)
    ensures Lived(name, preferred, events).name == name
    ensures x in Lived(name, preferred, events).seen <==> IsSpecific(x) && ClaimedByAnother(events, name, x)
  {
    if events != [] {
      var init, last := events[..|events| - 1], events[|events| - 1];
      assert events == init + [last];
      SeenIsClaimed(name, preferred, init, x);
      ClaimedSoFar(init, last, name, x);
    }
  }

  /** The ECU has moved to the lowest open address and claims that. */
  ghost predicate Moved(events: seq<Event>, e: Ecu, e': Ecu, answer: Option<Claim>) {
    && Open(events, e.name, e.address, e'.address)
    && (forall x :: Open(events, e.name, e.address, x) ==> e'.address <= x)
    && e'.state == Claiming && answer == Some(Claim(e'.address, e.name))
  }

  predicate HasGivenUp(e: Ecu, e': Ecu, answer: Option<Claim>) {
    e'.state == CannotClaim && e'.address == NULL_ADDRESS && answer == Some(Claim(NULL_ADDRESS, e.name))
  }

  predicate Stays(e: Ecu, e': Ecu) {
    e'.state == e.state && e'.address == e.address
  }

  /** After any life, a claim on an ECU's address by a lower NAME takes it: an
      ECU whose NAME has its top bit set then claims the lowest address from 128
      to 247 that is not its own and that no other ECU has ever claimed, and
      gives up if there is none; one whose top bit is clear gives up. A higher
      NAME is answered with the claim held. Every other claim, and every claim
      on an ECU that has given up, draws no answer and moves nothing. */
  lemma WhatAClaimDraws(name: Name, preferred: Address, events: seq<Event>, c: Claim)
    ensures var e := Lived(name, preferred, events);
      var (e', answer) := OnClaim(e, c.source, c.name);
      var heard := events + [Hears(c)];
      && e.name == e'.name == name
      && if c.name == name || c.source != e.address || e.state.CannotClaim? then Stays(e, e') && answer == None
         else if name < c.name then Stays(e, e') && answer == Some(Claim(e.address, name))
         else if name >= 0x8000_0000_0000_0000 && (exists x :: Open(heard, name, e.address, x)) then
           Moved(heard, e, e', answer)
         else HasGivenUp(e, e', answer)
  {
    var e := Lived(name, preferred, events);
    var heard := events + [Hears(c)];
    SeenIsClaimed(name, preferred, events, 0);
    assert heard[..|events|] == events;
    if c.name != name {
      var remembering := if IsSpecific(c.source) then e.(seen := e.seen + {c.source}) else e;
      forall x ensures IsFree(remembering, x) <==> Open(heard, name, e.address, x) {
        if 128 <= x <= 247 {
          SeenIsClaimed(name, preferred, events, x);
          ClaimedSoFar(events, Hears(c), name, x);
        }
      }
      assert ArbitraryAddressCapable(name) <==> name >= 0x8000_0000_0000_0000;
    }
  }
}
