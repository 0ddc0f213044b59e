/** J1939-81 address claiming for one ECU: the state machine on values, and the
    object that keeps the map of seen addresses as a 32-byte bitmap. */
module AddressClaim {
  import opened Types

  /** A NAME, compared as a number; the lower one wins. */
  type Name = U64

  const DYNAMIC_ADDRESS_START: Address := 128
  const DYNAMIC_ADDRESS_END: Address := 247
  const COMMANDED_ADDRESS_LEN := 9

  predicate ArbitraryAddressCapable(name: Name) {
    name / 0x8000_0000_0000_0000 == 1
  }

  datatype ClaimState = Idle | Claiming | Claimed | CannotClaim

  datatype Claim = Claim(source: Address, name: Name)

  datatype Ecu = Ecu(name: Name, address: Address, state: ClaimState, seen: set<Address>)

  predicate Active(e: Ecu) {
    e.state.Claiming? || e.state.Claimed?
  }

  /** An active ECU holds a real address; one that gave up holds none. */
  predicate WellPlaced(e: Ecu) {
    && (Active(e) ==> IsSpecific(e.address))
    && (e.state.CannotClaim? ==> e.address == NULL_ADDRESS)
  }

  function New(name: Name, preferred: Address): Ecu {
    Ecu(name, preferred, Idle, {})
  }

  function CurrentClaim(e: Ecu): Claim {
    Claim(e.address, e.name)
  }

  function GaveUp(e: Ecu): Ecu {
    e.(state := CannotClaim, address := NULL_ADDRESS)
  }

  /** The ECU after claim(), which announces what it then holds. */
  function AfterClaim(e: Ecu): Ecu {
    if !IsSpecific(e.address) then GaveUp(e) else e.(state := Claiming)
  }

  function WindowClosed(e: Ecu): Ecu {
    if e.state.Claiming? then e.(state := Claimed) else e
  }

  predicate IsFree(e: Ecu, c: int) {
    DYNAMIC_ADDRESS_START <= c <= DYNAMIC_ADDRESS_END && c != e.address && c !in e.seen
  }

  /** The lowest free self-configurable address from `from` on. */
  function NextFreeFrom(e: Ecu, from: nat): (r: Option<Address>)
    requires DYNAMIC_ADDRESS_START <= from <= DYNAMIC_ADDRESS_END + 1
    ensures r.Some? ==> from <= r.value && IsFree(e, r.value) && forall c :: from <= c < r.value ==> !IsFree(e, c)
    ensures r.None? ==> forall c :: from <= c ==> !IsFree(e, c)
    decreases 248 - from
  {
    if from > DYNAMIC_ADDRESS_END then None
    else if from != e.address && from !in e.seen then Some(from)
    else NextFreeFrom(e, from + 1)
  }

  /** An Address Claimed message from another ECU: remember the address, and if
      it is ours, defend it, move, or give up. */
  function OnClaim(e: Ecu, source: Address, name: Name): (Ecu, Option<Claim>) {
    if name == e.name then (e, None)
    else
      var e' := if IsSpecific(source) then e.(seen := e.seen + {source}) else e;
      if source != e'.address || e'.state.CannotClaim? then (e', None)
      else if e'.name < name then (e', Some(CurrentClaim(e')))
      else
        var moved := if ArbitraryAddressCapable(e'.name) then NextFreeFrom(e', DYNAMIC_ADDRESS_START) else None;
        var after := if moved.Some? then e'.(address := moved.value, state := Claiming) else GaveUp(e');
        (after, Some(CurrentClaim(after)))
  }

  /** A NAME from its little-endian bytes. */
  function NameFromBytes(b: seq<Byte>): Name
    requires |b| == 8
  {
    (b[0] as int) + 0x100 * (b[1] as int) + 0x1_0000 * (b[2] as int) + 0x100_0000 * (b[3] as int)
    + 0x1_0000_0000 * (b[4] as int) + 0x100_0000_0000 * (b[5] as int)
    + 0x1_0000_0000_0000 * (b[6] as int) + 0x100_0000_0000_0000 * (b[7] as int)
  }

  /** A Commanded Address message: the ECU it leaves and what it announces. */
  function OnCommanded(e: Ecu, data: seq<Byte>): Result<(Ecu, Option<Claim>)> {
    if |data| < COMMANDED_ADDRESS_LEN then Err(ShortPayload(COMMANDED_ADDRESS_LEN, |data|))
    else if NameFromBytes(data[..8]) != e.name then Ok((e, None))
    else if !IsSpecific(data[8]) then Err(ValueOutOfRange("commanded address", data[8]))
    else
      var e' := e.(address := data[8], state := Claiming);
      Ok((e', Some(CurrentClaim(e'))))
  }

  // ------------------------------------------------------ the bitmap object

  /** The bit that stands for the k-th address of a byte. */
  function Mask(k: nat): bv8
    requires k < 8
  {
    if k == 0 then 1 else if k == 1 then 2 else if k == 2 then 4 else if k == 3 then 8
    else if k == 4 then 16 else if k == 5 then 32 else if k == 6 then 64 else 128
  }

  /** Setting one bit sets that bit and no other. */
  lemma SetBit(x: bv8, j: nat, k: nat)
    requires j < 8 && k < 8
    ensures (x | Mask(j)) & Mask(k) != 0 <==> x & Mask(k) != 0 || j == k
  {
  }

  class AddressClaimer {
    const name: Name
    var address: Address
    var state: ClaimState
    const seen: array<bv8>

    ghost predicate Valid() {
      seen.Length == 32
    }

    predicate IsAddressTaken(a: Address)
      reads seen
      requires Valid()
    {
      seen[a / 8] & Mask(a % 8) != 0
    }

    ghost function Taken(): (s: set<Address>)
      reads seen
      requires Valid()
      ensures forall a: Address :: a in s <==> IsAddressTaken(a)
    {
      set a: Address | 0 <= a < 256 && IsAddressTaken(a)
    }

    ghost function View(): Ecu
      reads this, seen
      requires Valid()
    {
      Ecu(name, address, state, Taken())
    }

    constructor (name: Name, preferred: Address)
      ensures Valid() && fresh(seen)
      ensures View() == New(name, preferred)
    {
      this.name := name;
      address := preferred;
      state := Idle;
      seen := new bv8[32](_ => 0);
    }

    method MarkSeen(a: Address)
      requires Valid()
      modifies seen
      ensures View() == old(View()).(seen := old(View()).seen + {a})
    {
      var i := a / 8;
      seen[i] := seen[i] | Mask(a % 8);
      forall b: Address ensures IsAddressTaken(b) <==> old(IsAddressTaken(b)) || b == a {
        SetBit(old(seen[i]), a % 8, b % 8);
      }
    }

    function NextFreeAddress(from: nat): (r: Option<Address>)
      reads this, seen
      requires Valid() && DYNAMIC_ADDRESS_START <= from <= DYNAMIC_ADDRESS_END + 1
      ensures r == NextFreeFrom(View(), from)
      decreases 248 - from
    {
      if from > DYNAMIC_ADDRESS_END then None
      else if from != address && !IsAddressTaken(from) then Some(from)
      else NextFreeAddress(from + 1)
    }

    method GiveUp() returns (claim: Claim)
      requires Valid()
      modifies this`address, this`state
      ensures View() == GaveUp(old(View()))
      ensures claim == CurrentClaim(View())
    {
      state := CannotClaim;
      address := NULL_ADDRESS;
      claim := Claim(NULL_ADDRESS, name);
    }

    method MakeClaim() returns (claim: Claim)
      requires Valid()
      modifies this`address, this`state
      ensures View() == AfterClaim(old(View()))
      ensures claim == CurrentClaim(View())
    {
      if !IsSpecific(address) {
        claim := GiveUp();
        return;
      }
      state := Claiming;
      claim := Claim(address, name);
    }

    method ContentionWindowElapsed()
      requires Valid()
      modifies this`state
      ensures View() == WindowClosed(old(View()))
    {
      if state.Claiming? {
        state := Claimed;
      }
    }

    method OnAddressClaimed(source: Address, other: Name) returns (announce: Option<Claim>)
      requires Valid()
      modifies this`address, this`state, seen
      ensures (View(), announce) == OnClaim(old(View()), source, other)
    {
      if other == name {
        return None;
      }
      if IsSpecific(source) {
        MarkSeen(source);
      }
      if source != address || state.CannotClaim? {
        return None;
      }
      if name < other {
        return Some(Claim(address, name));
      }
      if ArbitraryAddressCapable(name) {
        var next := NextFreeAddress(DYNAMIC_ADDRESS_START);
        if next.Some? {
          address := next.value;
          state := Claiming;
          return Some(Claim(address, name));
        }
      }
      var claim := GiveUp();
      return Some(claim);
    }

    method OnRequest() returns (claim: Claim)
      requires Valid()
      ensures claim == CurrentClaim(View())
    {
      claim := Claim(address, name);
    }

    method OnCommandedAddress(data: seq<Byte>) returns (r: Result<Option<Claim>>)
      requires Valid()
      modifies this`address, this`state
      ensures match OnCommanded(old(View()), data)
        case Err(e) => r == Err(e) && View() == old(View())
        case Ok((e, announce)) => r == Ok(announce) && View() == e
    {
      if |data| < COMMANDED_ADDRESS_LEN {
        return Err(ShortPayload(COMMANDED_ADDRESS_LEN, |data|));
      }
      if NameFromBytes(data[..8]) != name {
        return Ok(None);
      }
      if !IsSpecific(data[8]) {
        return Err(ValueOutOfRange("commanded address", data[8]));
      }
      address := data[8];
      state := Claiming;
      return Ok(Some(Claim(address, name)));
    }
  }
}
