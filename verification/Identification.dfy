/** J1939-71 identification payloads: fields that each end in an asterisk. */
module Identification {
  import opened Types
  import opened Buffers

  const DELIMITER: Byte := 0x2A

  /** Where the first delimiter stands. */
  function Position(data: seq<Byte>): (r: Option<nat>)
    ensures r.Some? ==> r.value < |data| && data[r.value] == DELIMITER && DELIMITER !in data[..r.value]
    ensures r.None? ==> DELIMITER !in data
  {
    if data == [] then None
    else if data[0] == DELIMITER then Some(0)
    else
      match Position(data[1..])
      case None => None
      case Some(i) =>
        assert data[..i + 1] == [data[0]] + data[1..][..i];
        Some(i + 1)
  }

  /** A payload's fields: the run of bytes before each delimiter, and whatever
      follows the last one. */
  function Split(data: seq<Byte>): seq<seq<Byte>>
    decreases |data|
  {
    if data == [] then []
    else
      match Position(data)
      case Some(i) => [data[..i]] + Split(data[i + 1..])
      case None => [data]
  }

  /** The iterator over fields: a slice that moves along the payload. */
  class Fields {
    var rest: seq<Byte>

    constructor (data: seq<Byte>)
      ensures rest == data
    {
      rest := data;
    }

    /** The next field, until there are none; what is left is always the rest
        of the fields. */
    method Next() returns (field: Option<seq<Byte>>)
      modifies this
      ensures match field
        case Some(f) => Split(old(rest)) == [f] + Split(rest)
        case None => Split(old(rest)) == [] && rest == old(rest)
    {
      if rest == [] {
        return None;
      }
      var i := 0;
      while i < |rest| && rest[i] != DELIMITER
        invariant 0 <= i <= |rest| && DELIMITER !in rest[..i]
      {
        i := i + 1;
      }
      FirstDelimiter(rest, i);
      if i < |rest| {
        field := Some(rest[..i]);
        rest := rest[i + 1..];
      } else {
        field := Some(rest);
        rest := [];
      }
    }
  }

  lemma {:induction false} FirstDelimiter(data: seq<Byte>, i: nat)
    requires i <= |data| && DELIMITER !in data[..i] && (i < |data| ==> data[i] == DELIMITER)
    ensures Position(data) == if i < |data| then Some(i) else None
  {
    if i > 0 {
      assert data[..i] == [data[0]] + data[1..][..i - 1];
      FirstDelimiter(data[1..], i - 1);
    }
  }

  /** Each field with its delimiter. */
  function Join(values: seq<seq<Byte>>): seq<Byte> {
    if values == [] then [] else values[0] + [DELIMITER] + Join(values[1..])
  }

  function JoinedLen(values: seq<seq<Byte>>): (n: nat)
    ensures n == |Join(values)|
  {
    if values == [] then 0 else |values[0]| + 1 + JoinedLen(values[1..])
  }

  lemma {:induction false} JoinSnoc(values: seq<seq<Byte>>, v: seq<Byte>)
    ensures Join(values + [v]) == Join(values) + v + [DELIMITER]
  {
    if values == [] {
      assert values + [v] == [v] && [v][1..] == [];
    } else {
      assert (values + [v])[1..] == values[1..] + [v];
      JoinSnoc(values[1..], v);
    }
  }

  lemma {:induction false} JoinGrows(values: seq<seq<Byte>>, n: nat)
    requires n <= |values|
    ensures |Join(values[..n])| <= |Join(values)|
    decreases |values|
  {
    if n > 0 {
      assert values[..n][1..] == values[1..][..n - 1];
      JoinGrows(values[1..], n - 1);
    }
  }

  /** Write the fields behind what the buffer's front already holds. */
  method EncodeBehind(
      values: seq<seq<Byte>>, out: array<Byte>, ghost before: seq<Byte>, ghost front: seq<Byte>, start: nat)
    returns (r: Result<nat>)
    requires start == |front| <= out.Length && Overwritten(out[..], before, front)
    modifies out
    ensures if start + |Join(values)| > out.Length
      then r == Err(ShortPayload(|Join(values)|, out.Length - start)) && out[..] == old(out[..])
      else r == Ok(|Join(values)|) && Overwritten(out[..], before, front + Join(values))
  {
    var needed := JoinedLen(values);
    if out.Length - start < needed {
      return Err(ShortPayload(needed, out.Length - start));
    }
    var written := 0;
    for i := 0 to |values|
      invariant written == |Join(values[..i])|
      invariant Overwritten(out[..], before, front + Join(values[..i]))
    {
      assert values[..i + 1] == values[..i] + [values[i]];
      JoinSnoc(values[..i], values[i]);
      JoinGrows(values, i + 1);
      ghost var done := front + Join(values[..i]);
      CopyInto(out, before, done, start + written, values[i]);
      CopyInto(out, before, done + values[i], start + written + |values[i]|, [DELIMITER]);
      assert done + values[i] + [DELIMITER] == front + Join(values[..i + 1]);
      written := written + |values[i]| + 1;
    }
    assert values[..|values|] == values;
    r := Ok(written);
  }

  /** Write an identification payload: every field and its delimiter. */
  method Encode(values: seq<seq<Byte>>, out: array<Byte>) returns (r: Result<nat>)
    modifies out
    ensures Written(r, Join(values), old(out[..]), out[..])
  {
    assert [] + Join(values) == Join(values);
    r := EncodeBehind(values, out, out[..], [], 0);
  }

  // -------------------------------------------------- printing and reading

  ghost predicate DelimiterFree(values: seq<seq<Byte>>) {
    forall v :: v in values ==> DELIMITER !in v
  }

  lemma {:induction false} FieldsAreDelimiterFree(data: seq<Byte>)
    ensures DelimiterFree(Split(data))
    decreases |data|
  {
    if data != [] {
      match Position(data)
      case Some(i) => FieldsAreDelimiterFree(data[i + 1..]);
      case None =>
    }
  }

  lemma {:induction false} JoinedFieldsSplit(values: seq<seq<Byte>>)
    requires DelimiterFree(values)
    ensures Split(Join(values)) == values
  {
    if values != [] {
      var data := Join(values);
      assert values[0] in values;
      assert data[..|values[0]|] == values[0];
      assert data[|values[0]| + 1..] == Join(values[1..]);
      FirstDelimiter(data, |values[0]|);
      JoinedFieldsSplit(values[1..]);
    }
  }

  /** What is printed is read back exactly when no field holds a delimiter. */
  lemma FieldsRoundTrip(values: seq<seq<Byte>>)
    ensures Split(Join(values)) == values <==> DelimiterFree(values)
  {
    FieldsAreDelimiterFree(Join(values));
    if DelimiterFree(values) {
      JoinedFieldsSplit(values);
    }
  }

  predicate Terminated(data: seq<Byte>) {
    data == [] || data[|data| - 1] == DELIMITER
  }

  /** A payload with its last field terminated, if it was not. */
  function Closed(data: seq<Byte>): seq<Byte> {
    if Terminated(data) then data else data + [DELIMITER]
  }

  lemma ClosedOf(field: seq<Byte>, rest: seq<Byte>)
    requires Terminated(field + [DELIMITER] + rest) <==> Terminated(rest)
    ensures Closed(field + [DELIMITER] + rest) == field + [DELIMITER] + Closed(rest)
  {
    if !Terminated(rest) {
      assert field + [DELIMITER] + rest + [DELIMITER] == field + [DELIMITER] + (rest + [DELIMITER]);
    }
  }

  lemma LoneField(data: seq<Byte>)
    requires data != [] && Position(data) == None
    ensures Join(Split(data)) == data + [DELIMITER] && !Terminated(data)
  {
    JoinCons(data, []);
    assert [data] + [] == [data];
    assert data[|data| - 1] in data;
  }

  /** Any payload is what printing its own fields gives, but that an
      unterminated last field gets its delimiter. */
  lemma {:induction false} PayloadRoundTrip(data: seq<Byte>)
    ensures Join(Split(data)) == if data == [] || data[|data| - 1] == 0x2A then data else data + [0x2A]
    decreases |data|
  {
    if data != [] {
      match Position(data)
      case Some(i) =>
        PayloadRoundTrip(data[i + 1..]);
        FirstField(data, i);
        JoinCons(data[..i], Split(data[i + 1..]));
        ClosedOf(data[..i], data[i + 1..]);
      case None =>
        LoneField(data);
    }
  }

  lemma JoinCons(field: seq<Byte>, fields: seq<seq<Byte>>)
    ensures Join([field] + fields) == field + [DELIMITER] + Join(fields)
  {
    assert ([field] + fields)[1..] == fields;
  }

  /** A terminated field, and the rest of the payload. */
  lemma FirstField(data: seq<Byte>, i: nat)
    requires Position(data) == Some(i)
    ensures data == data[..i] + [DELIMITER] + data[i + 1..]
    ensures Terminated(data) <==> Terminated(data[i + 1..])
    ensures Split(data) == [data[..i]] + Split(data[i + 1..])
  {
    var rest := data[i + 1..];
    if rest == [] {
      assert i == |data| - 1;
    } else {
      assert data[|data| - 1] == rest[|rest| - 1];
    }
  }

  // ---------------------------------------------- software identification

  datatype Software = Software(declared: Byte, data: seq<Byte>)

  function ParseSoftware(payload: seq<Byte>): Result<Software> {
    if payload == [] then Err(ShortPayload(1, 0)) else Ok(Software(payload[0], payload[1..]))
  }

  predicate CountIsConsistent(s: Software) {
    |Split(s.data)| == s.declared
  }

  const COUNT_FIELD := "software identification field count"

  /** Write a software identification: a count byte, then the fields. A buffer
      too short for the fields has its first byte written all the same. */
  method EncodeSoftware(values: seq<seq<Byte>>, out: array<Byte>) returns (r: Result<nat>)
    modifies out
    ensures if |values| > 255 then
        r == Err(ValueOutOfRange(COUNT_FIELD, |values| % 0x1_0000_0000)) && out[..] == old(out[..])
      else if out.Length == 0 then r == Err(ShortPayload(1, 0))
      else if out.Length < 1 + |Join(values)| then
        r == Err(ShortPayload(|Join(values)|, out.Length - 1)) && Overwritten(out[..], old(out[..]), [|values|])
      else r == Ok(1 + |Join(values)|) && Overwritten(out[..], old(out[..]), [|values|] + Join(values))
  {
    if |values| > 255 {
      return Err(ValueOutOfRange(COUNT_FIELD, |values| % 0x1_0000_0000));
    }
    if out.Length == 0 {
      return Err(ShortPayload(1, 0));
    }
    ghost var before := out[..];
    ghost var count: seq<Byte> := [|values|];
    CopyInto(out, before, [], 0, [|values|]);
    assert [] + count == count;
    var fields := EncodeBehind(values, out, before, count, 1);
    match fields
    case Err(e) => r := Err(e);
    case Ok(n) => r := Ok(1 + n);
  }

  function Delimiters(data: seq<Byte>): nat {
    if data == [] then 0 else Delimiters(data[1..]) + if data[0] == DELIMITER then 1 else 0
  }

  lemma {:induction false} DelimitersAdd(a: seq<Byte>, b: seq<Byte>)
    ensures Delimiters(a + b) == Delimiters(a) + Delimiters(b)
  {
    if a == [] {
      assert a + b == b;
    } else {
      assert (a + b)[1..] == a[1..] + b;
      DelimitersAdd(a[1..], b);
    }
  }

  lemma {:induction false} NoDelimiters(data: seq<Byte>)
    ensures Delimiters(data) == 0 <==> DELIMITER !in data
  {
    if data != [] {
      NoDelimiters(data[1..]);
      assert data == [data[0]] + data[1..];
    }
  }

  lemma OneDelimiter(data: seq<Byte>, i: nat)
    requires Position(data) == Some(i)
    ensures Delimiters(data) == 1 + Delimiters(data[i + 1..])
  {
    var field, rest := data[..i], [DELIMITER] + data[i + 1..];
    assert data == field + rest;
    DelimitersAdd(field, rest);
    NoDelimiters(field);
    assert rest[1..] == data[i + 1..];
  }

  /** A payload has one field for each delimiter, and one more if it ends
      without. */
  lemma {:induction false} FieldCount(data: seq<Byte>)
    ensures |Split(data)| == Delimiters(data) + if Terminated(data) then 0 else 1
    decreases |data|
  {
    if data != [] {
      match Position(data)
      case Some(i) =>
        FieldCount(data[i + 1..]);
        FirstField(data, i);
        OneDelimiter(data, i);
      case None =>
        NoDelimiters(data);
        assert data[|data| - 1] in data;
    }
  }

  lemma {:induction false} DelimitersOfJoin(values: seq<seq<Byte>>)
    ensures Delimiters(Join(values)) >= |values|
    ensures Delimiters(Join(values)) == |values| <==> DelimiterFree(values)
  {
    if values != [] {
      DelimitersOfJoin(values[1..]);
      DelimitersAdd(values[0] + [DELIMITER], Join(values[1..]));
      DelimitersAdd(values[0], [DELIMITER]);
      NoDelimiters(values[0]);
      assert Delimiters([DELIMITER]) == 1 by { assert [DELIMITER][1..] == []; }
      assert values == [values[0]] + values[1..];
    }
  }

  lemma {:induction false} JoinIsTerminated(values: seq<seq<Byte>>)
    ensures Terminated(Join(values))
  {
    if values != [] {
      JoinIsTerminated(values[1..]);
    }
  }

  /** A printed software identification is read back with its fields, and its
      count agrees with them, exactly when no field holds a delimiter. */
  lemma SoftwareRoundTrip(values: seq<seq<Byte>>)
    requires |values| <= 255
    ensures var s := ParseSoftware([|values|] + Join(values));
      && s.Ok?
      && (CountIsConsistent(s.value) <==> DelimiterFree(values))
      && (Split(s.value.data) == values <==> DelimiterFree(values))
  {
    var payload := [|values|] + Join(values);
    assert payload[1..] == Join(values);
    FieldCount(Join(values));
    JoinIsTerminated(values);
    DelimitersOfJoin(values);
    FieldsRoundTrip(values);
  }
}
