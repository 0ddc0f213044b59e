/** Writing into a caller's buffer from the front. */
module Buffers {
  import opened Types

  /** A payload is written whole, at the front of the buffer, with its length
      reported; or, if it does not fit, refused with nothing written. */
  ghost predicate Written(r: Result<nat>, payload: seq<Byte>, before: seq<Byte>, after: seq<Byte>) {
    if |before| < |payload| then r == Err(ShortPayload(|payload|, |before|)) && after == before
    else r == Ok(|payload|) && after == payload + before[|payload|..]
  }

  /** A buffer whose front has been overwritten and whose rest is as before. */
  ghost predicate Overwritten(now: seq<Byte>, before: seq<Byte>, front: seq<Byte>) {
    |front| <= |before| && now == front + before[|front|..]
  }

  lemma OverwriteMore(now: seq<Byte>, before: seq<Byte>, front: seq<Byte>, more: seq<Byte>)
    requires Overwritten(now, before, front) && |front| + |more| <= |before|
    ensures Overwritten(now[..|front|] + more + now[|front| + |more|..], before, front + more)
  {
    assert now[|front| + |more|..] == before[|front| + |more|..];
    assert now[..|front|] == front;
  }

  /** Write more bytes behind the front. */
  method CopyInto(out: array<Byte>, ghost before: seq<Byte>, ghost front: seq<Byte>, start: nat, bytes: seq<Byte>)
    requires start == |front| && start + |bytes| <= out.Length
    requires Overwritten(out[..], before, front)
    modifies out
    ensures Overwritten(out[..], before, front + bytes)
  {
    OverwriteMore(out[..], before, front, bytes);
    forall k | 0 <= k < |bytes| {
      out[start + k] := bytes[k];
    }
    assert out[start..start + |bytes|] == bytes;
    assert out[..] == out[..start] + out[start..start + |bytes|] + out[start + |bytes|..];
  }

  /** Copy bytes into one row of a block of buffers; nothing else changes. */
  method CopyIntoRow(rows: array2<Byte>, row: nat, start: nat, bytes: seq<Byte>)
    requires row < rows.Length0 && start + |bytes| <= rows.Length1
    modifies rows
    ensures forall i, j :: 0 <= i < rows.Length0 && 0 <= j < rows.Length1 ==>
      rows[i, j] == if i == row && start <= j < start + |bytes| then bytes[j - start] else old(rows[i, j])
  {
    forall k | start <= k < start + |bytes| {
      rows[row, k] := bytes[k - start];
    }
  }
}
