/** A row of slots, each free or holding one peer's session: what agrees with
    which peers are in progress, how many fit, and what the slots report. */
module Slots {
  import opened Types

  ghost function Image(m: map<Address, nat>): set<nat> {
    set a | a in m :: m[a]
  }

  ghost predicate Injective(m: map<Address, nat>) {
    forall a, b :: a in m && b in m && m[a] == m[b] ==> a == b
  }

  lemma ImageWithout(m: map<Address, nat>, a: Address)
    requires Injective(m) && a in m
    ensures Injective(m - {a})
    ensures m[a] !in Image(m - {a})
    ensures Image(m) == Image(m - {a}) + {m[a]}
  {
    var rest := m - {a};
    forall i | i in Image(m) ensures i in Image(rest) + {m[a]} {
      var b :| b in m && m[b] == i;
      assert b == a || b in rest;
    }
  }

  lemma SizeWithout(m: map<Address, nat>, a: Address)
    requires a in m
    ensures |m - {a}| == |m| - 1
  {
    var rest := m - {a};
    assert m.Keys == rest.Keys + {a};
    assert |m.Keys| == |m| && |rest.Keys| == |rest|;
  }

  lemma {:induction false} ImageSize(m: map<Address, nat>)
    requires Injective(m)
    ensures |Image(m)| == |m|
    decreases |m|
  {
    if a :| a in m {
      SizeWithout(m, a);
      ImageWithout(m, a);
      ImageSize(m - {a});
    }
  }

  ghost function Below(n: nat): (s: set<nat>)
    ensures |s| == n
    ensures forall i :: i in s <==> 0 <= i < n
  {
    if n == 0 then {} else Below(n - 1) + {n - 1}
  }

  lemma SubsetSize(a: set<int>, b: set<int>)
    requires a <= b
    ensures |a| <= |b|
    ensures |a| == |b| ==> a == b
  {
    assert b == a + (b - a);
    assert |b| == |a| + |b - a|;
  }

  /** An injective map into 0..n has at most n keys, and n only if onto. */
  lemma Pigeonhole(m: map<Address, nat>, n: nat)
    requires forall a :: a in m ==> m[a] < n
    requires Injective(m)
    ensures |m| <= n
    ensures |m| == n <==> forall i :: 0 <= i < n ==> i in Image(m)
  {
    ImageSize(m);
    SubsetSize(Image(m), Below(n));
    if forall i :: 0 <= i < n ==> i in Image(m) {
      assert Image(m) == Below(n);
    } else {
      var i :| 0 <= i < n && i !in Image(m);
      assert i in Below(n);
    }
  }

  // ----------------------------------------------------- slots and sessions

  /** The occupied slots are exactly the indexed ones, and each holds the
      session of the peer it is indexed for. */
  ghost predicate Agrees<S>(row: seq<Option<S>>, index: map<Address, nat>, sessions: map<Address, S>) {
    && index.Keys == sessions.Keys
    && Injective(index)
    && (forall a :: a in index ==> index[a] < |row| && row[index[a]] == Some(sessions[a]))
    && (forall i {:trigger i in Image(index)} :: 0 <= i < |row| && row[i].Some? ==> i in Image(index))
  }

  lemma HolderOf<S>(row: seq<Option<S>>, index: map<Address, nat>, sessions: map<Address, S>, i: nat)
    returns (a: Address)
    requires Agrees(row, index, sessions) && i < |row| && row[i].Some?
    ensures a in index && index[a] == i && row[i] == Some(sessions[a])
  {
    assert i in Image(index);
    a :| a in index && index[a] == i;
  }

  /** There are never more sessions than slots, and room for one more is
      exactly a free slot. */
  lemma RoomIsFree<S>(row: seq<Option<S>>, index: map<Address, nat>, sessions: map<Address, S>)
    requires Agrees(row, index, sessions)
    ensures |sessions| <= |row|
    ensures |sessions| < |row| <==> exists i :: 0 <= i < |row| && row[i].None?
  {
    Pigeonhole(index, |row|);
    assert |sessions.Keys| == |index.Keys|;
    forall i | 0 <= i < |row| ensures i in Image(index) <==> row[i].Some? {
      if i in Image(index) {
        var a :| a in index && index[a] == i;
        assert row[index[a]].Some?;
      }
    }
  }

  lemma PlaceAgrees<S>(
      row: seq<Option<S>>, index: map<Address, nat>, sessions: map<Address, S>, i: nat, a: Address, s: S)
    requires Agrees(row, index, sessions) && i < |row|
    requires if a in index then index[a] == i else row[i].None?
    ensures Agrees(row[i := Some(s)], index[a := i], sessions[a := s])
  {
    var row', index' := row[i := Some(s)], index[a := i];
    forall j | 0 <= j < |row'| && row'[j].Some? ensures j in Image(index') {
      if j == i {
        assert index'[a] == j;
      } else {
        var b := HolderOf(row, index, sessions, j);
        assert index'[b] == j;
      }
    }
  }

  lemma ReleaseAgrees<S>(row: seq<Option<S>>, index: map<Address, nat>, sessions: map<Address, S>, a: Address)
    requires Agrees(row, index, sessions) && a in index
    ensures Agrees(row[index[a] := None], index - {a}, sessions - {a})
  {
    var row', index' := row[index[a] := None], index - {a};
    forall j | 0 <= j < |row'| && row'[j].Some? ensures j in Image(index') {
      var b := HolderOf(row, index, sessions, j);
      assert index'[b] == j;
    }
  }

  /** The index of the peers that are still in progress. */
  function Kept<S>(index: map<Address, nat>, sessions: map<Address, S>): map<Address, nat> {
    map a | a in index && a in sessions :: index[a]
  }

  /** Slots in which every session changes or ends as its peer's does. */
  lemma ChangesAgree<S>(
      row: seq<Option<S>>, row': seq<Option<S>>, index: map<Address, nat>, sessions: map<Address, S>,
      sessions': map<Address, S>)
    requires Agrees(row, index, sessions) && |row'| == |row| && sessions'.Keys <= sessions.Keys
    requires forall a :: a in index ==> row'[index[a]] == Peer(sessions', a)
    requires forall i :: 0 <= i < |row| && row[i].None? ==> row'[i].None?
    ensures Agrees(row', Kept(index, sessions'), sessions')
  {
    var index' := Kept(index, sessions');
    assert index'.Keys == sessions'.Keys;
    forall j | 0 <= j < |row'| && row'[j].Some? ensures j in Image(index') {
      var a := HolderOf(row, index, sessions, j);
      assert index'[a] == j;
    }
  }

  // ----------------------------------------------------------- their reports

  /** What the slots have to report, in order. */
  function Reports<T>(slots: seq<Option<T>>): seq<T> {
    if slots == [] then []
    else
      var last := slots[|slots| - 1];
      Reports(slots[..|slots| - 1]) + if last.Some? then [last.value] else []
  }

  lemma {:induction false} ReportsAre<T>(slots: seq<Option<T>>, e: T)
    ensures e in Reports(slots) <==> Some(e) in slots
  {
    if slots != [] {
      var n := |slots| - 1;
      ReportsAre(slots[..n], e);
      assert slots == slots[..n] + [slots[n]];
    }
  }

  /** Slots that report on different peers report on each once. */
  lemma {:induction false} ReportsDistinct<E>(slots: seq<Option<(Address, E)>>)
    requires forall i, j :: 0 <= i < j < |slots| && slots[i].Some? && slots[j].Some? ==>
      slots[i].value.0 != slots[j].value.0
    ensures forall p, q :: 0 <= p < q < |Reports(slots)| ==> Reports(slots)[p].0 != Reports(slots)[q].0
  {
    if slots != [] {
      var n := |slots| - 1;
      ReportsDistinct(slots[..n]);
      var earlier := Reports(slots[..n]);
      forall p | 0 <= p < |earlier| && slots[n].Some?
        ensures earlier[p].0 != slots[n].value.0
      {
        ReportsAre(slots[..n], earlier[p]);
        var i :| 0 <= i < n && slots[..n][i] == Some(earlier[p]);
        assert slots[i] == Some(earlier[p]);
      }
    }
  }
}
