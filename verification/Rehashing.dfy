/** The in-place rebuild of the open-addressing table: what it keeps, what it repairs, what it can lose. */
module Rehashing {
  import opened Bits
  import opened Probing
  import opened ProbeTable

  function ClearedSlot<V>(s: Slot<V>): Slot<V> {
    if s.state.Tombstone? then s.(state := Empty) else s
  }

  function Cleared<V>(t: seq<Slot<V>>): seq<Slot<V>> {
    seq(|t|, i requires 0 <= i < |t| => ClearedSlot(t[i]))
  }

  /** The first slot from probe step `n` on that is not occupied. */
  function FreeSlot<V>(probe: Probe, t: seq<Slot<V>>, key: nat, n: nat): (i: nat)
    requires |t| > 0
    ensures i < |t|
    decreases |t| - n
  {
    if n >= |t| || !t[Path(probe, key, n, |t|)].state.Occupied? then Path(probe, key, n, |t|)
    else FreeSlot(probe, t, key, n + 1)
  }

  function Reinserted<V>(probe: Probe, t: seq<Slot<V>>, i: nat): (r: seq<Slot<V>>)
    requires i < |t|
    ensures |r| == |t|
  {
    var hole := t[i := t[i].(state := Empty)];
    hole[FreeSlot(probe, hole, t[i].key, 0) := t[i]]
  }

  function RehashFrom<V>(probe: Probe, t: seq<Slot<V>>, i: nat): (r: seq<Slot<V>>)
    requires i <= |t|
    ensures |r| == |t|
    decreases |t| - i
  {
    if i == |t| then t
    else RehashFrom(probe, if t[i].state.Occupied? then Reinserted(probe, t, i) else t, i + 1)
  }

  function Rehashed<V>(probe: Probe, t: seq<Slot<V>>): (r: seq<Slot<V>>)
    ensures |r| == |t|
  {
    RehashFrom(probe, Cleared(t), 0)
  }

  /** As long as some slot on the path is free, the answer is the first free one. */
  lemma {:induction false} FreeSlotIsFirst<V>(probe: Probe, t: seq<Slot<V>>, key: nat, n: nat, limit: nat)
    requires |t| > 0 && n <= limit < |t|
    requires !t[Path(probe, key, limit, |t|)].state.Occupied?
    requires OccupiedBefore(probe, t, key, n)
    ensures FirstFree(probe, t, key, FreeSlot(probe, t, key, n))
    decreases limit - n
  {
    if t[Path(probe, key, n, |t|)].state.Occupied? {
      FreeSlotIsFirst(probe, t, key, n + 1, limit);
    }
  }

  /** The slot just vacated bounds the search for a new place. */
  lemma HoleIsReached<V>(probe: Probe, t: seq<Slot<V>>, i: nat)
    requires IsPowerOfTwo(|t|) && i < |t| && t[i].state.Occupied?
    ensures var hole := t[i := t[i].(state := Empty)];
            FirstFree(probe, hole, t[i].key, FreeSlot(probe, hole, t[i].key, 0))
  {
    var hole := t[i := t[i].(state := Empty)];
    var limit := EverySlotVisited(probe, t[i].key % |t|, i, |t|);
    FreeSlotIsFirst(probe, hole, t[i].key, 0, limit);
  }

  lemma ReinsertKeepsMap<V>(probe: Probe, t: seq<Slot<V>>, i: nat, m: map<nat, V>)
    requires IsPowerOfTwo(|t|) && i < |t| && t[i].state.Occupied?
    requires UniqueKeys(t) && Represents(t, m)
    ensures var r := Reinserted(probe, t, i); UniqueKeys(r) && Represents(r, m)
  {
    var hole := t[i := t[i].(state := Empty)];
    HoleIsReached(probe, t, i);
    EraseRepresents(t, m, i, hole[i]);
    InsertRepresents(hole, m - {t[i].key}, t[i].key, FreeSlot(probe, hole, t[i].key, 0), t[i]);
    assert (m - {t[i].key})[t[i].key := t[i].value] == m;
  }

  lemma {:induction false} RehashFromKeepsMap<V>(probe: Probe, t: seq<Slot<V>>, i: nat, m: map<nat, V>)
    requires IsPowerOfTwo(|t|) && i <= |t| && UniqueKeys(t) && Represents(t, m)
    ensures var r := RehashFrom(probe, t, i); UniqueKeys(r) && Represents(r, m)
    decreases |t| - i
  {
    if i < |t| {
      if t[i].state.Occupied? {
        ReinsertKeepsMap(probe, t, i, m);
        RehashFromKeepsMap(probe, Reinserted(probe, t, i), i + 1, m);
      } else {
        RehashFromKeepsMap(probe, t, i + 1, m);
      }
    }
  }

  /** The rebuild changes neither the uniqueness of keys nor the bindings. */
  lemma RehashKeepsMap<V>(probe: Probe, t: seq<Slot<V>>, m: map<nat, V>)
    requires IsPowerOfTwo(|t|) && UniqueKeys(t) && Represents(t, m)
    ensures UniqueKeys(Rehashed(probe, t)) && Represents(Rehashed(probe, t), m)
  {
    var c := Cleared(t);
    forall key | key in m
      ensures !Absent(c, key)
    {
      var i :| 0 <= i < |t| && Holds(t, i, key);
      assert Holds(c, i, key);
    }
    RehashFromKeepsMap(probe, c, 0, m);
  }

  ghost predicate NoTombstones<V>(t: seq<Slot<V>>) {
    forall i :: 0 <= i < |t| ==> !t[i].state.Tombstone?
  }

  lemma {:induction false} RehashFromLeavesNoTombstone<V>(probe: Probe, t: seq<Slot<V>>, i: nat)
    requires i <= |t| && NoTombstones(t)
    ensures NoTombstones(RehashFrom(probe, t, i))
    decreases |t| - i
  {
    if i < |t| {
      RehashFromLeavesNoTombstone(probe, if t[i].state.Occupied? then Reinserted(probe, t, i) else t, i + 1);
    }
  }

  ghost function One<V>(s: Slot<V>, key: nat, v: V): nat {
    if s.state.Occupied? && s.key == key && s.value == v then 1 else 0
  }

  /** How many occupied slots hold the entry `(key, v)`. */
  ghost function Occurrences<V>(t: seq<Slot<V>>, key: nat, v: V): nat {
    if t == [] then 0 else Occurrences(t[..|t| - 1], key, v) + One(t[|t| - 1], key, v)
  }

  lemma {:induction false} OccurrencesUpdate<V>(t: seq<Slot<V>>, i: nat, s: Slot<V>, key: nat, v: V)
    requires i < |t|
    ensures Occurrences(t[i := s], key, v) + One(t[i], key, v) == Occurrences(t, key, v) + One(s, key, v)
  {
    var n := |t| - 1;
    if i == n {
      assert t[i := s][..n] == t[..n];
    } else {
      OccurrencesUpdate(t[..n], i, s, key, v);
      assert t[i := s][..n] == t[..n][i := s];
    }
  }

  lemma ReinsertKeepsEntries<V>(probe: Probe, t: seq<Slot<V>>, i: nat, key: nat, v: V)
    requires IsPowerOfTwo(|t|) && i < |t| && t[i].state.Occupied?
    ensures Occurrences(Reinserted(probe, t, i), key, v) == Occurrences(t, key, v)
  {
    var hole := t[i := t[i].(state := Empty)];
    HoleIsReached(probe, t, i);
    OccurrencesUpdate(t, i, hole[i], key, v);
    OccurrencesUpdate(hole, FreeSlot(probe, hole, t[i].key, 0), t[i], key, v);
  }

  lemma {:induction false} RehashFromKeepsEntries<V>(probe: Probe, t: seq<Slot<V>>, i: nat, key: nat, v: V)
    requires IsPowerOfTwo(|t|) && i <= |t|
    ensures Occurrences(RehashFrom(probe, t, i), key, v) == Occurrences(t, key, v)
    decreases |t| - i
  {
    if i < |t| {
      var next := if t[i].state.Occupied? then Reinserted(probe, t, i) else t;
      if t[i].state.Occupied? {
        ReinsertKeepsEntries(probe, t, i, key, v);
      }
      RehashFromKeepsEntries(probe, next, i + 1, key, v);
    }
  }

  lemma {:induction false} ClearedKeepsEntries<V>(t: seq<Slot<V>>, key: nat, v: V)
    ensures Occurrences(Cleared(t), key, v) == Occurrences(t, key, v)
  {
    if t != [] {
      var n := |t| - 1;
      ClearedKeepsEntries(t[..n], key, v);
      assert Cleared(t)[..n] == Cleared(t[..n]);
    }
  }

  /** On any table, with either probe, the rebuild keeps the multiset of entries and leaves no tombstone. */
  lemma RehashConserves<V>(probe: Probe, t: seq<Slot<V>>, key: nat, v: V)
    requires IsPowerOfTwo(|t|)
    ensures Occurrences(Rehashed(probe, t), key, v) == Occurrences(t, key, v)
    ensures NoTombstones(Rehashed(probe, t))
  {
    ClearedKeepsEntries(t, key, v);
    RehashFromKeepsEntries(probe, Cleared(t), 0, key, v);
    RehashFromLeavesNoTombstone(probe, Cleared(t), 0);
  }

  /** Without tombstones there is nothing to reclaim: the rebuild puts every entry back in its slot. */
  lemma {:induction false} RehashWithoutTombstones<V>(probe: Probe, t: seq<Slot<V>>, i: nat)
    requires IsPowerOfTwo(|t|) && i <= |t| && NoTombstones(t) && PathsOpen(probe, t)
    ensures RehashFrom(probe, t, i) == t && Cleared(t) == t
    decreases |t| - i
  {
    if i < |t| {
      if t[i].state.Occupied? {
        ReinsertedInPlace(probe, t, i);
      }
      RehashWithoutTombstones(probe, t, i + 1);
    }
  }

  lemma ReinsertedInPlace<V>(probe: Probe, t: seq<Slot<V>>, i: nat)
    requires IsPowerOfTwo(|t|) && i < |t| && NoTombstones(t) && PathsOpen(probe, t)
    requires t[i].state.Occupied?
    ensures Reinserted(probe, t, i) == t
  {
    var key := t[i].key;
    var hole := t[i := t[i].(state := Empty)];
    HoleIsReached(probe, t, i);
    var free := FreeSlot(probe, hole, key, 0);
    var n: nat :| n < |t| && Path(probe, key, n, |t|) == free && OccupiedBefore(probe, hole, key, n);
    var v := EverySlotVisited(probe, key % |t|, i, |t|);
    assert Path(probe, key, v, |t|) == i;
    assert OpenUpTo(probe, t, key, i);
    if n < v {
      PathsDistinct(probe, key, n, v, |t|);
    }
  }

  // ----- when nothing moves -----

  /** The step of the path of `key` that stands on slot `j`, from step `n` on. */
  function StepOf(probe: Probe, key: nat, j: nat, n: nat, cap: nat): (r: nat)
    requires cap > 0
    decreases cap - n
  {
    if n >= cap || Path(probe, key, n, cap) == j then n else StepOf(probe, key, j, n + 1, cap)
  }

  lemma {:induction false} StepOfPath(probe: Probe, key: nat, j: nat, n: nat, v: nat, cap: nat)
    requires IsPowerOfTwo(cap) && n <= v < cap && Path(probe, key, v, cap) == j
    ensures StepOf(probe, key, j, n, cap) == v
    decreases v - n
  {
    if Path(probe, key, n, cap) == j {
      PathsDistinct(probe, key, n, v, cap);
    } else {
      StepOfPath(probe, key, j, n + 1, v, cap);
    }
  }

  /** How many steps the search for the entry in slot `j` takes, and how many all searches take together. */
  function SearchSteps<V>(probe: Probe, s: Slot<V>, j: nat, cap: nat): nat
    requires cap > 0
  {
    if s.state.Occupied? then StepOf(probe, s.key, j, 0, cap) else 0
  }

  function AllSteps<V>(probe: Probe, t: seq<Slot<V>>, cap: nat): nat
    requires cap > 0
  {
    if t == [] then 0 else AllSteps(probe, t[..|t| - 1], cap) + SearchSteps(probe, t[|t| - 1], |t| - 1, cap)
  }

  lemma {:induction false} AllStepsUpdate<V>(probe: Probe, t: seq<Slot<V>>, i: nat, s: Slot<V>, cap: nat)
    requires cap > 0 && i < |t|
    ensures AllSteps(probe, t[i := s], cap) + SearchSteps(probe, t[i], i, cap) ==
            AllSteps(probe, t, cap) + SearchSteps(probe, s, i, cap)
  {
    var n := |t| - 1;
    if i == n {
      assert t[i := s][..n] == t[..n];
    } else {
      AllStepsUpdate(probe, t[..n], i, s, cap);
      assert t[i := s][..n] == t[..n][i := s];
    }
  }

  /** Where the entry of slot `i` goes, it needs no more steps, and as many only if it stays; and where it stays, its
      search meets no empty slot. */
  lemma ReinsertSteps<V>(probe: Probe, t: seq<Slot<V>>, i: nat)
    requires IsPowerOfTwo(|t|) && i < |t| && t[i].state.Occupied?
    ensures AllSteps(probe, Reinserted(probe, t, i), |t|) <= AllSteps(probe, t, |t|)
    ensures AllSteps(probe, Reinserted(probe, t, i), |t|) == AllSteps(probe, t, |t|) ==>
              Reinserted(probe, t, i) == t && OpenUpTo(probe, t, t[i].key, i)
  {
    var hole, key := t[i := t[i].(state := Empty)], t[i].key;
    var q := FreeSlot(probe, hole, key, 0);
    HoleIsReached(probe, t, i);
    var n: nat :| n < |t| && Path(probe, key, n, |t|) == q && OccupiedBefore(probe, hole, key, n);
    var v := EverySlotVisited(probe, key % |t|, i, |t|);
    assert Path(probe, key, v, |t|) == i && n <= v;
    StepOfPath(probe, key, q, 0, n, |t|);
    StepOfPath(probe, key, i, 0, v, |t|);
    AllStepsUpdate(probe, t, i, hole[i], |t|);
    AllStepsUpdate(probe, hole, q, t[i], |t|);
    if n == v {
      StaysOpen(probe, t, i, v);
    }
  }

  lemma StaysOpen<V>(probe: Probe, t: seq<Slot<V>>, i: nat, v: nat)
    requires IsPowerOfTwo(|t|) && i < |t| && v < |t| && Path(probe, t[i].key, v, |t|) == i
    requires OccupiedBefore(probe, t[i := t[i].(state := Empty)], t[i].key, v)
    ensures OpenUpTo(probe, t, t[i].key, i)
  {
    var hole := t[i := t[i].(state := Empty)];
    forall n: nat, u: nat | u < n < |t| && Path(probe, t[i].key, n, |t|) == i
      ensures !t[Path(probe, t[i].key, u, |t|)].state.Empty?
    {
      PathsDistinct(probe, t[i].key, n, v, |t|);
      assert hole[Path(probe, t[i].key, u, |t|)].state.Occupied?;
    }
  }

  lemma {:induction false} RehashSteps<V>(probe: Probe, t: seq<Slot<V>>, i: nat)
    requires IsPowerOfTwo(|t|) && i <= |t|
    ensures var r := RehashFrom(probe, t, i);
            && AllSteps(probe, r, |t|) <= AllSteps(probe, t, |t|)
            && (AllSteps(probe, r, |t|) == AllSteps(probe, t, |t|) ==>
                  forall j | i <= j < |t| && t[j].state.Occupied? :: OpenUpTo(probe, t, t[j].key, j))
    decreases |t| - i
  {
    if i < |t| {
      var next := if t[i].state.Occupied? then Reinserted(probe, t, i) else t;
      if t[i].state.Occupied? {
        ReinsertSteps(probe, t, i);
      }
      RehashSteps(probe, next, i + 1);
      assert RehashFrom(probe, t, i) == RehashFrom(probe, next, i + 1);
    }
  }

  /** Exactly when the rebuild does no more than clear the tombstones, under either probe sequence: clearing them leaves
      no gap in front of an entry. Every key is then findable. */
  lemma RebuildMovesNothing<V>(probe: Probe, t: seq<Slot<V>>)
    requires IsPowerOfTwo(|t|)
    ensures Rehashed(probe, t) == Cleared(t) <==> PathsOpen(probe, Cleared(t))
    ensures PathsOpen(probe, Cleared(t)) ==> PathsOpen(probe, Rehashed(probe, t))
  {
    var c := Cleared(t);
    if PathsOpen(probe, c) {
      RehashWithoutTombstones(probe, c, 0);
    }
    RehashSteps(probe, c, 0);
  }

  // ----- a table that the rebuild damages -----

  /** The table with keys 6 and 3 left after 2, 1, 6, 3 went in and 1, 2 came out of four slots. */
  function WrappedTable(): seq<Slot<int>> {
    [Slot(3, 30, Occupied), Slot(1, 10, Tombstone), Slot(2, 20, Tombstone), Slot(6, 60, Occupied)]
  }

  lemma WrappedPaths(probe: Probe)
    ensures Path(probe, 3, 0, 4) == 3 && Path(probe, 3, 1, 4) == 0
    ensures Path(probe, 6, 0, 4) == 2 && Path(probe, 6, 1, 4) == 3
    ensures Path(probe, 1, 0, 4) == 1 && Path(probe, 2, 0, 4) == 2
  {
    PathStep(probe, 3, 0, 4);
    PathStep(probe, 6, 0, 4);
  }

  lemma WrappedRebuild(probe: Probe)
    ensures var t := WrappedTable();
            Rehashed(probe, t) == [t[0], t[1].(state := Empty), t[3], t[3].(state := Empty)]
  {
    WrappedPaths(probe);
    var t := WrappedTable();
    var c := [t[0], t[1].(state := Empty), t[2].(state := Empty), t[3]];
    assert Cleared(t) == c;
    var hole0 := c[0 := c[0].(state := Empty)];
    assert FreeSlot(probe, hole0, 3, 1) == 0 == FreeSlot(probe, hole0, 3, 0);
    assert Reinserted(probe, c, 0) == c;
    var hole3 := c[3 := c[3].(state := Empty)];
    assert FreeSlot(probe, hole3, 6, 0) == 2;
    var r := Reinserted(probe, c, 3);
    assert RehashFrom(probe, c, 3) == RehashFrom(probe, r, 4) == r;
    assert RehashFrom(probe, c, 1) == RehashFrom(probe, c, 2) == RehashFrom(probe, c, 3);
  }

  /** Under either probe sequence a rebuild can lose a key that was findable before: 3 stays in slot 0, but no
      search finds it there. */
  lemma RehashLosesWrappedKey(probe: Probe)
    ensures PathsOpen(probe, WrappedTable()) && Holds(WrappedTable(), 0, 3)
    ensures Holds(Rehashed(probe, WrappedTable()), 0, 3)
    ensures !PathsOpen(probe, Rehashed(probe, WrappedTable()))
  {
    WrappedPaths(probe);
    WrappedRebuild(probe);
    var r := Rehashed(probe, WrappedTable());
    assert r[Path(probe, 3, 0, |r|)].state.Empty?;
    assert Path(probe, 3, 1, |r|) == 0;
    assert !OpenUpTo(probe, r, 3, 0);
  }
}
