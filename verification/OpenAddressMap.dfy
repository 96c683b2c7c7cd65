/** The open-addressing hash table: a fixed array of slots searched along a probe sequence. */
module OpenAddressing {
  import opened Bits
  import opened Options
  import opened Probing
  import opened ProbeTable
  import opened Rehashing
  import opened Repairing

  /** Erasing slot `i` without a rebuild. */
  function Erased<V>(t: seq<Slot<V>>, i: nat): seq<Slot<V>>
    requires i < |t|
  {
    t[i := t[i].(state := Tombstone)]
  }

  class OpenAddressMap<V(0)> {
    const probe: Probe
    const rehashing: bool
    const table: array<Slot<V>>
    var tombstones: nat  // a 64-bit counter that wraps; see Search
    ghost var contents: map<nat, V>

    ghost predicate Valid()
      reads this, table
    {
      && table.Length > 0 && IsPowerOfTwo(table.Length)
      && UniqueKeys(table[..]) && PathsOpen(probe, table[..]) && Represents(table[..], contents)
    }

    constructor (probe: Probe, rehashing: bool, cap: nat)
      requires cap > 0 && IsPowerOfTwo(cap)
      ensures Valid() && contents == map[] && fresh(table) && table.Length == cap
      ensures this.probe == probe && this.rehashing == rehashing && tombstones == 0
      ensures forall i :: 0 <= i < cap ==> table[i].state.Empty? && table[i] == table[0]
    {
      this.probe, this.rehashing := probe, rehashing;
      var v: V := *;
      table := new Slot<V>[cap](_ => Slot(0, v, Empty));
      tombstones := 0;
      contents := map[];
    }

    /** The counter after a search for `key`. */
    ghost function TombstonesAfterSearch(key: nat): nat
      requires table.Length > 0
      reads this, table
    {
      if MeetsTombstone(probe, table[..], key) then (tombstones + TWO_TO_64 - 1) % TWO_TO_64 else tombstones
    }

    /** The probe loop behind every operation. `None` is the exception "map saturated". Each search that
        passes a tombstone decrements the counter, lookups included. */
    method Search(key: nat) returns (r: Option<nat>)
      requires Valid()
      modifies this`tombstones
      ensures Valid() && SearchAnswer(probe, table[..], key, r)
      ensures tombstones == old(TombstonesAfterSearch(key))
    {
      var cap := table.Length;
      var original := Mask(key, cap);
      var index := original;
      var attempt: nat := 0;
      var firstTombstone: Option<nat> := None;
      ghost var t := table[..];
      while true
        invariant attempt < ReturnTime(probe, cap) && index == Path(probe, key, attempt, cap)
        invariant Searched(probe, t, key, attempt, firstTombstone)
        invariant tombstones ==
                    if firstTombstone.Some? then (old(tombstones) + TWO_TO_64 - 1) % TWO_TO_64 else old(tombstones)
        decreases ReturnTime(probe, cap) - attempt
      {
        var slot := table[index];
        if slot.state.Occupied? && slot.key == key {
          SearchEnds(probe, t, key, attempt, firstTombstone);
          return Some(index);
        }
        if slot.state.Empty? {
          SearchEnds(probe, t, key, attempt, firstTombstone);
          return if firstTombstone.Some? then firstTombstone else Some(index);
        }
        ghost var first := firstTombstone;
        if slot.state.Tombstone? && firstTombstone.None? {
          firstTombstone := Some(index);
          tombstones := (tombstones + TWO_TO_64 - 1) % TWO_TO_64;
        }
        SearchGoesOn(probe, t, key, attempt, first, firstTombstone);
        PathStep(probe, key, attempt, cap);
        attempt := attempt + 1;
        FirstReturn(probe, original, attempt, cap);
        index := Advance(probe, index, attempt, cap);
        if index == original {
          SearchCircles(probe, t, key, attempt, firstTombstone);
          return firstTombstone;
        }
      }
    }

    /** `operator[]`: claims a slot for the key. A fresh key finds whatever value the slot last held. */
    method Subscript(key: nat) returns (r: Option<nat>)
      requires Valid()
      modifies this, table
      ensures Valid()
      ensures r.None? <==> old(Saturated(table[..])) && key !in old(contents)
      ensures r.None? ==> contents == old(contents) && table[..] == old(table[..])
      ensures SearchAnswer(probe, old(table[..]), key, r)
      ensures r.Some? ==> table[..] == old(table[..])[r.value := Slot(key, old(table[..])[r.value].value, Occupied)]
      ensures r.Some? ==> contents == old(contents)[key := old(table[..])[r.value].value]
      ensures tombstones == old(TombstonesAfterSearch(key))
    {
      r := Search(key);
      AbsentMeansUnmapped(table[..], contents, key);
      if r.Some? {
        var i := r.value;
        ghost var t := table[..];
        ghost var s := Slot(key, table[i].value, Occupied);
        if !Holds(t, i, key) {
          InsertKeepsPaths(probe, t, key, i, s);
        } else {
          assert t[i := s] == t;
        }
        InsertRepresents(t, contents, key, i, s);
        table[i] := Slot(key, table[i].value, Occupied);
        contents := contents[key := table[i].value];
        assert table[..] == t[i := s];
      }
    }

    /** Assignment through the reference that `operator[]` or a handle gave out. */
    method Store(i: nat, value: V)
      requires Valid() && i < table.Length && table[i].state.Occupied?
      modifies this, table
      ensures Valid() && contents == old(contents)[old(table[i].key) := value]
      ensures table[..] == old(table[..])[i := old(table[i]).(value := value)]
      ensures tombstones == old(tombstones)
    {
      ghost var t := table[..];
      ghost var s := table[i].(value := value);
      ReplaceKeepsPaths(probe, t, i, s);
      InsertRepresents(t, contents, s.key, i, s);
      table[i] := Slot(table[i].key, value, table[i].state);
      contents := contents[s.key := value];
      assert table[..] == t[i := s];
    }

    /** `map[key] = value`: fails exactly when every slot is occupied and the key is new. */
    method Put(key: nat, value: V) returns (ok: bool)
      requires Valid()
      modifies this, table
      ensures Valid()
      ensures ok <==> !(old(Saturated(table[..])) && key !in old(contents))
      ensures contents == if ok then old(contents)[key := value] else old(contents)
      ensures if ok then exists i: nat ::
                           && i < table.Length && SearchAnswer(probe, old(table[..]), key, Some(i))
                           && table[..] == old(table[..])[i := Slot(key, value, Occupied)]
              else table[..] == old(table[..])
      ensures tombstones == old(TombstonesAfterSearch(key))
    {
      var r := Subscript(key);
      ok := r.Some?;
      if ok {
        Store(r.value, value);
        assert table[..] == old(table[..])[r.value := Slot(key, value, Occupied)];
      }
    }

    /** `find`: the outer `None` is the saturation exception, the inner one the null handle. */
    method Find(key: nat) returns (r: Option<Option<nat>>)
      requires Valid()
      modifies this`tombstones
      ensures Valid() && tombstones == old(TombstonesAfterSearch(key))
      ensures r.None? <==> Saturated(table[..]) && key !in contents
      ensures r.Some? ==> (r.value.Some? <==> key in contents)
      ensures r.Some? && r.value.Some? ==>
                Holds(table[..], r.value.value, key) && table[r.value.value].value == contents[key]
    {
      var found := Search(key);
      AbsentMeansUnmapped(table[..], contents, key);
      if found.None? {
        return None;
      }
      var slot := table[found.value];
      if !slot.state.Occupied? || slot.key != key {
        return Some(None);
      }
      return Some(Some(found.value));
    }

    /** Whether erasing now triggers a rebuild: rehashing is on, and the counter passes a quarter of the slots. */
    predicate Rebuilds(count: nat) {
      rehashing && (count + 1) % TWO_TO_64 > table.Length / 4
    }

    /** The slots after erasing slot `i` with the counter at `count`. */
    ghost function AfterErase(t: seq<Slot<V>>, i: nat, count: nat): seq<Slot<V>>
      requires i < |t|
    {
      if Rebuilds(count) then Rehashed(probe, Erased(t, i)) else Erased(t, i)
    }

    /** Erasing through a handle leaves a tombstone with the old value in it. With rehashing on, more
        tombstones than a quarter of the slots trigger a rebuild in place. Unless that happens the table stays in
        order; if it does, a linearly probed table stays in order exactly if it is repairable. */
    method EraseHandle(i: nat)
      requires Valid() && i < table.Length && table[i].state.Occupied?
      modifies this, table
      ensures table[..] == old(AfterErase(table[..], i, tombstones))
      ensures contents == old(contents) - {old(table[i].key)}
      ensures UniqueKeys(table[..]) && Represents(table[..], contents)
      ensures !Rebuilds(old(tombstones)) ==> Valid()
      ensures probe.Linear? ==> (Valid() <==> !Rebuilds(old(tombstones)) || Repairable(Erased(old(table[..]), i)))
      ensures tombstones == if Rebuilds(old(tombstones)) then 0 else (old(tombstones) + 1) % TWO_TO_64
    {
      ghost var t := table[..];
      ghost var s := table[i].(state := Tombstone);
      ReplaceKeepsPaths(probe, t, i, s);
      EraseRepresents(t, contents, i, s);
      table[i] := Slot(table[i].key, table[i].value, Tombstone);
      contents := contents - {s.key};
      assert table[..] == Erased(t, i);
      tombstones := (tombstones + 1) % TWO_TO_64;
      if rehashing {
        if tombstones > table.Length / 4 {
          RehashKeepsMap(probe, Erased(t, i), contents);
          RepairsExactly(Erased(t, i));
          Rehash();
        }
      }
    }

    /** Erasing by key: nothing happens to an absent key unless the search itself fails. */
    method Erase(key: nat) returns (ok: bool)
      requires Valid()
      modifies this, table
      ensures ok <==> !(old(Saturated(table[..])) && key !in old(contents))
      ensures contents == old(contents) - {key}
      ensures UniqueKeys(table[..]) && Represents(table[..], contents)
      ensures if key in old(contents)
              then exists i: nat ::
                     Holds(old(table[..]), i, key) &&
                     table[..] == AfterErase(old(table[..]), i, old(TombstonesAfterSearch(key)))
              else table[..] == old(table[..])
      ensures var count := old(TombstonesAfterSearch(key));
              tombstones == if key !in old(contents) then count
                            else if Rebuilds(count) then 0 else (count + 1) % TWO_TO_64
      ensures key !in old(contents) || !Rebuilds(old(TombstonesAfterSearch(key))) ==> Valid()
      ensures probe.Linear? && key in old(contents) && Rebuilds(old(TombstonesAfterSearch(key))) ==>
                forall i: nat :: Holds(old(table[..]), i, key) ==>
                  (Valid() <==> Repairable(Erased(old(table[..]), i)))
    {
      var h := Find(key);
      ok := h.Some?;
      if ok && h.value.Some? {
        EraseHandle(h.value.value);
      } else {
        assert contents - {key} == contents;
      }
    }

    method ClearTombstones()
      modifies table
      ensures table[..] == Cleared(old(table[..]))
    {
      ghost var t := table[..];
      for j := 0 to table.Length
        invariant forall k :: 0 <= k < table.Length ==> table[k] == if k < j then ClearedSlot(t[k]) else t[k]
      {
        if table[j].state.Tombstone? {
          table[j] := table[j].(state := Empty);
        }
      }
      assert table[..] == Cleared(t);
    }

    /** The rebuild: tombstones become empty, then every entry is evicted and inserted again, in slot order. */
    method Rehash()
      requires table.Length > 0 && IsPowerOfTwo(table.Length)
      modifies this`tombstones, table
      ensures table[..] == Rehashed(probe, old(table[..]))
      ensures tombstones == 0
    {
      tombstones := 0;
      ClearTombstones();
      ghost var cleared := table[..];
      for i := 0 to table.Length
        invariant tombstones == 0
        invariant RehashFrom(probe, cleared, 0) == RehashFrom(probe, table[..], i)
      {
        if !table[i].state.Occupied? {
          continue;
        }
        Reinsert(i);
      }
    }

    /** One turn of the rebuild loop: evict slot `i` and search a slot for its entry again. */
    method Reinsert(i: nat)
      requires table.Length > 0 && IsPowerOfTwo(table.Length)
      requires i < table.Length && table[i].state.Occupied?
      modifies table
      ensures table[..] == Reinserted(probe, old(table[..]), i)
    {
      ghost var t := table[..];
      var cap := table.Length;
      var evicted := table[i];
      table[i] := evicted.(state := Empty);
      ghost var hole := table[..];
      assert hole == t[i := evicted.(state := Empty)];
      var home := Mask(evicted.key, cap);
      var index := home;
      var attempt: nat := 0;
      ghost var limit := EverySlotVisited(probe, home, i, cap);
      while table[index].state.Occupied?
        invariant attempt <= limit && index == Path(probe, evicted.key, attempt, cap)
        invariant FreeSlot(probe, hole, evicted.key, attempt) == FreeSlot(probe, hole, evicted.key, 0)
        invariant table[..] == hole
        decreases limit - attempt
      {
        PathStep(probe, evicted.key, attempt, cap);
        attempt := attempt + 1;
        index := Advance(probe, index, attempt, cap);
      }
      table[index] := evicted;
      assert table[..] == hole[index := evicted];
    }
  }

  /** The rebuild comes as soon as more than a quarter of the slots count as tombstones, unless the counter has
      wrapped. */
  lemma RebuildsExactly<V(0)>(m: OpenAddressMap<V>, count: nat)
    requires count <= 0xFFFF_FFFF_FFFF_FFFF
    ensures m.Rebuilds(count) <==>
            m.rehashing && count < 0xFFFF_FFFF_FFFF_FFFF && 4 * (count + 1) > m.table.Length
  {
  }

  /** An absent key goes to the first slot of its path that is not occupied. */
  lemma AnswerIsFirstFree<V>(probe: Probe, t: seq<Slot<V>>, key: nat, i: nat, n: nat)
    requires |t| > 0 && SearchAnswer(probe, t, key, Some(i)) && Absent(t, key)
    requires OccupiedBefore(probe, t, key, n) && !t[Path(probe, key, n, |t|)].state.Occupied?
    ensures i == Path(probe, key, n, |t|)
  {
    FirstFreeUnique(probe, t, key, i, n);
  }

  /** A new key, in a table without tombstones, goes to step `n` of its path. */
  method PutAt<V(0)>(m: OpenAddressMap<V>, key: nat, value: V, ghost n: nat)
    requires m.Valid() && GoesTo(m.probe, m.table[..], key, n)
    modifies m, m.table
    ensures m.Valid() && m.tombstones == old(m.tombstones)
    ensures m.table[..] == old(m.table[..])[Path(m.probe, key, n, m.table.Length) := Slot(key, value, Occupied)]
    ensures m.contents == old(m.contents)[key := value]
  {
    ghost var t := m.table[..];
    var ok := m.Put(key, value);
    ghost var i: nat :|
      i < |t| && SearchAnswer(m.probe, t, key, Some(i)) && m.table[..] == t[i := Slot(key, value, Occupied)];
    AnswerIsFirstFree(m.probe, t, key, i, n);
  }

  /** A new key of a table without tombstones, and the step of its path where it goes. */
  ghost predicate GoesTo<V>(probe: Probe, t: seq<Slot<V>>, key: nat, n: nat)
    requires |t| > 0
  {
    && NoTombstones(t) && Absent(t, key)
    && OccupiedBefore(probe, t, key, n) && !t[Path(probe, key, n, |t|)].state.Occupied?
  }

  /** The table after the first `n` of four insertions. */
  function Filling(empty: Slot<int>, n: nat): (t: seq<Slot<int>>)
    ensures |t| == 4
  {
    [if n < 4 then empty else Slot(3, 30, Occupied), if n < 2 then empty else Slot(1, 10, Occupied),
     if n < 1 then empty else Slot(2, 20, Occupied), if n < 3 then empty else Slot(6, 60, Occupied)]
  }

  lemma FillingSteps(probe: Probe, empty: Slot<int>)
    requires empty.state.Empty?
    ensures GoesTo(probe, Filling(empty, 0), 2, 0) && GoesTo(probe, Filling(empty, 1), 1, 0)
    ensures GoesTo(probe, Filling(empty, 2), 6, 1) && GoesTo(probe, Filling(empty, 3), 3, 1)
  {
    WrappedPaths(probe);
  }

  /** Four insertions into a table of four slots. */
  method FillFour(probe: Probe) returns (m: OpenAddressMap<int>)
    ensures m.Valid() && fresh(m) && fresh(m.table) && m.probe == probe && m.rehashing && m.tombstones == 0
    ensures m.table.Length == 4 && m.table[..] == Filling(m.table[0], 4)
    ensures m.contents == map[2 := 20, 1 := 10, 6 := 60, 3 := 30]
  {
    ghost var empty;
    m, empty := FillTwo(probe);
    FillingSteps(probe, empty);
    WrappedPaths(probe);
    PutAt(m, 6, 60, 1);
    assert m.table[..] == Filling(empty, 3);
    PutAt(m, 3, 30, 1);
    assert m.table[..] == Filling(empty, 4);
  }

  method FillTwo(probe: Probe) returns (m: OpenAddressMap<int>, ghost empty: Slot<int>)
    ensures m.Valid() && fresh(m) && fresh(m.table) && m.probe == probe && m.rehashing && m.tombstones == 0
    ensures empty.state.Empty? && m.table.Length == 4 && m.table[..] == Filling(empty, 2)
    ensures m.contents == map[2 := 20, 1 := 10]
  {
    assert Pow2(2) == 4 by { assert Pow2(1) == 2; }
    m := new OpenAddressMap<int>(probe, true, 4);
    empty := m.table[0];
    FillingSteps(probe, empty);
    WrappedPaths(probe);
    assert m.table[..] == Filling(empty, 0);
    PutAt(m, 2, 20, 0);
    assert m.table[..] == Filling(empty, 1);
    PutAt(m, 1, 10, 0);
    assert m.table[..] == Filling(empty, 2);
  }

  /** Erasing the key of slot `i` when the search for it passes no tombstone. */
  method EraseAt<V(0)>(m: OpenAddressMap<V>, key: nat, ghost i: nat)
    requires m.Valid() && Holds(m.table[..], i, key) && !MeetsTombstone(m.probe, m.table[..], key)
    modifies m, m.table
    ensures m.table[..] == old(m.AfterErase(m.table[..], i, m.tombstones))
    ensures m.contents == old(m.contents) - {key}
    ensures !m.Rebuilds(old(m.tombstones)) ==> m.Valid() && m.tombstones == (old(m.tombstones) + 1) % TWO_TO_64
  {
    var ok := m.Erase(key);
  }

  /** Erasing keys 1 and 2 from that table. */
  lemma EraseOneAndTwo(probe: Probe, t: seq<Slot<int>>)
    requires |t| == 4 && t == Filling(t[0], 4)
    ensures Holds(t, 1, 1) && !MeetsTombstone(probe, t, 1)
    ensures Holds(Erased(t, 1), 2, 2) && !MeetsTombstone(probe, Erased(t, 1), 2)
    ensures Erased(Erased(t, 1), 2) == WrappedTable()
  {
    WrappedPaths(probe);
    assert Holds(Erased(t, 1), Path(probe, 2, 0, 4), 2);
  }

  lemma KeyThreeIsLost(probe: Probe)
    ensures var r := Rehashed(probe, WrappedTable()); r[Path(probe, 3, 0, 4)].state.Empty? && Holds(r, 0, 3)
  {
    WrappedPaths(probe);
    WrappedRebuild(probe);
  }

  /** A run of the map, rehashing on, under either probe sequence: 2, 1, 6, 3 go in, 1 and 2 come out, and the second
      erasure rebuilds the table. Key 3 is still there, but every search for it stops at the empty slot before it. */
  method LoseKey(probe: Probe) returns (m: OpenAddressMap<int>)
    ensures m.probe == probe && m.table[..] == Rehashed(probe, WrappedTable())
    ensures m.contents == map[6 := 60, 3 := 30]
    ensures m.table.Length == 4 && m.table[..][Path(probe, 3, 0, 4)].state.Empty? && Holds(m.table[..], 0, 3)
  {
    m := FillFour(probe);
    ghost var t := m.table[..];
    EraseOneAndTwo(probe, t);
    EraseAt(m, 1, 1);
    ghost var t1 := Erased(t, 1);
    assert m.table[..] == t1 && m.tombstones == 1;
    EraseAt(m, 2, 2);
    assert m.Rebuilds(1);
    assert m.table[..] == Rehashed(probe, WrappedTable());
    KeyThreeIsLost(probe);
  }

  /** The first erasure of that run. */
  method EraseOne(probe: Probe) returns (m: OpenAddressMap<int>, ghost t: seq<Slot<int>>)
    ensures m.Valid() && fresh(m) && fresh(m.table) && m.probe == probe && m.rehashing && m.tombstones == 1
    ensures |t| == 4 && t == Filling(t[0], 4) && m.table[..] == Erased(t, 1)
    ensures m.contents == map[2 := 20, 6 := 60, 3 := 30]
  {
    m := FillFour(probe);
    t := m.table[..];
    EraseOneAndTwo(probe, t);
    EraseAt(m, 1, 1);
  }

  /** A lookup that passes a tombstone lowers the counter, below zero if it must. */
  method LookupLowers<V(0)>(m: OpenAddressMap<V>, key: nat)
    requires m.Valid() && MeetsTombstone(m.probe, m.table[..], key) && m.tombstones <= 0xFFFF_FFFF_FFFF_FFFF
    modifies m`tombstones
    ensures m.Valid()
    ensures m.tombstones == if old(m.tombstones) == 0 then 0xFFFF_FFFF_FFFF_FFFF else old(m.tombstones) - 1
  {
    OneLess(m.tombstones);
    var found := m.Find(key);
  }

  lemma OneLess(count: nat)
    requires count <= 0xFFFF_FFFF_FFFF_FFFF
    ensures (count + TWO_TO_64 - 1) % TWO_TO_64 == if count == 0 then 0xFFFF_FFFF_FFFF_FFFF else count - 1
  {
  }

  /** And the second erasure, with the counter wrapped around. */
  method EraseTwo(m: OpenAddressMap<int>, ghost t: seq<Slot<int>>)
    requires |t| == 4 && t == Filling(t[0], 4) && m.table[..] == Erased(t, 1)
    requires m.Valid() && m.tombstones == 0xFFFF_FFFF_FFFF_FFFF && m.contents == map[2 := 20, 6 := 60, 3 := 30]
    modifies m, m.table
    ensures m.Valid() && m.table[..] == WrappedTable() && m.tombstones == 0
    ensures m.contents == map[6 := 60, 3 := 30]
  {
    EraseOneAndTwo(m.probe, t);
    RebuildsExactly(m, m.tombstones);
    EraseAt(m, 2, 2);
  }

  /** The same run with two lookups of the absent key 1 in between. Each of them passes the tombstone and lowers the
      counter, so that it wraps around below zero; the second erasure brings it to zero, with two tombstones among four
      slots, and the rebuild does not come. */
  method LookupsDelayRebuild(probe: Probe) returns (m: OpenAddressMap<int>, wrapped: nat)
    ensures wrapped == 0xFFFF_FFFF_FFFF_FFFF
    ensures m.probe == probe && m.rehashing && m.Valid() && m.table[..] == WrappedTable() && m.tombstones == 0
    ensures m.contents == map[6 := 60, 3 := 30]
  {
    ghost var t;
    m, t := EraseOne(probe);
    TombstoneAtOne(probe, t);
    LookupLowers(m, 1);
    LookupLowers(m, 1);
    wrapped := m.tombstones;
    EraseTwo(m, t);
  }

  lemma TombstoneAtOne(probe: Probe, t: seq<Slot<int>>)
    requires |t| == 4
    ensures MeetsTombstone(probe, Erased(t, 1), 1)
  {
    WrappedPaths(probe);
    MeetsAtOnce(probe, Erased(t, 1), 1);
  }

  lemma MeetsAtOnce<V>(probe: Probe, t: seq<Slot<V>>, key: nat)
    requires |t| > 0 && t[Path(probe, key, 0, |t|)].state.Tombstone?
    ensures MeetsTombstone(probe, t, key)
  {
    assert OccupiedBefore(probe, t, key, 0);
  }
}
