/** What the slots of an open-addressing table mean, and what keeps that meaning. */
module ProbeTable {
  import opened Bits
  import opened Counting
  import opened Options
  import opened Probing

  datatype SlotState = Empty | Occupied | Tombstone

  datatype Slot<V> = Slot(key: nat, value: V, state: SlotState)

  /** The slot of `key` after `n` probe steps. */
  function Path(probe: Probe, key: nat, n: nat, cap: nat): (r: nat)
    requires cap > 0
    ensures r < cap
  {
    Position(probe, key % cap, n, cap)
  }

  lemma PathStep(probe: Probe, key: nat, n: nat, cap: nat)
    requires cap > 0
    ensures Path(probe, key, 0, cap) == key % cap
    ensures Path(probe, key, n + 1, cap) == Next(probe, Path(probe, key, n, cap), n + 1, cap)
  {
  }

  predicate Holds<V>(t: seq<Slot<V>>, i: nat, key: nat) {
    i < |t| && t[i].state.Occupied? && t[i].key == key
  }

  ghost predicate Absent<V>(t: seq<Slot<V>>, key: nat) {
    forall i :: 0 <= i < |t| ==> !Holds(t, i, key)
  }

  ghost predicate UniqueKeys<V>(t: seq<Slot<V>>) {
    forall i, j :: 0 <= i < j < |t| && t[i].state.Occupied? && t[j].state.Occupied? ==> t[i].key != t[j].key
  }

  /** No search for an occupied slot's key meets an empty slot before it. */
  ghost predicate PathsOpen<V>(probe: Probe, t: seq<Slot<V>>) {
    forall i | 0 <= i < |t| && t[i].state.Occupied? :: OpenUpTo(probe, t, t[i].key, i)
  }

  ghost predicate OpenUpTo<V>(probe: Probe, t: seq<Slot<V>>, key: nat, i: nat)
    requires |t| > 0
  {
    forall n: nat, u: nat ::
      u < n < |t| && Path(probe, key, n, |t|) == i ==> !t[Path(probe, key, u, |t|)].state.Empty?
  }

  /** `m` is the map that the occupied slots spell out. */
  ghost predicate Represents<V>(t: seq<Slot<V>>, m: map<nat, V>) {
    && (forall i :: 0 <= i < |t| && t[i].state.Occupied? ==> t[i].key in m && m[t[i].key] == t[i].value)
    && (forall key :: key in m ==> !Absent(t, key))
  }

  ghost predicate Saturated<V>(t: seq<Slot<V>>) {
    forall i :: 0 <= i < |t| ==> t[i].state.Occupied?
  }

  /** `i` is the first slot on the search path of `key` that is not occupied. */
  ghost predicate FirstFree<V>(probe: Probe, t: seq<Slot<V>>, key: nat, i: nat)
    requires |t| > 0
  {
    && i < |t| && !t[i].state.Occupied?
    && exists n: nat :: n < |t| && Path(probe, key, n, |t|) == i && OccupiedBefore(probe, t, key, n)
  }

  ghost predicate OccupiedBefore<V>(probe: Probe, t: seq<Slot<V>>, key: nat, n: nat)
    requires |t| > 0
  {
    forall u: nat :: u < n ==> t[Path(probe, key, u, |t|)].state.Occupied?
  }

  /** The slot a search must answer with; `None` stands for the saturation exception. */
  ghost predicate SearchAnswer<V>(probe: Probe, t: seq<Slot<V>>, key: nat, r: Option<nat>)
    requires |t| > 0
  {
    match r
    case None => Saturated(t) && Absent(t, key)
    case Some(i) => Holds(t, i, key) || (Absent(t, key) && FirstFree(probe, t, key, i))
  }

  lemma PathsDistinct(probe: Probe, key: nat, n: nat, u: nat, cap: nat)
    requires IsPowerOfTwo(cap) && cap > 0 && n < cap && u < cap
    requires Path(probe, key, n, cap) == Path(probe, key, u, cap)
    ensures n == u
  {
    if n < u {
      FirstProbesDistinct(probe, key % cap, n, u, cap);
    } else if u < n {
      FirstProbesDistinct(probe, key % cap, u, n, cap);
    }
  }

  /** Occupying the first free slot of an absent key keeps every search path open. */
  lemma InsertKeepsPaths<V>(probe: Probe, t: seq<Slot<V>>, key: nat, i: nat, s: Slot<V>)
    requires |t| > 0 && IsPowerOfTwo(|t|) && PathsOpen(probe, t)
    requires FirstFree(probe, t, key, i) && s.state.Occupied? && s.key == key
    ensures PathsOpen(probe, t[i := s])
  {
    var t' := t[i := s];
    forall j | 0 <= j < |t'| && t'[j].state.Occupied?
      ensures OpenUpTo(probe, t', t'[j].key, j)
    {
      if j != i {
        assert OpenUpTo(probe, t, t[j].key, j);
      } else {
        forall n: nat, u: nat | u < n < |t| && Path(probe, key, n, |t|) == i
          ensures !t'[Path(probe, key, u, |t|)].state.Empty?
        {
          var n': nat :| n' < |t| && Path(probe, key, n', |t|) == i && OccupiedBefore(probe, t, key, n');
          PathsDistinct(probe, key, n, n', |t|);
        }
      }
    }
  }

  /** Turning an occupied slot into a tombstone, or changing its value, keeps every search path open. */
  lemma ReplaceKeepsPaths<V>(probe: Probe, t: seq<Slot<V>>, i: nat, s: Slot<V>)
    requires i < |t| && PathsOpen(probe, t)
    requires t[i].state.Occupied? && !s.state.Empty? && s.key == t[i].key
    ensures PathsOpen(probe, t[i := s])
  {
    var t' := t[i := s];
    forall j | 0 <= j < |t'| && t'[j].state.Occupied?
      ensures OpenUpTo(probe, t', t'[j].key, j)
    {
      assert OpenUpTo(probe, t, t[j].key, j);
    }
  }

  /** There is only one first free slot. */
  lemma FirstFreeUnique<V>(probe: Probe, t: seq<Slot<V>>, key: nat, i: nat, n: nat)
    requires |t| > 0 && FirstFree(probe, t, key, i)
    requires OccupiedBefore(probe, t, key, n) && !t[Path(probe, key, n, |t|)].state.Occupied?
    ensures i == Path(probe, key, n, |t|)
  {
    var u: nat :| u < |t| && Path(probe, key, u, |t|) == i && OccupiedBefore(probe, t, key, u);
  }

  /** Whether a search for `key` passes a tombstone before it ends; the first one it passes is what counts. */
  ghost predicate MeetsTombstone<V>(probe: Probe, t: seq<Slot<V>>, key: nat)
    requires |t| > 0
  {
    exists n: nat ::
      && t[Path(probe, key, n, |t|)].state.Tombstone? && OccupiedBefore(probe, t, key, n)
      && forall u: nat :: u < n ==> !Holds(t, Path(probe, key, u, |t|), key)
  }

  /** An empty slot on the path of `key`, with `key` in no earlier slot, shows that `key` is absent. */
  lemma EmptyStopsSearch<V>(probe: Probe, t: seq<Slot<V>>, key: nat, n: nat)
    requires |t| > 0 && IsPowerOfTwo(|t|) && PathsOpen(probe, t)
    requires t[Path(probe, key, n, |t|)].state.Empty?
    requires forall u: nat :: u < n ==> !Holds(t, Path(probe, key, u, |t|), key)
    ensures Absent(t, key)
  {
    forall i | 0 <= i < |t|
      ensures !Holds(t, i, key)
    {
      var v := EverySlotVisited(probe, key % |t|, i, |t|);
      assert Path(probe, key, v, |t|) == i;
      if Holds(t, i, key) {
        assert false;
      }
    }
  }

  /** If the first `n >= cap` slots of a path are occupied, so is the whole table. */
  lemma FullCircle<V>(probe: Probe, t: seq<Slot<V>>, key: nat, n: nat)
    requires |t| > 0 && IsPowerOfTwo(|t|) && n >= |t|
    requires OccupiedBefore(probe, t, key, n)
    ensures Saturated(t)
  {
    forall i | 0 <= i < |t|
      ensures t[i].state.Occupied?
    {
      var v := EverySlotVisited(probe, key % |t|, i, |t|);
      assert Path(probe, key, v, |t|) == i;
    }
  }

  /** After a full circle that met `key` nowhere, `key` is absent. */
  lemma CircleWithoutKey<V>(probe: Probe, t: seq<Slot<V>>, key: nat, n: nat)
    requires |t| > 0 && IsPowerOfTwo(|t|) && n >= |t|
    requires forall u: nat :: u < n ==> !Holds(t, Path(probe, key, u, |t|), key)
    ensures Absent(t, key)
  {
    forall i | 0 <= i < |t|
      ensures !Holds(t, i, key)
    {
      var v := EverySlotVisited(probe, key % |t|, i, |t|);
      assert Path(probe, key, v, |t|) == i;
    }
  }

  /** A saturated table holds as many bindings as it has slots. */
  lemma SaturatedCount<V>(t: seq<Slot<V>>, m: map<nat, V>)
    requires Saturated(t) && UniqueKeys(t) && Represents(t, m)
    ensures |m| == |t|
  {
    var keys := seq(|t|, i requires 0 <= i < |t| => t[i].key);
    DistinctCount(keys);
    forall key ensures key in Elements(keys) <==> key in m.Keys {
      if key in m.Keys {
        var i :| 0 <= i < |t| && Holds(t, i, key);
        assert keys[i] == key;
      }
    }
    assert Elements(keys) == m.Keys;
  }

  /** With a slot to spare, there are fewer bindings than slots. */
  lemma FreeSlotCount<V>(t: seq<Slot<V>>, m: map<nat, V>, i: nat)
    requires i < |t| && !t[i].state.Occupied? && Represents(t, m)
    ensures |m| < |t|
  {
    var others := seq(|t| - 1, k requires 0 <= k < |t| - 1 => t[if k < i then k else k + 1].key);
    forall key | key in m.Keys
      ensures key in Elements(others)
    {
      var j :| 0 <= j < |t| && Holds(t, j, key);
      assert others[if j < i then j else j - 1] == key;
    }
    SubsetSize(m.Keys, Elements(others));
    ElementsCount(others);
  }

  /** A non-occupied slot with only occupied ones before it is the first free one. */
  lemma FreshSlotIsFirst<V>(probe: Probe, t: seq<Slot<V>>, key: nat, n: nat)
    requires |t| > 0 && IsPowerOfTwo(|t|)
    requires OccupiedBefore(probe, t, key, n) && !t[Path(probe, key, n, |t|)].state.Occupied?
    ensures FirstFree(probe, t, key, Path(probe, key, n, |t|))
  {
    if n >= |t| {
      FullCircle(probe, t, key, n);
      assert false;
    }
  }

  /** A search that has not met `key` in its first `n` slots; `first` is the first tombstone it passed. */
  ghost predicate Searched<V>(probe: Probe, t: seq<Slot<V>>, key: nat, n: nat, first: Option<nat>)
    requires |t| > 0
  {
    && (forall u: nat :: u < n ==> !Holds(t, Path(probe, key, u, |t|), key))
    && match first
       case None => OccupiedBefore(probe, t, key, n)
       case Some(i) => FirstFree(probe, t, key, i) && MeetsTombstone(probe, t, key)
  }

  /** The search goes on past an occupied slot of another key and past a tombstone. */
  lemma SearchGoesOn<V>(probe: Probe, t: seq<Slot<V>>, key: nat, n: nat, first: Option<nat>, next: Option<nat>)
    requires |t| > 0 && IsPowerOfTwo(|t|) && Searched(probe, t, key, n, first)
    requires var i := Path(probe, key, n, |t|);
             && !Holds(t, i, key) && !t[i].state.Empty?
             && next == if t[i].state.Tombstone? && first.None? then Some(i) else first
    ensures Searched(probe, t, key, n + 1, next)
  {
    if first.None? && next.Some? {
      FreshSlotIsFirst(probe, t, key, n);
    }
  }

  /** It ends at the key or at an empty slot. */
  lemma SearchEnds<V>(probe: Probe, t: seq<Slot<V>>, key: nat, n: nat, first: Option<nat>)
    requires |t| > 0 && IsPowerOfTwo(|t|) && PathsOpen(probe, t) && Searched(probe, t, key, n, first)
    requires Holds(t, Path(probe, key, n, |t|), key) || t[Path(probe, key, n, |t|)].state.Empty?
    ensures MeetsTombstone(probe, t, key) <==> first.Some?
    ensures var i := Path(probe, key, n, |t|);
            SearchAnswer(probe, t, key, if first.Some? && !Holds(t, i, key) then first else Some(i))
  {
    if t[Path(probe, key, n, |t|)].state.Empty? {
      EmptyStopsSearch(probe, t, key, n);
      if first.None? {
        FreshSlotIsFirst(probe, t, key, n);
      }
    }
    if first.None? && MeetsTombstone(probe, t, key) {
      var u: nat :| t[Path(probe, key, u, |t|)].state.Tombstone? && OccupiedBefore(probe, t, key, u)
                    && forall v: nat :: v < u ==> !Holds(t, Path(probe, key, v, |t|), key);
      assert false;
    }
  }

  /** Or it comes full circle: then the key is absent, and without a tombstone the table is full. */
  lemma SearchCircles<V>(probe: Probe, t: seq<Slot<V>>, key: nat, n: nat, first: Option<nat>)
    requires |t| > 0 && IsPowerOfTwo(|t|) && n >= |t| && Searched(probe, t, key, n, first)
    ensures MeetsTombstone(probe, t, key) <==> first.Some?
    ensures SearchAnswer(probe, t, key, first)
  {
    CircleWithoutKey(probe, t, key, n);
    if first.None? {
      FullCircle(probe, t, key, n);
    }
  }

  lemma AbsentMeansUnmapped<V>(t: seq<Slot<V>>, m: map<nat, V>, key: nat)
    requires Represents(t, m)
    ensures Absent(t, key) <==> key !in m
  {
    if !Absent(t, key) {
      var i :| 0 <= i < |t| && Holds(t, i, key);
    }
  }

  /** Writing an occupied slot for `key`, in its own slot or in a free one, binds `key`. */
  lemma InsertRepresents<V>(t: seq<Slot<V>>, m: map<nat, V>, key: nat, i: nat, s: Slot<V>)
    requires i < |t| && s.state.Occupied? && s.key == key
    requires Holds(t, i, key) || (Absent(t, key) && !t[i].state.Occupied?)
    requires UniqueKeys(t) && Represents(t, m)
    ensures UniqueKeys(t[i := s]) && Represents(t[i := s], m[key := s.value])
  {
    var t' := t[i := s];
    assert forall j :: 0 <= j < |t| && j != i && t[j].state.Occupied? ==> !Holds(t, j, key);
    forall k | k in m[key := s.value]
      ensures !Absent(t', k)
    {
      if k == key {
        assert Holds(t', i, k);
      } else {
        var j :| 0 <= j < |t| && Holds(t, j, k);
        assert Holds(t', j, k);
      }
    }
  }

  /** Vacating an occupied slot unbinds its key. */
  lemma EraseRepresents<V>(t: seq<Slot<V>>, m: map<nat, V>, i: nat, s: Slot<V>)
    requires i < |t| && t[i].state.Occupied? && !s.state.Occupied?
    requires UniqueKeys(t) && Represents(t, m)
    ensures UniqueKeys(t[i := s]) && Represents(t[i := s], m - {t[i].key})
    ensures Absent(t[i := s], t[i].key)
  {
    var t' := t[i := s];
    forall k | k in m - {t[i].key}
      ensures !Absent(t', k)
    {
      var j :| 0 <= j < |t| && Holds(t, j, k);
      assert Holds(t', j, k);
    }
  }
}
