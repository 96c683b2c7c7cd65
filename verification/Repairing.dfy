/** Exactly when the in-place rebuild makes every key of a linearly probed table findable again. */
module Repairing {
  import opened Bits
  import opened Probing
  import opened ProbeTable
  import opened Rehashing

  // ----- counting -----

  function Bit(b: bool): nat {
    if b then 1 else 0
  }

  function Count(marks: seq<bool>): nat {
    if marks == [] then 0 else Count(marks[..|marks| - 1]) + Bit(marks[|marks| - 1])
  }

  lemma {:induction false} CountUpdate(marks: seq<bool>, i: nat, b: bool)
    requires i < |marks|
    ensures Count(marks[i := b]) + Bit(marks[i]) == Count(marks) + Bit(b)
  {
    var n := |marks| - 1;
    if i == n {
      assert marks[i := b][..n] == marks[..n];
    } else {
      CountUpdate(marks[..n], i, b);
      assert marks[i := b][..n] == marks[..n][i := b];
    }
  }

  /** Marks that differ at two places only. */
  lemma CountTwo(a: seq<bool>, b: seq<bool>, i: nat, q: nat)
    requires |a| == |b| && i < |a| && q < |a|
    requires forall j :: 0 <= j < |a| && j != i && j != q ==> a[j] == b[j]
    ensures Count(b) == Count(a) + Bit(b[i]) - Bit(a[i]) + if q == i then 0 else Bit(b[q]) - Bit(a[q])
  {
    CountUpdate(a, i, b[i]);
    CountUpdate(a[i := b[i]], q, b[q]);
    assert b == a[i := b[i]][q := b[q]];
  }

  /** Marks covered by two others are no more numerous; if they are as numerous, they are covered exactly. */
  lemma {:induction false} CountCovered(a: seq<bool>, b: seq<bool>, c: seq<bool>)
    requires |a| == |b| == |c| && forall j :: 0 <= j < |a| ==> Bit(a[j]) <= Bit(b[j]) + Bit(c[j])
    ensures Count(a) <= Count(b) + Count(c)
    ensures Count(a) == Count(b) + Count(c) <==> forall j :: 0 <= j < |a| ==> Bit(a[j]) == Bit(b[j]) + Bit(c[j])
  {
    if a != [] {
      var n := |a| - 1;
      CountCovered(a[..n], b[..n], c[..n]);
      assert forall j :: 0 <= j < n ==> a[..n][j] == a[j] && b[..n][j] == b[j] && c[..n][j] == c[j];
    }
  }

  lemma {:induction false} CountNone(marks: seq<bool>)
    requires forall j :: 0 <= j < |marks| ==> !marks[j]
    ensures Count(marks) == 0
  {
    if marks != [] {
      CountNone(marks[..|marks| - 1]);
    }
  }

  lemma {:induction false} CountAll(marks: seq<bool>)
    ensures Count(marks) <= |marks|
    ensures Count(marks) == |marks| <==> forall j :: 0 <= j < |marks| ==> marks[j]
  {
    if marks != [] {
      var n := |marks| - 1;
      CountAll(marks[..n]);
      assert forall j :: 0 <= j < n ==> marks[..n][j] == marks[j];
    }
  }

  lemma {:induction false} CountFrom(marks: seq<bool>, y: nat)
    requires y <= |marks| && forall j :: 0 <= j < |marks| ==> (marks[j] <==> j >= y)
    ensures Count(marks) == |marks| - y
  {
    if y == |marks| {
      CountNone(marks);
    } else {
      var n := |marks| - 1;
      if n > y {
        CountFrom(marks[..n], y);
      } else {
        CountNone(marks[..n]);
      }
    }
  }

  // ----- what is counted -----

  function Home<V>(t: seq<Slot<V>>, j: nat): nat
    requires j < |t|
  {
    t[j].key % |t|
  }

  /** The entry in slot `j` sits below its home slot: its run crosses the end of the table. */
  predicate Wrapped<V>(t: seq<Slot<V>>, j: nat)
    requires j < |t|
  {
    t[j].state.Occupied? && j < Home(t, j)
  }

  function WaitingMarks<V>(t: seq<Slot<V>>, i: nat, z: nat): seq<bool> {
    seq(|t|, j requires 0 <= j < |t| => j >= i && Wrapped(t, j) && Home(t, j) >= z)
  }

  function GapMarks<V>(t: seq<Slot<V>>, z: nat): seq<bool> {
    seq(|t|, j requires 0 <= j < |t| => j >= z && !t[j].state.Occupied?)
  }

  function WrappedMarks<V>(t: seq<Slot<V>>, i: nat): seq<bool> {
    seq(|t|, j requires 0 <= j < |t| => j < i && Wrapped(t, j))
  }

  function HomeMarks<V>(t: seq<Slot<V>>, y: nat): seq<bool> {
    seq(|t|, j requires 0 <= j < |t| => t[j].state.Occupied? && Home(t, j) >= y)
  }

  /** The wrapped entries from slot `i` on with their home at `z` or above. */
  function Waiting<V>(t: seq<Slot<V>>, i: nat, z: nat): nat {
    Count(WaitingMarks(t, i, z))
  }

  /** The slots at `z` or above that are not occupied. */
  function Gaps<V>(t: seq<Slot<V>>, z: nat): nat {
    Count(GapMarks(t, z))
  }

  /** The wrapped entries before slot `i`. */
  function WrappedBefore<V>(t: seq<Slot<V>>, i: nat): nat {
    Count(WrappedMarks(t, i))
  }

  /** The entries with their home at `y` or above. */
  function HomedFrom<V>(t: seq<Slot<V>>, y: nat): nat {
    Count(HomeMarks(t, y))
  }

  /** The condition: for some boundary `y`, at least as many entries with a home from `y` on have no room there as
      wrapped entries outnumber the gaps above any boundary `z`. */
  ghost predicate Repairable<V>(t: seq<Slot<V>>) {
    || Saturated(t)
    || exists y: nat :: y <= |t| && Overrun(t, HomedFrom(t, y) - (|t| - y))
  }

  ghost predicate Overrun<V>(t: seq<Slot<V>>, b: int) {
    forall z: nat :: z <= |t| ==> Waiting(t, 0, z) - Gaps(t, z) <= b
  }

  // ----- where an entry lands -----

  lemma {:induction false} CircularPath(key: nat, n: nat, cap: nat)
    requires n < cap
    ensures Path(Linear, key, n, cap) == if key % cap + n < cap then key % cap + n else key % cap + n - cap
  {
    if n > 0 {
      CircularPath(key, n - 1, cap);
      PathStep(Linear, key, n - 1, cap);
      var next := Path(Linear, key, n - 1, cap) + 1;
      if next < cap {
        ModUnique(next, cap, 0, next);
      } else {
        ModUnique(next, cap, 1, 0);
      }
    }
  }

  /** How many steps a linear search takes from `home` to `j`. */
  function Steps(home: nat, j: nat, cap: nat): nat
    requires home < cap && j < cap
  {
    if home <= j then j - home else j + cap - home
  }

  lemma StepsReach(key: nat, j: nat, cap: nat)
    requires j < cap
    ensures Path(Linear, key, Steps(key % cap, j, cap), cap) == j
  {
    CircularPath(key, Steps(key % cap, j, cap), cap);
  }

  /** Every slot that a linear search for the entry in slot `i` passes before it lands at `q` is occupied. */
  ghost predicate Lands<V>(t: seq<Slot<V>>, i: nat, q: nat)
    requires i < |t|
  {
    && q < |t| && (q == i || !t[q].state.Occupied?)
    && Steps(Home(t, i), q, |t|) <= Steps(Home(t, i), i, |t|)
    && forall j :: 0 <= j < |t| && Steps(Home(t, i), j, |t|) < Steps(Home(t, i), q, |t|) ==> t[j].state.Occupied?
  }

  function Moved<V>(t: seq<Slot<V>>, i: nat, q: nat): seq<Slot<V>>
    requires i < |t| && q < |t|
  {
    t[i := t[i].(state := Empty)][q := t[i]]
  }

  lemma ReinsertLands<V>(t: seq<Slot<V>>, i: nat) returns (q: nat)
    requires IsPowerOfTwo(|t|) && i < |t| && t[i].state.Occupied?
    ensures Lands(t, i, q) && Reinserted(Linear, t, i) == Moved(t, i, q)
  {
    var hole := t[i := t[i].(state := Empty)];
    var key, cap := t[i].key, |t|;
    q := FreeSlot(Linear, hole, key, 0);
    HoleIsReached(Linear, t, i);
    var n: nat :| n < cap && Path(Linear, key, n, cap) == q && OccupiedBefore(Linear, hole, key, n);
    StepsReach(key, q, cap);
    PathsDistinct(Linear, key, n, Steps(key % cap, q, cap), cap);
    forall j | 0 <= j < cap && Steps(key % cap, j, cap) < n
      ensures hole[j].state.Occupied?
    {
      StepsReach(key, j, cap);
    }
    if Steps(key % cap, i, cap) < n {
      assert false;
    }
  }

  // ----- how many entries stay wrapped -----

  /** The wrapped entries already settled, and those still to come beyond the gaps above `z`. */
  function Excess<V>(t: seq<Slot<V>>, i: nat, z: nat): int {
    WrappedBefore(t, i) + Waiting(t, i, z) - Gaps(t, z)
  }

  ghost predicate AtMost<V>(t: seq<Slot<V>>, i: nat, lo: nat, b: int) {
    forall z: nat :: lo <= z <= |t| ==> Excess(t, i, z) <= b
  }

  lemma WrappedMoves<V>(t: seq<Slot<V>>, i: nat, q: nat)
    requires i < |t| && t[i].state.Occupied? && Lands(t, i, q)
    ensures WrappedBefore(Moved(t, i, q), i + 1) == WrappedBefore(t, i) + Bit(Home(t, i) > i && q <= i)
  {
    CountTwo(WrappedMarks(t, i), WrappedMarks(Moved(t, i, q), i + 1), i, q);
  }

  lemma WaitingMoves<V>(t: seq<Slot<V>>, i: nat, q: nat, z: nat)
    requires i < |t| && t[i].state.Occupied? && Lands(t, i, q)
    ensures Waiting(Moved(t, i, q), i + 1, z) == Waiting(t, i, z) - Bit(Home(t, i) > i && Home(t, i) >= z)
  {
    CountTwo(WaitingMarks(t, i, z), WaitingMarks(Moved(t, i, q), i + 1, z), i, q);
  }

  lemma GapsMove<V>(t: seq<Slot<V>>, i: nat, q: nat, z: nat)
    requires i < |t| && t[i].state.Occupied? && Lands(t, i, q) && i < z
    ensures Gaps(Moved(t, i, q), z) == Gaps(t, z) - Bit(q >= z)
  {
    CountTwo(GapMarks(t, z), GapMarks(Moved(t, i, q), z), i, q);
  }

  /** What a turn of the rebuild does to the excess above a boundary behind it. */
  lemma ExcessMoves<V>(t: seq<Slot<V>>, i: nat, q: nat, z: nat)
    requires i < |t| && t[i].state.Occupied? && Lands(t, i, q) && i < z <= |t|
    ensures var home := Home(t, i);
            Excess(Moved(t, i, q), i + 1, z) ==
              Excess(t, i, z) + Bit(home > i && q <= i) - Bit(home > i && home >= z) + Bit(q >= z)
  {
    WrappedMoves(t, i, q);
    WaitingMoves(t, i, q, z);
    GapsMove(t, i, q, z);
  }

  lemma ExcessPasses<V>(t: seq<Slot<V>>, i: nat, z: nat)
    requires i < |t| && !t[i].state.Occupied? && i < z <= |t|
    ensures Excess(t, i + 1, z) == Excess(t, i, z)
  {
    assert WrappedMarks(t, i) == WrappedMarks(t, i + 1);
    assert WaitingMarks(t, i, z) == WaitingMarks(t, i + 1, z);
  }

  /** The boundary at the slot whose turn it is does not matter. */
  lemma FirstBoundaryDrops<V>(t: seq<Slot<V>>, i: nat, b: int)
    requires i < |t|
    ensures AtMost(t, i, i, b) <==> AtMost(t, i, i + 1, b)
  {
    assert Excess(t, i, i) <= Excess(t, i, i + 1) by {
      assert WaitingMarks(t, i, i) == WaitingMarks(t, i, i + 1);
      var none := seq(|t|, j => false);
      CountNone(none);
      CountCovered(GapMarks(t, i + 1), GapMarks(t, i), none);
    }
    if AtMost(t, i, i + 1, b) {
      assert Excess(t, i, i + 1) <= b;
    }
  }

  /** With no gap between its home and `z`, a waiting entry makes the excess at its home the greater one. */
  lemma HomeDominates<V>(t: seq<Slot<V>>, i: nat, z: nat)
    requires i < |t| && Wrapped(t, i) && Home(t, i) < z <= |t|
    requires forall j :: Home(t, i) <= j < z ==> t[j].state.Occupied?
    ensures Excess(t, i, z) + 1 <= Excess(t, i, Home(t, i))
  {
    var home := Home(t, i);
    assert GapMarks(t, z) == GapMarks(t, home);
    var own := seq(|t|, j => false)[i := true];
    CountNone(seq(|t|, j => false));
    CountUpdate(seq(|t|, j => false), i, true);
    var a, b := WaitingMarks(t, i, z), WaitingMarks(t, i, home);
    CountUpdate(a, i, true);
    var none := seq(|t|, j => false);
    CountCovered(a[i := true], b, none);
  }

  /** A turn lowers no excess, and raises none beyond the greatest there was. */
  lemma MoveKeepsGreatest<V>(t: seq<Slot<V>>, i: nat, q: nat, z: nat) returns (w: nat)
    requires i < |t| && t[i].state.Occupied? && Lands(t, i, q) && i < z <= |t|
    ensures i < w <= |t|
    ensures Excess(t, i, z) <= Excess(Moved(t, i, q), i + 1, z) <= Excess(t, i, w)
  {
    var home := Home(t, i);
    ExcessMoves(t, i, q, z);
    w := z;
    if i < home < z && (z <= q || q <= i) {
      HomeDominates(t, i, z);
      w := home;
    }
  }

  lemma BoundSurvivesMove<V>(t: seq<Slot<V>>, i: nat, q: nat, b: int)
    requires i < |t| && t[i].state.Occupied? && Lands(t, i, q)
    ensures AtMost(t, i, i + 1, b) <==> AtMost(Moved(t, i, q), i + 1, i + 1, b)
  {
    var r, next := Moved(t, i, q), i + 1;
    if AtMost(t, i, next, b) {
      forall z: nat | next <= z <= |r| ensures Excess(r, next, z) <= b {
        var w := MoveKeepsGreatest(t, i, q, z);
      }
    }
    if AtMost(r, next, next, b) {
      forall z: nat | next <= z <= |t| ensures Excess(t, i, z) <= b {
        var w := MoveKeepsGreatest(t, i, q, z);
      }
    }
  }

  lemma BoundSurvivesPass<V>(t: seq<Slot<V>>, i: nat, b: int)
    requires i < |t| && !t[i].state.Occupied?
    ensures AtMost(t, i, i + 1, b) <==> AtMost(t, i + 1, i + 1, b)
  {
    var next := i + 1;
    if AtMost(t, i, next, b) {
      forall z: nat | next <= z <= |t| ensures Excess(t, next, z) <= b {
        ExcessPasses(t, i, z);
      }
    }
    if AtMost(t, next, next, b) {
      forall z: nat | next <= z <= |t| ensures Excess(t, i, z) <= b {
        ExcessPasses(t, i, z);
      }
    }
  }

  lemma {:induction false} BoundSurvives<V>(t: seq<Slot<V>>, i: nat, b: int)
    requires IsPowerOfTwo(|t|) && i <= |t|
    ensures AtMost(t, i, i, b) <==> AtMost(RehashFrom(Linear, t, i), |t|, |t|, b)
    decreases |t| - i
  {
    if i < |t| {
      FirstBoundaryDrops(t, i, b);
      if t[i].state.Occupied? {
        var q := ReinsertLands(t, i);
        BoundSurvivesMove(t, i, q, b);
        BoundSurvives(Moved(t, i, q), i + 1, b);
      } else {
        BoundSurvivesPass(t, i, b);
        BoundSurvives(t, i + 1, b);
      }
    }
  }

  /** Exactly how many entries the rebuild leaves wrapped. */
  lemma StaysWrapped<V>(t: seq<Slot<V>>, b: int)
    requires IsPowerOfTwo(|t|)
    ensures WrappedBefore(Rehashed(Linear, t), |t|) <= b <==> Overrun(t, b)
  {
    var c, r := Cleared(t), Rehashed(Linear, t);
    BoundSurvives(c, 0, b);
    CountNone(WaitingMarks(r, |t|, |t|));
    CountNone(GapMarks(r, |t|));
    assert AtMost(r, |t|, |t|, b) <==> Excess(r, |t|, |t|) <= b;
    CountNone(WrappedMarks(c, 0));
    forall z: nat | z <= |t| ensures Excess(c, 0, z) == Waiting(t, 0, z) - Gaps(t, z) {
      assert WaitingMarks(c, 0, z) == WaitingMarks(t, 0, z);
      assert GapMarks(c, z) == GapMarks(t, z);
    }
  }

  // ----- when the paths are open -----

  /** The first `i` slots are settled: nothing is missing below an entry down to its home, or to the start of the
      table if it is wrapped. */
  ghost predicate Settled<V>(t: seq<Slot<V>>, i: nat) {
    forall j :: 0 <= j < i && j < |t| && t[j].state.Occupied? ==> SettledSlot(t, j)
  }

  ghost predicate SettledSlot<V>(t: seq<Slot<V>>, j: nat)
    requires j < |t|
  {
    forall k :: 0 <= k < j && (Home(t, j) <= k || Wrapped(t, j)) ==> t[k].state.Occupied?
  }

  /** The entry just moved is settled where it landed, if that is behind it. */
  lemma LandedSettles<V>(t: seq<Slot<V>>, i: nat, q: nat)
    requires i < |t| && t[i].state.Occupied? && Lands(t, i, q) && q <= i
    ensures SettledSlot(Moved(t, i, q), q)
  {
    var r := Moved(t, i, q);
    forall k | 0 <= k < q && (Home(r, q) <= k || Wrapped(r, q))
      ensures r[k].state.Occupied?
    {
      assert Steps(Home(t, i), k, |t|) < Steps(Home(t, i), q, |t|);
    }
  }

  /** The others stay settled. */
  lemma OtherSettles<V>(t: seq<Slot<V>>, i: nat, q: nat, j: nat)
    requires i < |t| && t[i].state.Occupied? && q < |t| && (q == i || !t[q].state.Occupied?)
    requires j < i && j != q && SettledSlot(t, j)
    ensures SettledSlot(Moved(t, i, q), j)
  {
  }

  lemma MoveSettles<V>(t: seq<Slot<V>>, i: nat, q: nat)
    requires i < |t| && t[i].state.Occupied? && Lands(t, i, q) && Settled(t, i)
    ensures Settled(Moved(t, i, q), i + 1)
  {
    var r := Moved(t, i, q);
    forall j | 0 <= j < i + 1 && r[j].state.Occupied?
      ensures SettledSlot(r, j)
    {
      if j == q {
        LandedSettles(t, i, q);
      } else {
        assert t[j] == r[j] && SettledSlot(t, j);
        OtherSettles(t, i, q, j);
      }
    }
  }

  lemma {:induction false} RebuildSettles<V>(t: seq<Slot<V>>, i: nat)
    requires IsPowerOfTwo(|t|) && i <= |t| && Settled(t, i)
    ensures Settled(RehashFrom(Linear, t, i), |t|)
    decreases |t| - i
  {
    if i < |t| {
      var next := t;
      if t[i].state.Occupied? {
        var q := ReinsertLands(t, i);
        MoveSettles(t, i, q);
        next := Moved(t, i, q);
      }
      RebuildSettles(next, i + 1);
      assert RehashFrom(Linear, t, i) == RehashFrom(Linear, next, i + 1);
    }
  }

  /** In a settled table only the upper part of a wrapped entry's run can have a gap. */
  ghost predicate RunsClosed<V>(t: seq<Slot<V>>) {
    forall j, k :: 0 <= j < |t| && Wrapped(t, j) && Home(t, j) <= k < |t| ==> t[k].state.Occupied?
  }

  lemma ClosedRunsAreOpen<V>(t: seq<Slot<V>>, i: nat, n: nat, u: nat)
    requires Settled(t, |t|) && RunsClosed(t) && i < |t| && t[i].state.Occupied?
    requires u < n < |t| && Path(Linear, t[i].key, n, |t|) == i
    ensures t[Path(Linear, t[i].key, u, |t|)].state.Occupied?
  {
    CircularPath(t[i].key, n, |t|);
    CircularPath(t[i].key, u, |t|);
    var k := Path(Linear, t[i].key, u, |t|);
    if Wrapped(t, i) && Home(t, i) <= k {
      assert t[k].state.Occupied?;
    } else {
      assert k < i && (Home(t, i) <= k || Wrapped(t, i));
    }
  }

  lemma OpenRunsAreClosed<V>(t: seq<Slot<V>>, j: nat, k: nat)
    requires PathsOpen(Linear, t) && j < |t| && Wrapped(t, j) && Home(t, j) <= k < |t|
    ensures !t[k].state.Empty?
  {
    assert OpenUpTo(Linear, t, t[j].key, j);
    StepsReach(t[j].key, j, |t|);
    StepsReach(t[j].key, k, |t|);
    assert !t[Path(Linear, t[j].key, Steps(Home(t, j), k, |t|), |t|)].state.Empty?;
  }

  lemma OpenIffRunsClosed<V>(t: seq<Slot<V>>)
    requires Settled(t, |t|) && NoTombstones(t)
    ensures PathsOpen(Linear, t) <==> RunsClosed(t)
  {
    if RunsClosed(t) {
      forall i, n: nat, u: nat |
        0 <= i < |t| && t[i].state.Occupied? && u < n < |t| && Path(Linear, t[i].key, n, |t|) == i
        ensures !t[Path(Linear, t[i].key, u, |t|)].state.Empty?
      {
        ClosedRunsAreOpen(t, i, n, u);
      }
    } else {
      var j, k :| 0 <= j < |t| && Wrapped(t, j) && Home(t, j) <= k < |t| && !t[k].state.Occupied?;
      if PathsOpen(Linear, t) {
        OpenRunsAreClosed(t, j, k);
        assert false;
      }
    }
  }

  /** The slots from `y` on. */
  function TopMarks(n: nat, y: nat): (marks: seq<bool>)
    ensures |marks| == n
  {
    seq(n, j requires 0 <= j < n => j >= y)
  }

  /** The slots from `y` on hold nothing but entries with a home there, and all wrapped entries have theirs there. */
  ghost predicate Tight<V>(t: seq<Slot<V>>, y: nat) {
    forall j :: 0 <= j < |t| ==> TightAt(t, y, j)
  }

  predicate TightAt<V>(t: seq<Slot<V>>, y: nat, j: nat)
    requires j < |t|
  {
    if j >= y then t[j].state.Occupied? && y <= Home(t, j) <= j
    else Wrapped(t, j) <==> t[j].state.Occupied? && Home(t, j) >= y
  }

  lemma MarksAt<V>(t: seq<Slot<V>>, y: nat, j: nat)
    requires j < |t|
    ensures var a, b := Bit(HomeMarks(t, y)[j]), Bit(TopMarks(|t|, y)[j]) + Bit(WrappedMarks(t, |t|)[j]);
            a <= b && (a == b <==> TightAt(t, y, j))
  {
  }

  /** Entries with a home from `y` on are in the slots from `y` on or wrapped. */
  lemma HomedAreAboveOrWrapped<V>(t: seq<Slot<V>>, y: nat)
    requires y <= |t|
    ensures HomedFrom(t, y) - (|t| - y) <= WrappedBefore(t, |t|)
    ensures HomedFrom(t, y) - (|t| - y) == WrappedBefore(t, |t|) <==> Tight(t, y)
  {
    CountFrom(TopMarks(|t|, y), y);
    var a, b, c := HomeMarks(t, y), TopMarks(|t|, y), WrappedMarks(t, |t|);
    forall j | 0 <= j < |t|
      ensures Bit(a[j]) <= Bit(b[j]) + Bit(c[j]) && (Bit(a[j]) == Bit(b[j]) + Bit(c[j]) <==> TightAt(t, y, j))
    {
      MarksAt(t, y, j);
    }
    CountCovered(a, b, c);
  }

  /** Where the run at the end of the table begins. */
  lemma {:induction false} TopRun<V>(t: seq<Slot<V>>, from: nat) returns (y: nat)
    requires from <= |t| && forall k :: from <= k < |t| ==> t[k].state.Occupied?
    ensures y <= from && forall k :: y <= k < |t| ==> t[k].state.Occupied?
    ensures y > 0 ==> !t[y - 1].state.Occupied?
    decreases from
  {
    y := from;
    if from > 0 && t[from - 1].state.Occupied? {
      y := TopRun(t, from - 1);
    }
  }

  lemma TightIsClosed<V>(t: seq<Slot<V>>, y: nat)
    requires y <= |t| && Tight(t, y)
    ensures RunsClosed(t)
  {
    forall j, k | 0 <= j < |t| && Wrapped(t, j) && Home(t, j) <= k < |t|
      ensures t[k].state.Occupied?
    {
      assert TightAt(t, y, j) && TightAt(t, y, k);
    }
  }

  lemma ClosedIsTight<V>(t: seq<Slot<V>>) returns (y: nat)
    requires Settled(t, |t|) && !Saturated(t) && RunsClosed(t)
    ensures y <= |t| && Tight(t, y)
  {
    y := TopRun(t, |t|);
    if y == 0 {
      assert false;
    }
    forall j | 0 <= j < |t| ensures TightAt(t, y, j) {
      assert !t[y - 1].state.Occupied?;
    }
  }

  lemma MoveKeepsHomes<V>(t: seq<Slot<V>>, i: nat, q: nat, y: nat)
    requires i < |t| && t[i].state.Occupied? && Lands(t, i, q)
    ensures HomedFrom(Moved(t, i, q), y) == HomedFrom(t, y)
  {
    CountTwo(HomeMarks(t, y), HomeMarks(Moved(t, i, q), y), i, q);
  }

  lemma {:induction false} RebuildKeepsHomes<V>(t: seq<Slot<V>>, i: nat, y: nat)
    requires IsPowerOfTwo(|t|) && i <= |t|
    ensures HomedFrom(RehashFrom(Linear, t, i), y) == HomedFrom(t, y)
    decreases |t| - i
  {
    if i < |t| {
      if t[i].state.Occupied? {
        var q := ReinsertLands(t, i);
        MoveKeepsHomes(t, i, q, y);
        RebuildKeepsHomes(Moved(t, i, q), i + 1, y);
      } else {
        RebuildKeepsHomes(t, i + 1, y);
      }
    }
  }

  /** A table is full exactly if it has an entry for every slot. */
  lemma FullByCount<V>(t: seq<Slot<V>>)
    ensures Saturated(t) <==> HomedFrom(t, 0) == |t|
  {
    var marks := HomeMarks(t, 0);
    CountAll(marks);
    assert forall j :: 0 <= j < |t| ==> (marks[j] <==> t[j].state.Occupied?);
  }

  /** Exactly when the rebuild of a linearly probed table makes every key findable. The condition counts entries and
      gaps of the table as it is before the rebuild. */
  lemma RepairsExactly<V>(t: seq<Slot<V>>)
    requires IsPowerOfTwo(|t|)
    ensures PathsOpen(Linear, Rehashed(Linear, t)) <==> Repairable(t)
  {
    var c, r := Cleared(t), Rehashed(Linear, t);
    RebuildSettles(c, 0);
    RehashFromLeavesNoTombstone(Linear, c, 0);
    OpenIffRunsClosed(r);
    forall y: nat | y <= |t|
      ensures HomedFrom(r, y) == HomedFrom(t, y)
      ensures Tight(r, y) <==> Overrun(t, HomedFrom(t, y) - (|t| - y))
    {
      RebuildKeepsHomes(c, 0, y);
      assert HomeMarks(c, y) == HomeMarks(t, y);
      HomedAreAboveOrWrapped(r, y);
      StaysWrapped(t, HomedFrom(t, y) - (|t| - y));
    }
    FullByCount(t);
    FullByCount(r);
    if !Saturated(t) {
      if RunsClosed(r) {
        var y := ClosedIsTight(r);
      }
      if Repairable(t) {
        var y: nat :| y <= |t| && Overrun(t, HomedFrom(t, y) - (|t| - y));
        TightIsClosed(r, y);
      }
    }
  }

  /** A rebuild of any linearly probed table without wrapped entries makes every key findable. */
  lemma RehashRepairs<V>(t: seq<Slot<V>>)
    requires IsPowerOfTwo(|t|) && forall j :: 0 <= j < |t| ==> !Wrapped(t, j)
    ensures PathsOpen(Linear, Rehashed(Linear, t))
  {
    forall z: nat | z <= |t| ensures Waiting(t, 0, z) == 0 {
      CountNone(WaitingMarks(t, 0, z));
    }
    CountNone(HomeMarks(t, |t|));
    assert Overrun(t, HomedFrom(t, |t|) - (|t| - |t|));
    RepairsExactly(t);
  }
}
