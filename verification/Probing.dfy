/** The probe sequences of the open-addressing table, and how much of the table they cover. */
module Probing {
  import opened Bits
  import opened Counting

  datatype Probe = Linear | Triangular

  /** The slot after `index`, on the `attempt`-th step. */
  function Next(probe: Probe, index: nat, attempt: nat, cap: nat): (r: nat)
    requires cap > 0
    ensures r < cap
  {
    match probe
    case Linear => (index + 1) % cap
    case Triangular => (index + attempt) % cap
  }

  /** `Probe::next` as the table computes it, by masking. */
  method Advance(probe: Probe, index: nat, attempt: nat, cap: nat) returns (r: nat)
    requires IsPowerOfTwo(cap)
    ensures cap > 0 && r == Next(probe, index, attempt, cap)
  {
    r := Mask(index + if probe.Linear? then 1 else attempt, cap);
  }

  /** The slot reached from `start` after `t` steps. */
  function Position(probe: Probe, start: nat, t: nat, cap: nat): (r: nat)
    requires start < cap
    ensures r < cap
  {
    if t == 0 then start else Next(probe, Position(probe, start, t - 1, cap), t, cap)
  }

  function StepLength(probe: Probe, t: nat): nat {
    if probe.Linear? then 1 else t
  }

  /** How far the sequence has moved after `t` steps, before reduction. */
  function Distance(probe: Probe, t: nat): nat {
    if t == 0 then 0 else Distance(probe, t - 1) + StepLength(probe, t)
  }

  lemma {:induction false} DistanceClosedForm(t: nat)
    ensures Distance(Linear, t) == t
    ensures 2 * Distance(Triangular, t) == t * (t + 1)
  {
    if t > 0 {
      DistanceClosedForm(t - 1);
      assert t * (t + 1) == (t - 1) * t + 2 * t;
    }
  }

  /** The attempt at which the sequence first stands on its start again. */
  function ReturnTime(probe: Probe, cap: nat): nat
    requires cap > 0
  {
    match probe
    case Linear => cap
    case Triangular => 2 * cap - 1
  }

  lemma AddMod(a: nat, b: nat, m: nat)
    requires m > 0
    ensures (a % m + b) % m == (a + b) % m
  {
    var q, r := (a % m + b) / m, (a % m + b) % m;
    assert a + b == m * (a / m + q) + r by {
      assert a == m * (a / m) + a % m;
      assert a % m + b == m * q + r;
      assert m * (a / m + q) == m * (a / m) + m * q;
    }
    ModUnique(a + b, m, a / m + q, r);
  }

  lemma NextAdds(probe: Probe, sum: nat, t: nat, cap: nat)
    requires cap > 0
    ensures Next(probe, sum % cap, t, cap) == (sum + StepLength(probe, t)) % cap
  {
    AddMod(sum, StepLength(probe, t), cap);
  }

  lemma PositionStep(probe: Probe, start: nat, t: nat, cap: nat, sum: nat, total: nat)
    requires start < cap && t > 0 && total == sum + StepLength(probe, t)
    requires Position(probe, start, t - 1, cap) == sum % cap
    ensures Position(probe, start, t, cap) == total % cap
  {
    NextAdds(probe, sum, t, cap);
  }

  lemma {:induction false} PositionIsTotal(probe: Probe, start: nat, t: nat, cap: nat, total: nat)
    requires start < cap && total == start + Distance(probe, t)
    ensures Position(probe, start, t, cap) == total % cap
    decreases t
  {
    if t == 0 {
      ModUnique(start, cap, 0, start);
    } else {
      var sum := start + Distance(probe, t - 1);
      PositionIsTotal(probe, start, t - 1, cap, sum);
      PositionStep(probe, start, t, cap, sum, total);
    }
  }

  lemma PositionIsDistance(probe: Probe, start: nat, t: nat, cap: nat)
    requires start < cap
    ensures Position(probe, start, t, cap) == (start + Distance(probe, t)) % cap
  {
    PositionIsTotal(probe, start, t, cap, start + Distance(probe, t));
  }

  /** Where the probe stands after `t` steps: `t` slots on, or `1 + 2 + ... + t` slots on. */
  lemma PositionClosedForm(start: nat, t: nat, cap: nat)
    requires start < cap
    ensures Position(Linear, start, t, cap) == (start + t) % cap
    ensures Position(Triangular, start, t, cap) == (start + t * (t + 1) / 2) % cap
  {
    DistanceClosedForm(t);
    PositionIsTotal(Linear, start, t, cap, start + t);
    PositionIsTotal(Triangular, start, t, cap, start + t * (t + 1) / 2);
  }

  lemma OddTimesOdd(a: nat, b: nat)
    requires a % 2 == 1 && b % 2 == 1
    ensures a * b % 2 == 1
  {
    var x, y := a / 2, b / 2;
    assert a * b == (2 * x + 1) * (2 * y + 1) == 2 * (2 * (x * y) + x + y) + 1;
  }

  /** An odd factor contributes nothing to the power of two in a product. */
  lemma {:induction false} OddFactor(a: nat, b: nat, k: nat, q: nat)
    requires a % 2 == 1 && a * b == Pow2(k) * q
    ensures b % Pow2(k) == 0
  {
    if k > 0 {
      var half := Pow2(k - 1) * q;
      assert Pow2(k) * q == 2 * half;
      if b % 2 == 1 {
        OddTimesOdd(a, b);
        assert false;
      }
      var c := b / 2;
      assert a * (2 * c) == 2 * (a * c);
      OddFactor(a, c, k - 1, q);
      ModOfDouble(b, Pow2(k - 1));
    }
  }

  lemma FactorDifference(t: int, u: int)
    ensures u * (u + 1) - t * (t + 1) == (u - t) * (u + t + 1)
  {
  }

  lemma ProductIsNatural(x: nat, y: nat)
    ensures x * y >= 0
  {
  }

  /** Congruent distances make `2^(k+1)` divide (u - t) * (u + t + 1). */
  lemma TriangularDifference(t: nat, u: nat, m: nat, q: int)
    requires t < u && m > 0
    requires Distance(Triangular, u) - Distance(Triangular, t) == m * q
    ensures (u - t) * (u + t + 1) == (2 * m) * q && q >= 0
  {
    DistanceClosedForm(t);
    DistanceClosedForm(u);
    FactorDifference(t, u);
    ProductIsNatural(u - t, u + t + 1);
    HalvedDifference(Distance(Triangular, u), Distance(Triangular, t), u * (u + 1), t * (t + 1), m, q,
                     (u - t) * (u + t + 1));
  }

  lemma HalvedDifference(a: int, b: int, twiceA: int, twiceB: int, m: nat, q: int, product: int)
    requires m > 0 && 2 * a == twiceA && 2 * b == twiceB && a - b == m * q && twiceA - twiceB == product >= 0
    ensures product == (2 * m) * q && q >= 0
  {
    DoubleProduct(m, q, product);
  }

  lemma DoubleProduct(m: nat, q: int, product: int)
    requires m > 0 && 2 * (m * q) == product >= 0
    ensures (2 * m) * q == product && q >= 0
  {
  }

  /** Two attempts reach the same slot only if they are far apart. */
  lemma TriangularRepeat(t: nat, u: nat, k: nat)
    requires t < u
    requires (Distance(Triangular, u) - Distance(Triangular, t)) % Pow2(k) == 0
    ensures (u - t) % Pow2(k + 1) == 0 || (u + t + 1) % Pow2(k + 1) == 0
  {
    var q := QuotientOf(Distance(Triangular, u) - Distance(Triangular, t), Pow2(k));
    TriangularDifference(t, u, Pow2(k), q);
    OddCase(u - t, u + t + 1, k + 1, q);
  }

  lemma QuotientOf(x: int, m: nat) returns (q: int)
    requires m > 0 && x % m == 0
    ensures x == m * q
  {
    q := x / m;
  }

  lemma OddCase(a: nat, b: nat, k: nat, q: nat)
    requires a * b == Pow2(k) * q && a % 2 != b % 2
    ensures a % Pow2(k) == 0 || b % Pow2(k) == 0
  {
    if a % 2 == 1 {
      OddFactor(a, b, k, q);
    } else {
      OddFactor(b, a, k, q);
    }
  }

  lemma SmallIsOwnResidue(x: nat, m: nat)
    requires 0 < x < m
    ensures x % m == x
  {
    ModUnique(x, m, 0, x);
  }

  lemma ResidueDifference(a: int, b: int, m: int)
    requires m > 0 && a % m == b % m
    ensures (b - a) % m == 0
  {
    SameResidue(a, b, m);
    ModUnique(b - a, m, b / m - a / m, 0);
  }

  /** The first `cap` slots of either sequence are pairwise distinct. */
  lemma FirstProbesDistinct(probe: Probe, start: nat, t: nat, u: nat, cap: nat)
    requires IsPowerOfTwo(cap) && start < cap
    requires t < u < cap
    ensures Position(probe, start, t, cap) != Position(probe, start, u, cap)
  {
    PositionIsDistance(probe, start, t, cap);
    PositionIsDistance(probe, start, u, cap);
    if Position(probe, start, t, cap) == Position(probe, start, u, cap) {
      ResidueDifference(start + Distance(probe, t), start + Distance(probe, u), cap);
      var k: nat :| cap == Pow2(k);
      if probe.Linear? {
        DistanceClosedForm(t);
        DistanceClosedForm(u);
        SmallIsOwnResidue(u - t, cap);
      } else {
        TriangularRepeat(t, u, k);
        SmallIsOwnResidue(u - t, 2 * cap);
        SmallIsOwnResidue(u + t + 1, 2 * cap);
      }
      assert false;
    }
  }

  lemma ReturnsAtReturnTime(probe: Probe, start: nat, cap: nat)
    requires start < cap
    ensures Position(probe, start, ReturnTime(probe, cap), cap) == start
  {
    var t := ReturnTime(probe, cap);
    PositionIsDistance(probe, start, t, cap);
    var q := ReturnDistance(probe, cap);
    ModUnique(start + Distance(probe, t), cap, q, start);
  }

  lemma ReturnDistance(probe: Probe, cap: nat) returns (q: nat)
    requires cap > 0
    ensures Distance(probe, ReturnTime(probe, cap)) == cap * q
  {
    var t := ReturnTime(probe, cap);
    DistanceClosedForm(t);
    q := if probe.Linear? then 1 else t;
    if probe.Triangular? {
      assert t * (t + 1) == 2 * (cap * t);
    }
  }

  lemma NoEarlyReturn(probe: Probe, start: nat, t: nat, cap: nat)
    requires IsPowerOfTwo(cap) && start < cap
    requires 0 < t < ReturnTime(probe, cap)
    ensures Position(probe, start, t, cap) != start
  {
    if Position(probe, start, t, cap) == start {
      PositionIsDistance(probe, start, t, cap);
      ModUnique(start, cap, 0, start);
      ResidueDifference(start, start + Distance(probe, t), cap);
      if probe.Linear? {
        DistanceClosedForm(t);
        SmallIsOwnResidue(t, cap);
      } else {
        var k: nat :| cap == Pow2(k);
        TriangularRepeat(0, t, k);
        SmallIsOwnResidue(t, 2 * cap);
        SmallIsOwnResidue(t + 1, 2 * cap);
      }
      assert false;
    }
  }

  /** The sequence stands on its start again at its return time, and not before. */
  lemma FirstReturn(probe: Probe, start: nat, t: nat, cap: nat)
    requires IsPowerOfTwo(cap) && start < cap
    requires 0 < t <= ReturnTime(probe, cap)
    ensures Position(probe, start, t, cap) == start <==> t == ReturnTime(probe, cap)
  {
    if t == ReturnTime(probe, cap) {
      ReturnsAtReturnTime(probe, start, cap);
    } else {
      NoEarlyReturn(probe, start, t, cap);
    }
  }

  /** Within the first `cap` probes, either sequence visits every slot of the table. */
  lemma EverySlotVisited(probe: Probe, start: nat, slot: nat, cap: nat) returns (t: nat)
    requires IsPowerOfTwo(cap) && start < cap && slot < cap
    ensures t < cap && Position(probe, start, t, cap) == slot
  {
    var walk := seq(cap, i requires 0 <= i => Position(probe, start, i, cap));
    forall i, j | 0 <= i < j < cap
      ensures walk[i] != walk[j]
    {
      FirstProbesDistinct(probe, start, i, j, cap);
    }
    Pigeonhole(walk, cap);
    assert slot in walk;
    t :| 0 <= t < |walk| && walk[t] == slot;
  }
}
