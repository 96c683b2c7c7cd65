/** Powers of two and the bitwise AND that the ring buffer and the hash table use to wrap indices. */
module Bits {

  const TWO_TO_64: nat := 0x1_0000_0000_0000_0000

  function Pow2(k: nat): (r: nat)
    ensures r >= 1
  {
    if k == 0 then 1 else 2 * Pow2(k - 1)
  }

  /** Bitwise AND of two unsigned numbers, bit by bit from the low end. */
  function BitAnd(a: nat, b: nat): nat {
    if a == 0 || b == 0 then 0
    else (if a % 2 == 1 && b % 2 == 1 then 1 else 0) + 2 * BitAnd(a / 2, b / 2)
  }

  lemma {:induction false} BitAndSelf(a: nat)
    ensures BitAnd(a, a) == a
  {
    if a > 0 { BitAndSelf(a / 2); }
  }

  ghost predicate IsPowerOfTwo(cap: nat) {
    exists k: nat :: cap == Pow2(k)
  }

  lemma {:induction false} PassesImpliesPower(cap: nat) returns (k: nat)
    requires cap > 0 && BitAnd(cap, cap - 1) == 0
    ensures cap == Pow2(k)
  {
    if cap == 1 {
      k := 0;
    } else {
      BitAndSelf(cap / 2);
      k := PassesImpliesPower(cap / 2);
      k := k + 1;
    }
  }

  lemma {:induction false} PowerImpliesPasses(k: nat)
    ensures BitAnd(Pow2(k), Pow2(k) - 1) == 0
  {
    if k > 0 {
      PowerImpliesPasses(k - 1);
      assert (Pow2(k) - 1) / 2 == Pow2(k - 1) - 1;
    }
  }

  /** The containers' compile-time capacity test accepts exactly the powers of two. */
  lemma CapacityTest(cap: nat)
    ensures (cap > 0 && BitAnd(cap, cap - 1) == 0) <==> IsPowerOfTwo(cap)
  {
    if cap > 0 && BitAnd(cap, cap - 1) == 0 {
      var k := PassesImpliesPower(cap);
    }
    if IsPowerOfTwo(cap) {
      var k: nat :| cap == Pow2(k);
      PowerImpliesPasses(k);
    }
  }

  /** `x & MASK`, where `MASK == cap - 1`: the slot of a counter. */
  method Mask(x: nat, cap: nat) returns (r: nat)
    requires IsPowerOfTwo(cap)
    ensures cap > 0 && r == x % cap
  {
    r := BitAnd(x, cap - 1);
    ghost var k: nat :| cap == Pow2(k);
    MaskIsMod(x, k);
  }

  /** Masking with `2^k - 1` is reduction modulo `2^k`. */
  lemma {:induction false} MaskIsMod(x: nat, k: nat)
    ensures BitAnd(x, Pow2(k) - 1) == x % Pow2(k)
  {
    if k > 0 {
      MaskIsMod(x / 2, k - 1);
      ModOfDouble(x, Pow2(k - 1));
      assert (Pow2(k) - 1) / 2 == Pow2(k - 1) - 1;
      assert (Pow2(k) - 1) % 2 == 1;
    }
  }

  lemma ModOfDouble(x: nat, m: nat)
    requires m > 0
    ensures x % (2 * m) == x % 2 + 2 * ((x / 2) % m)
  {
    var q, r := (x / 2) / m, (x / 2) % m;
    assert x == (2 * m) * q + (x % 2 + 2 * r) by {
      assert x / 2 == m * q + r;
    }
    ModUnique(x, 2 * m, q, x % 2 + 2 * r);
  }

  /** Division with remainder has one answer. */
  lemma ModUnique(x: int, m: nat, q: int, r: nat)
    requires m > 0 && r < m && x == m * q + r
    ensures x % m == r && x / m == q
  {
    SmallMultiple(m, x / m - q, r - x % m);
  }

  /** A multiple of `m` that is smaller than `m` in size is zero. */
  lemma SmallMultiple(m: int, d: int, diff: int)
    requires m * d == diff && -m < diff < m
    ensures d == 0 && diff == 0
  {
  }

  /** Equal residues differ by a multiple. */
  lemma SameResidue(a: int, b: int, m: int)
    requires m > 0 && a % m == b % m
    ensures m * (b / m - a / m) == b - a
  {
    assert a == m * (a / m) + a % m && b == m * (b / m) + b % m;
  }

  /** Two indices less than a capacity apart occupy different slots. */
  lemma DistinctSlots(a: nat, b: nat, m: nat)
    requires a < b < a + m
    ensures a % m != b % m
  {
    if a % m == b % m {
      SameResidue(a, b, m);
      SmallMultiple(m, b / m - a / m, b - a);
      assert false;
    }
  }
}
