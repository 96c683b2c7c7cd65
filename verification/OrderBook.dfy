/** The order book: total shares per side and price, kept beside the records of the single orders. */
module OrderBooks {
  import opened Bits

  datatype Side = Buy | Sell

  datatype Order = Order(side: Side, price: nat, shares: nat)

  type Levels = map<nat, nat>

  /** `levels[price] += shares` in 64 bits; a missing level counts as zero and appears. */
  function Added(levels: Levels, price: nat, shares: nat): Levels {
    levels[price := ((if price in levels then levels[price] else 0) + shares) % TWO_TO_64]
  }

  /** `remove_shares`: subtracts in 64 bits and drops the level when nothing is left. */
  function Removed(levels: Levels, price: nat, shares: nat): Levels
    requires price in levels
  {
    var left := (levels[price] - shares) % TWO_TO_64;
    if left == 0 then levels - {price} else levels[price := left]
  }

  class OrderBook {
    var buy: Levels
    var sell: Levels

    constructor ()
      ensures buy == map[] && sell == map[]
    {
      buy, sell := map[], map[];
    }

    function LevelsOf(side: Side): Levels
      reads this
    {
      if side.Buy? then buy else sell
    }

    method AddOrder(side: Side, price: nat, shares: nat)
      modifies this
      ensures LevelsOf(side) == Added(old(LevelsOf(side)), price, shares)
      ensures if side.Buy? then sell == old(sell) else buy == old(buy)
    {
      match side {
        case Buy => buy := Added(buy, price, shares);
        case Sell => sell := Added(sell, price, shares);
      }
    }

    /** The program looks the level up and dereferences what it finds: the level must exist. */
    method RemoveShares(side: Side, price: nat, shares: nat)
      requires price in LevelsOf(side)
      modifies this
      ensures LevelsOf(side) == Removed(old(LevelsOf(side)), price, shares)
      ensures if side.Buy? then sell == old(sell) else buy == old(buy)
    {
      var levels := LevelsOf(side);
      var left := (levels[price] - shares) % TWO_TO_64;
      levels := levels[price := left];
      if left == 0 {
        levels := levels - {price};
      }
      assert levels == Removed(LevelsOf(side), price, shares);
      match side {
        case Buy => buy := levels;
        case Sell => sell := levels;
      }
    }

    method ExecuteOrder(side: Side, price: nat, executed: nat)
      requires price in LevelsOf(side)
      modifies this
      ensures LevelsOf(side) == Removed(old(LevelsOf(side)), price, executed)
      ensures if side.Buy? then sell == old(sell) else buy == old(buy)
    {
      RemoveShares(side, price, executed);
    }

    method CancelOrder(side: Side, price: nat, cancelled: nat)
      requires price in LevelsOf(side)
      modifies this
      ensures LevelsOf(side) == Removed(old(LevelsOf(side)), price, cancelled)
      ensures if side.Buy? then sell == old(sell) else buy == old(buy)
    {
      RemoveShares(side, price, cancelled);
    }

    method ReplaceOrder(side: Side, oldPrice: nat, oldShares: nat, newPrice: nat, newShares: nat)
      requires oldPrice in LevelsOf(side)
      modifies this
      ensures LevelsOf(side) == Added(Removed(old(LevelsOf(side)), oldPrice, oldShares), newPrice, newShares)
      ensures if side.Buy? then sell == old(sell) else buy == old(buy)
    {
      RemoveShares(side, oldPrice, oldShares);
      AddOrder(side, newPrice, newShares);
    }
  }

  // ----- the totals the book is meant to hold -----

  type Records = map<nat, Order>

  function Counted(o: Order, side: Side, price: nat): nat {
    if o.side == side && o.price == price then o.shares else 0
  }

  /** The shares of all live orders on one side at one price. */
  ghost function Total(records: Records, side: Side, price: nat): nat
    decreases |records|
  {
    if records == map[] then 0
    else
      var ref :| ref in records;
      Counted(records[ref], side, price) + Total(records - {ref}, side, price)
  }

  /** It does not matter which order is counted first. */
  lemma {:induction false} TotalWithout(records: Records, side: Side, price: nat, ref: nat)
    requires ref in records
    ensures Total(records, side, price) == Counted(records[ref], side, price) + Total(records - {ref}, side, price)
    decreases |records|
  {
    var first :| first in records && Total(records, side, price) ==
      Counted(records[first], side, price) + Total(records - {first}, side, price);
    if first != ref {
      TotalWithout(records - {first}, side, price, ref);
      TotalWithout(records - {ref}, side, price, first);
      assert records - {first} - {ref} == records - {ref} - {first};
    }
  }

  lemma TotalUpdate(records: Records, side: Side, price: nat, ref: nat, o: Order)
    ensures Total(records[ref := o], side, price) == Counted(o, side, price) + Total(records - {ref}, side, price)
  {
    TotalWithout(records[ref := o], side, price, ref);
    assert records[ref := o] - {ref} == records - {ref};
  }

  lemma TotalMissing(records: Records, side: Side, price: nat, ref: nat)
    requires ref !in records
    ensures Total(records - {ref}, side, price) == Total(records, side, price)
  {
    assert records - {ref} == records;
  }

  /** The bounds an ITCH feed puts on what is live: at most 2^16 orders, each of 1 to 2^32 - 1 shares. */
  ghost predicate Bounded(records: Records) {
    |records| <= 0x1_0000 && forall ref :: ref in records ==> 0 < records[ref].shares < 0x1_0000_0000
  }

  lemma {:induction false} TotalBound(records: Records, side: Side, price: nat)
    requires forall ref :: ref in records ==> 0 < records[ref].shares < 0x1_0000_0000
    ensures Total(records, side, price) <= |records| * 0xFFFF_FFFF
    decreases |records|
  {
    if records != map[] {
      var ref :| ref in records;
      TotalWithout(records, side, price, ref);
      TotalBound(records - {ref}, side, price);
      assert |records - {ref}| == |records| - 1;
    }
  }

  /** No level ever comes near 64 bits. */
  lemma LevelBound(records: Records, side: Side, price: nat)
    requires Bounded(records)
    ensures Total(records, side, price) < 0x1_0000_0000_0000 < TWO_TO_64
  {
    TotalBound(records, side, price);
  }

  /** A level holds the total at its price, and is absent exactly when that is zero. */
  ghost predicate LevelAgrees(levels: Levels, records: Records, side: Side, price: nat) {
    var total := Total(records, side, price);
    if price in levels then levels[price] == total && total > 0 else total == 0
  }

  ghost predicate Agrees(levels: Levels, records: Records, side: Side) {
    forall price: nat :: LevelAgrees(levels, records, side, price)
  }

  lemma AddedLevelAgrees(levels: Levels, records: Records, ref: nat, o: Order, price: nat)
    requires LevelAgrees(levels, records, o.side, price) && ref !in records
    requires Total(records[ref := o], o.side, price) < TWO_TO_64
    requires o.shares > 0 || o.price in levels || o.price != price
    ensures LevelAgrees(Added(levels, o.price, o.shares), records[ref := o], o.side, price)
  {
    TotalUpdate(records, o.side, price, ref, o);
    TotalMissing(records, o.side, price, ref);
  }

  /** A fresh order keeps its side of the book in step exactly when it has shares or joins a level: an order
      of no shares at a new price would leave a level of zero behind. */
  lemma AddAgrees(levels: Levels, records: Records, ref: nat, o: Order)
    requires Agrees(levels, records, o.side) && ref !in records
    requires Bounded(records) && |records| < 0x1_0000 && o.shares < 0x1_0000_0000
    ensures Agrees(Added(levels, o.price, o.shares), records[ref := o], o.side) <==> o.shares > 0 || o.price in levels
  {
    var levels', records' := Added(levels, o.price, o.shares), records[ref := o];
    if o.shares > 0 || o.price in levels {
      forall price: nat ensures LevelAgrees(levels', records', o.side, price) {
        assert LevelAgrees(levels, records, o.side, price);
        AddedTotalBound(records, ref, o, price);
        AddedLevelAgrees(levels, records, ref, o, price);
      }
    } else {
      assert LevelAgrees(levels, records, o.side, o.price);
      TotalUpdate(records, o.side, o.price, ref, o);
      TotalMissing(records, o.side, o.price, ref);
      assert !LevelAgrees(levels', records', o.side, o.price);
    }
  }

  /** An order of no shares leaves a level of zero in an empty book. */
  lemma EmptyLevelRemains(ref: nat, o: Order)
    requires o.shares == 0
    ensures Agrees(map[], map[], o.side)
    ensures Added(map[], o.price, o.shares) == map[o.price := 0]
    ensures !Agrees(Added(map[], o.price, o.shares), map[ref := o], o.side)
  {
    var none: Records := map[];
    AddAgrees(map[], none, ref, o);
    assert none[ref := o] == map[ref := o];
  }

  lemma AddedTotalBound(records: Records, ref: nat, o: Order, price: nat)
    requires Bounded(records) && |records| < 0x1_0000 && ref !in records && o.shares < 0x1_0000_0000
    ensures Total(records[ref := o], o.side, price) < TWO_TO_64
  {
    TotalUpdate(records, o.side, price, ref, o);
    TotalMissing(records, o.side, price, ref);
    LevelBound(records, o.side, price);
  }

  /** The record of `ref` after `n` of its shares are gone. */
  function Reduced(records: Records, ref: nat, n: nat): Records
    requires ref in records && n <= records[ref].shares
  {
    var o := records[ref];
    if n == o.shares then records - {ref} else records[ref := o.(shares := o.shares - n)]
  }

  lemma ReducedTotal(records: Records, ref: nat, n: nat, side: Side, price: nat)
    requires ref in records && n <= records[ref].shares
    ensures Total(Reduced(records, ref, n), side, price)
         == Total(records, side, price) - Counted(records[ref].(shares := n), side, price)
  {
    var o := records[ref];
    TotalWithout(records, side, price, ref);
    if n < o.shares {
      TotalUpdate(records, side, price, ref, o.(shares := o.shares - n));
    }
  }

  /** A live order's level is there, and holds at least its shares. */
  lemma LevelIsThere(levels: Levels, records: Records, ref: nat)
    requires Bounded(records) && ref in records && Agrees(levels, records, records[ref].side)
    ensures var o := records[ref]; o.price in levels && o.shares <= levels[o.price] < 0x1_0000_0000_0000
  {
    var o := records[ref];
    assert LevelAgrees(levels, records, o.side, o.price);
    TotalWithout(records, o.side, o.price, ref);
    LevelBound(records, o.side, o.price);
  }

  lemma RemovedLevelAgrees(levels: Levels, records: Records, ref: nat, n: nat, price: nat)
    requires ref in records && n <= records[ref].shares
    requires LevelAgrees(levels, records, records[ref].side, price)
    requires records[ref].price in levels && n <= levels[records[ref].price] < TWO_TO_64
    ensures LevelAgrees(Removed(levels, records[ref].price, n), Reduced(records, ref, n), records[ref].side, price)
  {
    ReducedTotal(records, ref, n, records[ref].side, price);
  }

  /** Execution, cancellation and deletion keep the book in step with the records. */
  lemma ReduceAgrees(levels: Levels, records: Records, ref: nat, n: nat)
    requires Bounded(records) && ref in records && n <= records[ref].shares
    requires Agrees(levels, records, records[ref].side)
    ensures records[ref].price in levels
    ensures Agrees(Removed(levels, records[ref].price, n), Reduced(records, ref, n), records[ref].side)
    ensures Bounded(Reduced(records, ref, n))
  {
    LevelIsThere(levels, records, ref);
    var levels', records' := Removed(levels, records[ref].price, n), Reduced(records, ref, n);
    forall price: nat ensures LevelAgrees(levels', records', records[ref].side, price) {
      assert LevelAgrees(levels, records, records[ref].side, price);
      RemovedLevelAgrees(levels, records, ref, n, price);
    }
  }

  /** What happens on one side does not concern the other. */
  lemma OtherSideAgrees(levels: Levels, records: Records, side: Side, ref: nat, o: Order, n: nat)
    requires Agrees(levels, records, side)
    ensures ref !in records && o.side != side ==> Agrees(levels, records[ref := o], side)
    ensures ref in records && n <= records[ref].shares && records[ref].side != side ==>
              Agrees(levels, Reduced(records, ref, n), side)
  {
    if ref !in records && o.side != side {
      var records' := records[ref := o];
      forall price: nat ensures LevelAgrees(levels, records', side, price) {
        assert LevelAgrees(levels, records, side, price);
        TotalUpdate(records, side, price, ref, o);
        TotalMissing(records, side, price, ref);
      }
    }
    if ref in records && n <= records[ref].shares && records[ref].side != side {
      var records' := Reduced(records, ref, n);
      forall price: nat ensures LevelAgrees(levels, records', side, price) {
        assert LevelAgrees(levels, records, side, price);
        ReducedTotal(records, ref, n, side, price);
      }
    }
  }
}
