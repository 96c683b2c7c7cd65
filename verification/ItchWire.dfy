/** The order messages as they stand on the wire, byte by byte and with the literal codes and lengths of the
    specification: what each of them is read as, which of them a feed may go on with, and what they do to the
    handler. */
module ItchWire {
  import opened BigEndian
  import opened Bits
  import opened Options
  import opened OrderBooks
  import opened Framing
  import opened Itch
  import opened HandlerCore

  // ----- numbers -----

  /** The value of two wire bytes, spelt out. */
  lemma ValueOf2(bs: seq<Byte>)
    requires |bs| == 2
    ensures Value(bs) == 0x100 * bs[0] as nat + bs[1]
  {
    assert bs[..1] == [bs[0]] && bs[..1][..0] == [];
  }

  /** The value of four. */
  lemma ValueOf4(bs: seq<Byte>)
    requires |bs| == 4
    ensures Value(bs) == 0x100_0000 * bs[0] as nat + 0x1_0000 * bs[1] as nat + 0x100 * bs[2] as nat + bs[3]
  {
    var three := bs[..3];
    assert three[..2] == bs[..2];
    ValueOf2(bs[..2]);
    assert Value(three) == Value(bs[..2]) * 0x100 + bs[2];
  }

  /** The value of eight, from its halves. */
  lemma ValueOf8(bs: seq<Byte>)
    requires |bs| == 8
    ensures Value(bs) == 0x1_0000_0000 * Value(bs[..4]) + Value(bs[4..])
  {
    ValueOf4(bs[4..]);
    var five, six, seven := bs[..5], bs[..6], bs[..7];
    assert five[..4] == bs[..4] && six[..5] == five && seven[..6] == six;
    assert Value(five) == Value(bs[..4]) * 0x100 + bs[4];
    assert Value(six) == Value(five) * 0x100 + bs[5];
    assert Value(seven) == Value(six) * 0x100 + bs[6];
  }

  /** Four and eight bytes hold every number of that width. */
  lemma Number4(v: nat)
    requires v < 0x1_0000_0000
    ensures Value(WireBytes(v, 4)) == v
  {
    assert Limit(2) == 0x1_0000 by { assert Limit(1) == 0x100; }
    assert Limit(4) == 0x1_0000_0000 by { assert Limit(3) == 0x100 * Limit(2); }
    ValueOfWireBytes(v, 4);
  }

  lemma Number8(v: nat)
    requires v < 0x1_0000_0000_0000_0000
    ensures Value(WireBytes(v, 8)) == v
  {
    assert Limit(2) == 0x1_0000 by { assert Limit(1) == 0x100; }
    assert Limit(4) == 0x1_0000_0000 by { assert Limit(3) == 0x100 * Limit(2); }
    assert Limit(6) == 0x1_0000_0000_0000 by { assert Limit(5) == 0x100 * Limit(4); }
    assert Limit(8) == 0x1_0000_0000_0000_0000 by { assert Limit(7) == 0x100 * Limit(6); }
    ValueOfWireBytes(v, 8);
  }

  // ----- bodies -----

  /** Which bytes are order types, and how long their bodies are. */
  lemma TypesAndSizes(t: Byte)
    ensures IsOrderType(t) <==> t == 65 || t == 70 || t == 69 || t == 67 || t == 88 || t == 68 || t == 85
    ensures IsOrderType(t) ==>
              BodySize(t) == if t == 65 then 25 else if t == 70 then 29 else if t == 69 then 20 else if t == 67 then 25
                             else if t == 88 then 12 else if t == 68 then 8 else 24
  {
  }

  /** Where the fields of an add stand in its body. */
  lemma AddSlices(body: seq<Byte>, r: seq<Byte>, indicator: Byte, n: seq<Byte>, stock: seq<Byte>, p: seq<Byte>,
                  rest: seq<Byte>)
    requires |r| == 8 && |n| == 4 && |stock| == 8 && |p| == 4
    requires body == r + [indicator] + n + stock + p + rest
    ensures |body| == 25 + |rest| && body[8] == indicator
    ensures body[0..8] == r && body[9..13] == n && body[13..21] == stock && body[21..25] == p
  {
  }

  /** 'A' and 'F': reference, indicator, shares, stock, price; a buy is marked by the byte 66 and by nothing else. */
  lemma AddParses(t: Byte, body: seq<Byte>, ref: nat, indicator: Byte, shares: nat, stock: seq<Byte>, price: nat,
                  attribution: seq<Byte>)
    requires t == 65 || t == 70
    requires ref < 0x1_0000_0000_0000_0000 && shares < 0x1_0000_0000 && price < 0x1_0000_0000 && |stock| == 8
    requires |attribution| == if t == 65 then 0 else 4
    requires body == WireBytes(ref, 8) + [indicator] + WireBytes(shares, 4) + stock + WireBytes(price, 4) + attribution
    ensures IsOrderType(t) && |body| == BodySize(t)
    ensures Parse(t, body) == Add(ref, if indicator == 66 then Buy else Sell, shares, stock, price)
  {
    AddSlices(body, WireBytes(ref, 8), indicator, WireBytes(shares, 4), stock, WireBytes(price, 4), attribution);
    Number8(ref);
    Number4(shares);
    Number4(price);
  }

  /** 'E', 'C' and 'X': reference and shares; what follows is not used. */
  lemma ReduceParses(t: Byte, body: seq<Byte>, ref: nat, shares: nat, rest: seq<Byte>)
    requires t == 69 || t == 67 || t == 88
    requires ref < 0x1_0000_0000_0000_0000 && shares < 0x1_0000_0000
    requires |rest| == if t == 69 then 8 else if t == 67 then 13 else 0
    requires body == WireBytes(ref, 8) + WireBytes(shares, 4) + rest
    ensures IsOrderType(t) && |body| == BodySize(t) && Parse(t, body) == Reduce(ref, shares)
  {
    var r, n := WireBytes(ref, 8), WireBytes(shares, 4);
    assert body[0..8] == r && body[8..12] == n;
    Number8(ref);
    Number4(shares);
  }

  /** 'D': the reference. */
  lemma DeleteParses(body: seq<Byte>, ref: nat)
    requires ref < 0x1_0000_0000_0000_0000 && body == WireBytes(ref, 8)
    ensures IsOrderType(68) && |body| == BodySize(68) && Parse(68, body) == Delete(ref)
  {
    assert body[0..8] == body;
    Number8(ref);
  }

  lemma ReplaceSlices(body: seq<Byte>, o: seq<Byte>, r: seq<Byte>, n: seq<Byte>, p: seq<Byte>)
    requires |o| == 8 && |r| == 8 && |n| == 4 && |p| == 4 && body == o + r + n + p
    ensures |body| == 24 && body[0..8] == o && body[8..16] == r && body[16..20] == n && body[20..24] == p
  {
  }

  /** 'U': the original reference, the new one, shares, price. */
  lemma ReplaceParses(body: seq<Byte>, original: nat, replacement: nat, shares: nat, price: nat)
    requires original < 0x1_0000_0000_0000_0000 && replacement < 0x1_0000_0000_0000_0000
    requires shares < 0x1_0000_0000 && price < 0x1_0000_0000
    requires body == WireBytes(original, 8) + WireBytes(replacement, 8) + WireBytes(shares, 4) + WireBytes(price, 4)
    ensures IsOrderType(85) && |body| == BodySize(85)
    ensures Parse(85, body) == Replace(original, replacement, shares, price)
  {
    ReplaceSlices(body, WireBytes(original, 8), WireBytes(replacement, 8), WireBytes(shares, 4), WireBytes(price, 4));
    Number8(original);
    Number8(replacement);
    Number4(shares);
    Number4(price);
  }

  // ----- frames -----

  /** A prefixed frame, spelt out. */
  lemma PrefixedExactly(f: seq<Byte>)
    ensures Prefixed(f) <==> |f| >= 2 && 0x100 * f[0] as nat + f[1] == |f| - 2
  {
    if |f| >= 2 {
      ValueOf2(f[..2]);
    }
  }

  /** The frames that the specification allows, by their literal types and lengths; any other type has any length. */
  lemma FrameOkExactly(f: Frame)
    ensures FrameOk(f) <==>
            && |f| >= 13 && 0x100 * f[0] as nat + f[1] == |f| - 2
            && (f[2] == 65 ==> |f| == 38) && (f[2] == 70 ==> |f| == 42) && (f[2] == 69 ==> |f| == 33)
            && (f[2] == 67 ==> |f| == 38) && (f[2] == 88 ==> |f| == 25) && (f[2] == 68 ==> |f| == 21)
            && (f[2] == 85 ==> |f| == 37)
  {
    PrefixedExactly(f);
    if |f| >= 13 {
      TypesAndSizes(f[2]);
    }
  }

  /** How many bytes a poll takes of a frame of each type, whatever follows it. */
  lemma PollTakesBytes(core: Core, target: seq<Byte>, f: Frame, more: seq<Byte>, closed: bool)
    requires FrameOk(f)
    ensures var taken := PollOf(core, target, f + more, closed).taken;
            taken == if f[2] == 65 then 38 else if f[2] == 70 then 42 else if f[2] == 69 then 33
                     else if f[2] == 67 then 38 else if f[2] == 88 then 25 else if f[2] == 68 then 21
                     else if f[2] == 85 then 37 else 2 + 0x100 * f[0] as nat + f[1]
  {
    FrameOkExactly(f);
    PollTakesFrame(core, target, f, more, closed);
  }

  /** What a frame carries: the message with its fields at their places in the frame. */
  lemma MessageInFrame(f: Frame)
    requires FrameOk(f) && IsOrderType(f[2])
    ensures |f| >= 21 && LocateOf(f) == Value(f[3..5])
    ensures f[2] == 65 || f[2] == 70 ==>
              |f| >= 38 &&
              MessageOf(f) == Add(Value(f[13..21]), if f[21] == 66 then Buy else Sell, Value(f[22..26]), f[26..34],
                                  Value(f[34..38]))
    ensures f[2] == 69 || f[2] == 67 || f[2] == 88 ==>
              |f| >= 25 && MessageOf(f) == Reduce(Value(f[13..21]), Value(f[21..25]))
    ensures f[2] == 68 ==> MessageOf(f) == Delete(Value(f[13..21]))
    ensures f[2] == 85 ==>
              |f| >= 37 &&
              MessageOf(f) == Replace(Value(f[13..21]), Value(f[21..29]), Value(f[29..33]), Value(f[33..37]))
  {
    FrameOkExactly(f);
    TypesAndSizes(f[2]);
    var body := f[13..];
    assert body[0..8] == f[13..21];
    if f[2] == 65 || f[2] == 70 {
      assert body[9..13] == f[22..26] && body[13..21] == f[26..34] && body[21..25] == f[34..38];
    } else if f[2] == 85 {
      assert body[8..16] == f[21..29] && body[16..20] == f[29..33] && body[20..24] == f[33..37];
    } else if f[2] != 68 {
      assert body[8..12] == f[21..25];
    }
  }

  // ----- dispatch -----

  /** What a frame does, by its literal type byte: 'A' is always looked at, the other order types under the cached code
      only, and every other type is skipped. */
  lemma Dispatch(core: Core, target: seq<Byte>, f: Frame)
    requires FrameOk(f)
    ensures f[2] == 65 ==>
              |f| >= 38 &&
              HandleFrame(core, target, f) ==
                AddOrder(core, target, Value(f[3..5]),
                         Add(Value(f[13..21]), if f[21] == 66 then Buy else Sell, Value(f[22..26]), f[26..34],
                             Value(f[34..38])))
    ensures f[2] == 70 && Value(f[3..5]) == core.locate ==>
              |f| >= 38 &&
              HandleFrame(core, target, f) ==
                AddOrder(core, target, Value(f[3..5]),
                         Add(Value(f[13..21]), if f[21] == 66 then Buy else Sell, Value(f[22..26]), f[26..34],
                             Value(f[34..38])))
    ensures (f[2] == 69 || f[2] == 67 || f[2] == 88) && Value(f[3..5]) == core.locate ==>
              |f| >= 25 && HandleFrame(core, target, f) == ReduceOrder(core, Value(f[13..21]), Value(f[21..25]))
    ensures f[2] == 68 && Value(f[3..5]) == core.locate ==>
              |f| >= 21 && HandleFrame(core, target, f) == DeleteOrder(core, Value(f[13..21]))
    ensures f[2] == 85 && Value(f[3..5]) == core.locate ==>
              |f| >= 37 &&
              HandleFrame(core, target, f) ==
                ReplaceOrder(core, Replace(Value(f[13..21]), Value(f[21..29]), Value(f[29..33]), Value(f[33..37])))
    ensures f[2] != 65 && Value(f[3..5]) != core.locate ==> HandleFrame(core, target, f) == Some(core)
    ensures f[2] != 65 && f[2] != 70 && f[2] != 69 && f[2] != 67 && f[2] != 88 && f[2] != 68 && f[2] != 85 ==>
              HandleFrame(core, target, f) == Some(core)
  {
    TypesAndSizes(f[2]);
    if IsOrderType(f[2]) {
      MessageInFrame(f);
    }
  }

  // ----- what the messages do to the handler -----

  /** The shares at a price; a missing level counts as none. */
  function LevelAt(levels: Levels, price: nat): nat {
    if price in levels then levels[price] else 0
  }

  /** The total at a price counts the shares of every order on that side at that price, and no others. */
  lemma TotalCounts(records: Records, ref: nat, o: Order, side: Side, price: nat)
    requires ref !in records
    ensures Total(map[], side, price) == 0
    ensures Total(records[ref := o], side, price) ==
            Total(records, side, price) + if o.side == side && o.price == price then o.shares else 0
  {
    TotalUpdate(records, side, price, ref, o);
    TotalMissing(records, side, price, ref);
  }

  /** What it means that the book agrees with the records: at most 2^16 orders of 1 to 2^32 - 1 shares each are live,
      every level holds their total, and no level is empty. */
  lemma AgreesMeans(core: Core)
    ensures CoreAgrees(core) <==>
            && |core.records| <= 0x1_0000
            && (forall ref :: ref in core.records ==> 0 < core.records[ref].shares < 0x1_0000_0000)
            && (forall p: nat :: LevelAt(core.buy, p) == Total(core.records, Buy, p))
            && (forall p: nat :: LevelAt(core.sell, p) == Total(core.records, Sell, p))
            && (forall p :: p in core.buy ==> core.buy[p] > 0) && (forall p :: p in core.sell ==> core.sell[p] > 0)
  {
    SideAgreesMeans(core.buy, core.records, Buy);
    SideAgreesMeans(core.sell, core.records, Sell);
  }

  lemma SideAgreesMeans(levels: Levels, records: Records, side: Side)
    ensures Agrees(levels, records, side) <==>
            && (forall p: nat :: LevelAt(levels, p) == Total(records, side, p))
            && (forall p :: p in levels ==> levels[p] > 0)
  {
    if Agrees(levels, records, side) {
      forall p: nat ensures LevelAt(levels, p) == Total(records, side, p) && (p in levels ==> levels[p] > 0) {
        assert LevelAgrees(levels, records, side, p);
      }
    } else {
      var p: nat :| !LevelAgrees(levels, records, side, p);
      assert !(LevelAt(levels, p) == Total(records, side, p) && (p in levels ==> levels[p] > 0));
    }
  }

  /** From `before` to `after` the shares at one price and side grow by `n`, and nothing else on either side changes. */
  ghost predicate OneLevelMoves(before: Core, after: Core, side: Side, price: nat, n: int) {
    forall p: nat ::
      && LevelAt(after.buy, p) == LevelAt(before.buy, p) + (if side == Buy && p == price then n else 0)
      && LevelAt(after.sell, p) == LevelAt(before.sell, p) + (if side == Sell && p == price then n else 0)
  }

  /** Where book and records agree, a level moves as the total of the records does. */
  lemma MovesWithTotals(before: Core, after: Core, side: Side, price: nat, n: int)
    requires CoreAgrees(before) && CoreAgrees(after)
    requires forall s: Side, p: nat ::
               Total(after.records, s, p) == Total(before.records, s, p) + (if s == side && p == price then n else 0)
    ensures OneLevelMoves(before, after, side, price, n)
  {
    forall p: nat
      ensures LevelAt(after.buy, p) == LevelAt(before.buy, p) + (if side == Buy && p == price then n else 0)
      ensures LevelAt(after.sell, p) == LevelAt(before.sell, p) + (if side == Sell && p == price then n else 0)
    {
      assert LevelAgrees(before.buy, before.records, Buy, p) && LevelAgrees(before.sell, before.records, Sell, p);
      assert LevelAgrees(after.buy, after.records, Buy, p) && LevelAgrees(after.sell, after.records, Sell, p);
    }
  }

  /** An add of the handler's own stock: the order is recorded, its shares are booked on its side at its price, and the
      locate code is learnt. */
  lemma AddEffect(core: Core, target: seq<Byte>, locate: nat, ref: nat, side: Side, shares: nat, price: nat)
    requires CoreAgrees(core) && ref !in core.records && |core.records| < 0x1_0000 && 0 < shares < 0x1_0000_0000
    ensures var r := Simulate(core, target, locate, Add(ref, side, shares, target, price));
            && r.Some? && CoreAgrees(r.value) && r.value.locate == locate
            && r.value.records == core.records[ref := Order(side, price, shares)]
            && OneLevelMoves(core, r.value, side, price, shares)
            && (if side == Buy then r.value.sell == core.sell else r.value.buy == core.buy)
  {
    var m, o := Add(ref, side, shares, target, price), Order(side, price, shares);
    SimulateAgrees(core, target, locate, m);
    var after := Simulate(core, target, locate, m).value;
    forall s: Side, p: nat
      ensures Total(after.records, s, p) == Total(core.records, s, p) + (if s == side && p == price then shares else 0)
    {
      TotalCounts(core.records, ref, o, s, p);
    }
    MovesWithTotals(core, after, side, price, shares);
  }

  /** An add of another stock changes nothing. */
  lemma ForeignAddEffect(core: Core, target: seq<Byte>, locate: nat, ref: nat, side: Side, shares: nat,
                         stock: seq<Byte>, price: nat)
    requires stock != target
    ensures Simulate(core, target, locate, Add(ref, side, shares, stock, price)) == Some(core)
  {
  }

  /** An execution or cancellation of some or all shares of a live order: just those shares go, from the record and from
      its level, and the record goes if none are left. */
  lemma ReduceEffect(core: Core, target: seq<Byte>, locate: nat, ref: nat, n: nat)
    requires CoreAgrees(core) && ref in core.records && n <= core.records[ref].shares
    ensures var r, o := Simulate(core, target, locate, Reduce(ref, n)), core.records[ref];
            && r.Some? && CoreAgrees(r.value) && r.value.locate == core.locate
            && r.value.records == (if n < o.shares then core.records[ref := Order(o.side, o.price, o.shares - n)]
                                   else core.records - {ref})
            && OneLevelMoves(core, r.value, o.side, o.price, 0 - n as int)
            && (if o.side == Buy then r.value.sell == core.sell else r.value.buy == core.buy)
  {
    SimulateAgrees(core, target, locate, Reduce(ref, n));
    var o, after := core.records[ref], Simulate(core, target, locate, Reduce(ref, n)).value;
    ReducedIs(core.records, ref, n);
    var d: int := 0 - n;
    forall s: Side, p: nat
      ensures Total(after.records, s, p) == Total(core.records, s, p) + (if s == o.side && p == o.price then d else 0)
    {
      TotalShrinks(core.records, after.records, ref, n, s, p);
    }
    MovesWithTotals(core, after, o.side, o.price, d);
  }

  lemma ReducedIs(records: Records, ref: nat, n: nat)
    requires ref in records && n <= records[ref].shares
    ensures var o := records[ref];
            Reduced(records, ref, n) ==
            if n < o.shares then records[ref := Order(o.side, o.price, o.shares - n)] else records - {ref}
  {
  }

  lemma TotalShrinks(records: Records, after: Records, ref: nat, n: nat, side: Side, price: nat)
    requires ref in records && n <= records[ref].shares
    requires var o := records[ref];
             after == if n < o.shares then records[ref := Order(o.side, o.price, o.shares - n)] else records - {ref}
    ensures var o := records[ref];
            Total(after, side, price) ==
            Total(records, side, price) - if o.side == side && o.price == price then n else 0
  {
    ReducedIs(records, ref, n);
    ReducedTotal(records, ref, n, side, price);
  }

  /** An illegal execution of more shares than the order has is not refused: the record wraps around to nearly 2^64
      shares, and the book no longer agrees with the records. */
  lemma OverReduction(core: Core, target: seq<Byte>, locate: nat, ref: nat, n: nat)
    requires CoreAgrees(core) && ref in core.records && core.records[ref].shares < n < 0x1_0000_0000
    ensures var r, o := Simulate(core, target, locate, Reduce(ref, n)), core.records[ref];
            && r.Some? && !CoreAgrees(r.value)
            && r.value.records == core.records[ref := Order(o.side, o.price, 0x1_0000_0000_0000_0000 + o.shares - n)]
  {
    var o := core.records[ref];
    LevelIsThere(core.LevelsOf(o.side), core.records, ref);
    var left := 0x1_0000_0000_0000_0000 + o.shares - n;
    assert (o.shares - n) % TWO_TO_64 == left;
    assert Simulate(core, target, locate, Reduce(ref, n)).value.records[ref].shares == left;
  }

  /** A deletion of a live order takes all its shares. */
  lemma DeleteEffect(core: Core, target: seq<Byte>, locate: nat, ref: nat)
    requires CoreAgrees(core) && ref in core.records
    ensures var r, o := Simulate(core, target, locate, Delete(ref)), core.records[ref];
            && r.Some? && CoreAgrees(r.value) && r.value.locate == core.locate
            && r.value.records == core.records - {ref}
            && OneLevelMoves(core, r.value, o.side, o.price, 0 - o.shares as int)
            && (if o.side == Buy then r.value.sell == core.sell else r.value.buy == core.buy)
  {
    ReduceEffect(core, target, locate, ref, core.records[ref].shares);
    DeleteIsFullReduction(core, ref);
  }

  /** A replacement of a live order by one under a fresh reference, or its own: the old order goes with all its shares,
      the new one is recorded and booked on the same side. */
  lemma ReplaceEffect(core: Core, target: seq<Byte>, locate: nat, original: nat, replacement: nat, shares: nat,
                      price: nat)
    requires CoreAgrees(core) && original in core.records && 0 < shares < 0x1_0000_0000
    requires replacement == original || replacement !in core.records
    ensures var r := Simulate(core, target, locate, Replace(original, replacement, shares, price));
            var o := core.records[original];
            && r.Some? && CoreAgrees(r.value) && r.value.locate == core.locate
            && r.value.records == (core.records - {original})[replacement := Order(o.side, price, shares)]
            && (if o.side == Buy then r.value.sell == core.sell else r.value.buy == core.buy)
            && forall p: nat ::
                 LevelAt(r.value.LevelsOf(o.side), p) ==
                 LevelAt(core.LevelsOf(o.side), p)
                 - (if p == o.price then o.shares else 0) + (if p == price then shares else 0)
  {
    var o := core.records[original];
    DeleteEffect(core, target, locate, original);
    var mid := Simulate(core, target, locate, Delete(original)).value;
    assert |mid.records| < |core.records|;
    AddEffect(mid, target, core.locate, replacement, o.side, shares, price);
    ReplaceIsDeleteThenAdd(core, Replace(original, replacement, shares, price), target);
  }

  /** Messages that the handler cannot carry out: the end iterator dereferenced for an order that is not live, and
      the full table refusing another one. */
  lemma FaultingMessages(core: Core, target: seq<Byte>, locate: nat, ref: nat, side: Side, shares: nat, price: nat,
                         replacement: nat)
    requires ref !in core.records
    ensures Simulate(core, target, locate, Reduce(ref, shares)) == None
    ensures Simulate(core, target, locate, Delete(ref)) == None
    ensures Simulate(core, target, locate, Replace(ref, replacement, shares, price)) == None
    ensures |core.records| >= 0x1_0000 ==> Simulate(core, target, locate, Add(ref, side, shares, target, price)) == None
  {
  }

  /** A poll on any bytes at all, with the lengths and codes spelt out. Fewer than two bytes: it goes on unless the
      stream is closed. Fewer than thirteen: a fault. A message that is skipped: the header goes, and what the size
      says is left, unless that is more than there is; a size below eleven counts as nearly 2^64 there. Otherwise the
      body must be there, and the message must not fault. */
  lemma PollOnBytes(core: Core, target: seq<Byte>, bytes: seq<Byte>, closed: bool)
    ensures var r := PollOf(core, target, bytes, closed);
            && (r.again <==> |bytes| >= 2 || !closed)
            && (|bytes| < 2 ==> r.core == Some(core) && r.taken == 0)
            && (2 <= |bytes| < 13 ==> r.core == None && r.taken == 2)
    ensures |bytes| >= 13 ==>
              var r, size, t := PollOf(core, target, bytes, closed), 0x100 * bytes[0] as nat + bytes[1], bytes[2];
              var rest := if size >= 11 then size - 11 else 0x1_0000_0000_0000_0000 + size - 11;
              var length := if t == 65 || t == 67 then 25 else if t == 70 then 29 else if t == 69 then 20
                            else if t == 88 then 12 else if t == 68 then 8 else 24;
              if t != 65 && ((t != 70 && t != 69 && t != 67 && t != 88 && t != 68 && t != 85)
                             || 0x100 * bytes[3] as nat + bytes[4] != core.locate)
              then r.core == Some(core) && r.taken == if 13 + rest <= |bytes| then 13 + rest else 13
              else
                && (|bytes| < 13 + length ==> r.core == None && r.taken == 13)
                && (|bytes| >= 13 + length ==>
                      r.taken == 13 + length &&
                      r.core == Simulate(core, target, Value(bytes[3..5]), Parse(t, bytes[13..13 + length])))
  {
    if |bytes| >= 13 {
      TypesAndSizes(bytes[2]);
      ValueOf2(bytes[..2]);
      ValueOf2(bytes[3..5]);
      var waiting := bytes[2..];
      assert waiting[1..3] == bytes[3..5];
      if IsOrderType(bytes[2]) && |bytes| >= 13 + BodySize(bytes[2]) {
        assert waiting[11..][..BodySize(bytes[2])] == bytes[13..13 + BodySize(bytes[2])];
      }
    }
  }

  // ----- how a feed goes on -----

  lemma FeedGoesOn(frames: seq<Frame>, f: Frame, target: seq<Byte>, locate: nat)
    requires LawfulFeed(frames, target, locate)
    ensures LawfulFeed(frames + [f], target, locate) <==> LawfulFrame(frames, f, target, locate)
    ensures RecordsAfter(frames + [f], locate) ==
            if Concerns(f, locate) && Legal(RecordsAfter(frames, locate), MessageOf(f))
            then Apply(RecordsAfter(frames, locate), MessageOf(f)) else RecordsAfter(frames, locate)
  {
    assert (frames + [f])[..|frames|] == frames;
  }

  /** After a lawful feed the stock may add an order exactly if the reference is not live, the order has shares and
      fewer than 2^16 orders are live; the order is then among the records. */
  lemma AddGoesOn(frames: seq<Frame>, f: Frame, target: seq<Byte>, locate: nat)
    requires LawfulFeed(frames, target, locate) && FrameOk(f) && (f[2] == 65 || f[2] == 70)
    requires |f| >= 38 && Value(f[3..5]) == locate
    ensures var records, ref, shares := RecordsAfter(frames, locate), Value(f[13..21]), Value(f[22..26]);
            && (LawfulFeed(frames + [f], target, locate) <==>
                  f[26..34] == target && ref !in records && shares > 0 && |records| < 0x1_0000)
            && (LawfulFeed(frames + [f], target, locate) ==>
                  RecordsAfter(frames + [f], locate) ==
                    records[ref := Order(if f[21] == 66 then Buy else Sell, Value(f[34..38]), shares)])
  {
    MessageInFrame(f);
    FeedGoesOn(frames, f, target, locate);
  }

  /** It may execute or cancel any part of a live order, and nothing else. */
  lemma ReduceGoesOn(frames: seq<Frame>, f: Frame, target: seq<Byte>, locate: nat)
    requires LawfulFeed(frames, target, locate) && FrameOk(f) && (f[2] == 69 || f[2] == 67 || f[2] == 88)
    requires |f| >= 25 && Value(f[3..5]) == locate
    ensures var records, ref, n := RecordsAfter(frames, locate), Value(f[13..21]), Value(f[21..25]);
            && (LawfulFeed(frames + [f], target, locate) <==> ref in records && n <= records[ref].shares)
            && (LawfulFeed(frames + [f], target, locate) ==>
                  var o := records[ref];
                  RecordsAfter(frames + [f], locate) ==
                    if n < o.shares then records[ref := Order(o.side, o.price, o.shares - n)] else records - {ref})
  {
    MessageInFrame(f);
    FeedGoesOn(frames, f, target, locate);
    var records, ref, n := RecordsAfter(frames, locate), Value(f[13..21]), Value(f[21..25]);
    if ref in records && n <= records[ref].shares {
      ReducedIs(records, ref, n);
      assert Apply(records, MessageOf(f)) == Reduced(records, ref, n);
    }
  }

  /** It may delete any live order. */
  lemma DeleteGoesOn(frames: seq<Frame>, f: Frame, target: seq<Byte>, locate: nat)
    requires LawfulFeed(frames, target, locate) && FrameOk(f) && f[2] == 68
    requires |f| >= 21 && Value(f[3..5]) == locate
    ensures var records, ref := RecordsAfter(frames, locate), Value(f[13..21]);
            && (LawfulFeed(frames + [f], target, locate) <==> ref in records)
            && (LawfulFeed(frames + [f], target, locate) ==> RecordsAfter(frames + [f], locate) == records - {ref})
  {
    MessageInFrame(f);
    FeedGoesOn(frames, f, target, locate);
  }

  /** It may replace any live order by one with shares, under its own reference or one that is not live. */
  lemma ReplaceGoesOn(frames: seq<Frame>, f: Frame, target: seq<Byte>, locate: nat)
    requires LawfulFeed(frames, target, locate) && FrameOk(f) && f[2] == 85
    requires |f| >= 37 && Value(f[3..5]) == locate
    ensures var records, old', new' := RecordsAfter(frames, locate), Value(f[13..21]), Value(f[21..29]);
            var shares, price := Value(f[29..33]), Value(f[33..37]);
            && (LawfulFeed(frames + [f], target, locate) <==>
                  old' in records && shares > 0 && (new' == old' || new' !in records))
            && (LawfulFeed(frames + [f], target, locate) ==>
                  RecordsAfter(frames + [f], locate) ==
                    (records - {old'})[new' := Order(records[old'].side, price, shares)])
  {
    MessageInFrame(f);
    FeedGoesOn(frames, f, target, locate);
  }

  /** Frames of other types and order messages under other codes do not concern the stock; they only must not add an
      order of it. */
  lemma OthersGoOn(frames: seq<Frame>, f: Frame, target: seq<Byte>, locate: nat)
    requires LawfulFeed(frames, target, locate) && FrameOk(f)
    requires Value(f[3..5]) != locate
             || (f[2] != 65 && f[2] != 70 && f[2] != 69 && f[2] != 67 && f[2] != 88 && f[2] != 68 && f[2] != 85)
    ensures LawfulFeed(frames + [f], target, locate) <==>
            (f[2] == 65 || f[2] == 70 ==> |f| >= 38 && f[26..34] != target)
    ensures RecordsAfter(frames + [f], locate) == RecordsAfter(frames, locate)
  {
    TypesAndSizes(f[2]);
    if IsOrderType(f[2]) {
      MessageInFrame(f);
    }
    FeedGoesOn(frames, f, target, locate);
  }
}
