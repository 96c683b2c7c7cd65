/** Lawful feeds on which the handler does not serve its stock. */
module FeedWitnesses {
  import opened BigEndian
  import opened Options
  import opened OrderBooks
  import opened Framing
  import opened Itch
  import opened HandlerCore
  import opened ItchWire

  function Zeros(n: nat): (bs: seq<Byte>)
    ensures |bs| == n && forall i :: 0 <= i < n ==> bs[i] == 0
  {
    seq(n, i => 0)
  }

  /** Leading zeros count for nothing. */
  lemma {:induction false} ValueOfSmall(bs: seq<Byte>)
    requires bs != [] && forall i :: 0 <= i < |bs| - 1 ==> bs[i] == 0
    ensures Value(bs) == bs[|bs| - 1]
  {
    if |bs| > 1 {
      ValueOfSmall(bs[..|bs| - 1]);
    }
  }

  /** A frame with the given message type, locate code and body; the rest of its header is zero. */
  function FrameWith(t: Byte, locate: Byte, body: seq<Byte>): Frame
    requires |body| < 245
  {
    [0, HEADER_BYTES + |body|] + [t, 0, locate] + Zeros(8) + body
  }

  lemma FrameWithIs(t: Byte, locate: Byte, body: seq<Byte>)
    requires IsOrderType(t) && |body| == BodySize(t)
    ensures var f := FrameWith(t, locate, body);
            FrameOk(f) && TypeOf(f) == t && LocateOf(f) == locate && BodyOf(f) == body
  {
    var f := FrameWith(t, locate, body);
    assert f[..2] == [0, HEADER_BYTES + |body|] && f[3..5] == [0, locate];
    ValueOfSmall(f[..2]);
    ValueOfSmall(f[3..5]);
  }

  /** The body of an add; an attribution may follow. */
  function AddBody(ref: nat, indicator: Byte, shares: nat, stock: seq<Byte>, price: nat,
                   attribution: seq<Byte>): seq<Byte> {
    WireBytes(ref, 8) + [indicator] + WireBytes(shares, 4) + stock + WireBytes(price, 4) + attribution
  }

  /** Any stock that opens with an attributed add ('F') under a code the handler does not hold loses that order. */
  lemma OpeningIsLost(stock: seq<Byte>, locate: Byte, initial: nat)
    requires |stock| == 8 && initial != locate
    ensures var frames := [FrameWith(70, locate, AddBody(7, 66, 100, stock, 5000, Zeros(4)))];
            && LawfulFeed(frames, stock, locate) && FrameOk(frames[0])
            && RecordsAfter(frames, locate) == map[7 := Order(Buy, 5000, 100)]
            && Handled(frames, stock, initial) == Some(Core(initial, map[], map[], map[]))
  {
    var body := AddBody(7, 66, 100, stock, 5000, Zeros(4));
    AddParses(70, body, 7, 66, 100, stock, 5000, Zeros(4));
    FrameWithIs(70, locate, body);
    var f: Frame := FrameWith(70, locate, body);
    assert MessageOf(f) == Add(7, Buy, 100, stock, 5000);
    assert RecordsAfter([f][..0], locate) == map[] && LawfulFeed([f][..0], stock, locate);
    assert LawfulFrame([f][..0], f, stock, locate);
    assert Handled([f][..0], stock, initial) == Some(Core(initial, map[], map[], map[]));
  }

  /** An order of `other` under code `locate`, added and deleted again. */
  function AddAndDelete(other: seq<Byte>, locate: Byte): seq<Frame>
    requires |other| == 8
  {
    [FrameWith(65, locate, AddBody(7, 66, 100, other, 5000, [])), FrameWith(68, locate, WireBytes(7, 8))]
  }

  lemma AddAndDeleteIs(other: seq<Byte>, locate: Byte)
    requires |other| == 8
    ensures var frames := AddAndDelete(other, locate);
            && FrameOk(frames[0]) && TypeOf(frames[0]) == ADD && LocateOf(frames[0]) == locate
            && MessageOf(frames[0]) == Add(7, Buy, 100, other, 5000)
            && FrameOk(frames[1]) && TypeOf(frames[1]) == DELETE && LocateOf(frames[1]) == locate
            && MessageOf(frames[1]) == Delete(7)
  {
    AddParses(65, AddBody(7, 66, 100, other, 5000, []), 7, 66, 100, other, 5000, []);
    FrameWithIs(65, locate, AddBody(7, 66, 100, other, 5000, []));
    DeleteParses(WireBytes(7, 8), 7);
    FrameWithIs(68, locate, WireBytes(7, 8));
  }

  /** What a reader of any stock makes of a feed of two frames. */
  lemma TwoFrames(frames: seq<Frame>, target: seq<Byte>, locate: nat)
    requires |frames| == 2 && LawfulFrame([], frames[0], target, locate)
    requires LawfulFrame([frames[0]], frames[1], target, locate)
    ensures LawfulFeed(frames, target, locate)
  {
    var none: seq<Frame> := [];
    assert frames[..1] == [frames[0]] && frames[..1][..0] == none;
    assert LawfulFeed(frames[..1][..0], target, locate);
    assert LawfulFeed(frames[..1], target, locate);
  }

  lemma AddedFirst(frames: seq<Frame>, other: seq<Byte>, locate: Byte)
    requires |other| == 8 && frames == AddAndDelete(other, locate)
    ensures RecordsAfter([], locate) == map[] && RecordsAfter([frames[0]], locate) == map[7 := Order(Buy, 5000, 100)]
  {
    AddAndDeleteIs(other, locate);
    var one: seq<Frame>, none: seq<Frame> := [frames[0]], [];
    assert one[..0] == none;
  }

  /** A handler whose uninitialised field happens to hold the code of another stock faults on a feed that is lawful for
      both stocks, as soon as an order of the other one is deleted. */
  lemma ForeignDeleteFaults(stock: seq<Byte>, locate: nat, other: seq<Byte>, initial: Byte)
    requires |other| == 8 && stock != other && locate != initial
    ensures var frames := AddAndDelete(other, initial);
            && LawfulFeed(frames, stock, locate) && LawfulFeed(frames, other, initial)
            && FrameOk(frames[0]) && FrameOk(frames[1])
            && Handled(frames, stock, initial) == None
  {
    var frames := AddAndDelete(other, initial);
    AddAndDeleteIs(other, initial);
    AddedFirst(frames, other, initial);
    TwoFrames(frames, stock, locate);
    TwoFrames(frames, other, initial);
    var start := Core(initial, map[], map[], map[]);
    assert HandleFrame(start, stock, frames[0]) == Some(start);
    assert HandleFrame(start, stock, frames[1]) == None;
    var none: seq<Frame> := [];
    assert frames[..1] == [frames[0]] && frames[..1][..0] == none;
    assert Handled(frames[..1][..0], stock, initial) == Some(start);
    assert Handled(frames[..1], stock, initial) == Some(start);
  }

  /** A length-prefixed add message with one byte more than its type has: the poll leaves that byte in the queue, where
      the next poll takes it for the beginning of a size. */
  lemma LongAddMisaligns(core: Core, target: seq<Byte>, more: seq<Byte>, closed: bool)
    requires target != Zeros(8)
    ensures var f := FrameWith(65, 1, Zeros(26));
            var r := PollOf(core, target, f + more, closed);
            Prefixed(f) && r == Polled(true, Some(core), |f| - 1)
  {
    var f := FrameWith(65, 1, Zeros(26));
    assert f[..2] == [0, 37];
    ValueOfSmall(f[..2]);
    SizeInFront(f, more);
    LocateInFront(f, more);
    var body := (f + more)[SIZE_BYTES..][HEADER_BYTES..];
    assert body[..25] == Zeros(25);
    assert Zeros(25)[13..21] == Zeros(8);
  }

  // ----- a lawful day -----

  /** The feed is well formed for the stock under code 1 and a field that held 0; the handler holds `core`, and the
      reader has its records. */
  ghost predicate Leads(frames: seq<Frame>, stock: seq<Byte>, core: Core) {
    && LawfulFeed(frames, stock, 1) && WellFormedFeed(frames, stock, 1, 0)
    && (forall i :: 0 <= i < |frames| ==> FrameOk(frames[i]))
    && RecordsAfter(frames, 1) == core.records && Handled(frames, stock, 0) == Some(core)
    && core.locate == (if Opened(frames, 1) then 1 else 0)
  }

  /** The message is legal and does this to the handler, and the same to the records. */
  ghost predicate Does(stock: seq<Byte>, core: Core, m: Message, after: Core) {
    Legal(core.records, m) && Simulate(core, stock, 1, m) == Some(after) && after.records == Apply(core.records, m)
  }

  lemma LeadsOn(before: seq<Frame>, f: Frame, t: Byte, m: Message, stock: seq<Byte>, core: Core, after: Core)
    requires Leads(before, stock, core) && Carries(f, t, m) && (core.locate == 1 || t == 65)
    requires Does(stock, core, m, after) && (m.Add? ==> m.stock == stock) && after.locate == 1
    ensures Leads(before + [f], stock, after)
  {
    assert (before + [f])[..|before|] == before;
  }

  ghost predicate Carries(f: Frame, t: Byte, m: Message) {
    FrameOk(f) && IsOrderType(t) && TypeOf(f) == t && LocateOf(f) == 1 && MessageOf(f) == m
  }

  function AddFrame(ref: nat, indicator: Byte, shares: nat, stock: seq<Byte>, price: nat): Frame
    requires |stock| == 8
  {
    FrameWith(65, 1, WireBytes(ref, 8) + [indicator] + WireBytes(shares, 4) + stock + WireBytes(price, 4))
  }

  /** An execution, or a cancellation, which has nothing after the shares. */
  function ReduceFrame(t: Byte, ref: nat, shares: nat, rest: seq<Byte>): Frame
    requires |rest| <= 8
  {
    FrameWith(t, 1, WireBytes(ref, 8) + WireBytes(shares, 4) + rest)
  }

  function ReplaceFrame(original: nat, replacement: nat, shares: nat, price: nat): Frame {
    FrameWith(85, 1, WireBytes(original, 8) + WireBytes(replacement, 8) + WireBytes(shares, 4) + WireBytes(price, 4))
  }

  function DeleteFrame(ref: nat): Frame {
    FrameWith(68, 1, WireBytes(ref, 8))
  }

  lemma AddCarries(ref: nat, indicator: Byte, shares: nat, stock: seq<Byte>, price: nat)
    requires ref < 0x1_0000_0000_0000_0000 && shares < 0x1_0000_0000 && price < 0x1_0000_0000 && |stock| == 8
    ensures Carries(AddFrame(ref, indicator, shares, stock, price), 65,
                    Add(ref, if indicator == 66 then Buy else Sell, shares, stock, price))
  {
    var none: seq<Byte> := [];
    var body := WireBytes(ref, 8) + [indicator] + WireBytes(shares, 4) + stock + WireBytes(price, 4);
    assert body == body + none;
    AddParses(65, body, ref, indicator, shares, stock, price, none);
    FrameWithIs(65, 1, body);
  }

  lemma ReduceCarries(t: Byte, ref: nat, shares: nat, rest: seq<Byte>)
    requires ref < 0x1_0000_0000_0000_0000 && shares < 0x1_0000_0000
    requires (t == 69 && |rest| == 8) || (t == 88 && rest == [])
    ensures Carries(ReduceFrame(t, ref, shares, rest), t, Reduce(ref, shares))
  {
    var body := WireBytes(ref, 8) + WireBytes(shares, 4) + rest;
    ReduceParses(t, body, ref, shares, rest);
    FrameWithIs(t, 1, body);
  }

  lemma ReplaceCarries(original: nat, replacement: nat, shares: nat, price: nat)
    requires original < 0x1_0000_0000_0000_0000 && replacement < 0x1_0000_0000_0000_0000
    requires shares < 0x1_0000_0000 && price < 0x1_0000_0000
    ensures Carries(ReplaceFrame(original, replacement, shares, price), 85,
                    Replace(original, replacement, shares, price))
  {
    var body := WireBytes(original, 8) + WireBytes(replacement, 8) + WireBytes(shares, 4) + WireBytes(price, 4);
    ReplaceParses(body, original, replacement, shares, price);
    FrameWithIs(85, 1, body);
  }

  lemma DeleteCarries(ref: nat)
    requires ref < 0x1_0000_0000_0000_0000
    ensures Carries(DeleteFrame(ref), 68, Delete(ref))
  {
    DeleteParses(WireBytes(ref, 8), ref);
    FrameWithIs(68, 1, WireBytes(ref, 8));
  }

  /** A day of one stock: `n` shares bought at `p` under reference `a`, `m` sold at `q` under `b`; `e` of `a`
      executed, `x` of it cancelled, the rest replaced by `k` at `r` under `c`, and that deleted. */
  datatype Plan = Plan(a: nat, n: nat, p: nat, b: nat, m: nat, q: nat, e: nat, x: nat, c: nat, k: nat, r: nat)

  /** Three references, some shares to each order, and some left of `a` until it is replaced. */
  predicate PlanOk(y: Plan) {
    && y.a < 0x1_0000_0000_0000_0000 && y.b < 0x1_0000_0000_0000_0000 && y.c < 0x1_0000_0000_0000_0000
    && y.a != y.b && y.a != y.c && y.b != y.c
    && 0 < y.n < 0x1_0000_0000 && 0 < y.m < 0x1_0000_0000 && 0 < y.k < 0x1_0000_0000 && y.e + y.x < y.n
    && y.p < 0x1_0000_0000 && y.q < 0x1_0000_0000 && y.r < 0x1_0000_0000
  }

  function Day(stock: seq<Byte>, y: Plan): seq<Frame>
    requires |stock| == 8
  {
    [AddFrame(y.a, 66, y.n, stock, y.p), AddFrame(y.b, 83, y.m, stock, y.q), ReduceFrame(69, y.a, y.e, Zeros(8)),
     ReduceFrame(88, y.a, y.x, []), ReplaceFrame(y.a, y.c, y.k, y.r), DeleteFrame(y.c)]
  }

  /** The handler after `k` frames of the day. */
  function AfterDay(y: Plan, k: nat): Core
    requires PlanOk(y) && k <= 6
  {
    var sold := Order(Sell, y.q, y.m);
    match k
    case 0 => Core(0, map[], map[], map[])
    case 1 => Core(1, map[y.a := Order(Buy, y.p, y.n)], map[y.p := y.n], map[])
    case 2 => Core(1, map[y.a := Order(Buy, y.p, y.n), y.b := sold], map[y.p := y.n], map[y.q := y.m])
    case 3 => Core(1, map[y.a := Order(Buy, y.p, y.n - y.e), y.b := sold], map[y.p := y.n - y.e], map[y.q := y.m])
    case 4 =>
      Core(1, map[y.a := Order(Buy, y.p, y.n - y.e - y.x), y.b := sold], map[y.p := y.n - y.e - y.x], map[y.q := y.m])
    case 5 => Core(1, map[y.c := Order(Buy, y.r, y.k), y.b := sold], map[y.r := y.k], map[y.q := y.m])
    case _ => Core(1, map[y.b := sold], map[], map[y.q := y.m])
  }

  /** A lawful day with every kind of message: after each frame the handler holds just these records and levels, and the
      reader has the same records. */
  lemma DayOfTheStock(stock: seq<Byte>, y: Plan, k: nat)
    requires |stock| == 8 && PlanOk(y) && k <= 6
    ensures Leads(Day(stock, y)[..k], stock, AfterDay(y, k))
  {
    var d := Day(stock, y);
    if k > 0 {
      DayOfTheStock(stock, y, k - 1);
      DayGoesOn(stock, y, d, k - 1);
    }
  }

  function DayMessage(stock: seq<Byte>, y: Plan, k: nat): Message
    requires PlanOk(y) && k < 6
  {
    match k
    case 0 => Add(y.a, Buy, y.n, stock, y.p)
    case 1 => Add(y.b, Sell, y.m, stock, y.q)
    case 2 => Reduce(y.a, y.e)
    case 3 => Reduce(y.a, y.x)
    case 4 => Replace(y.a, y.c, y.k, y.r)
    case _ => Delete(y.c)
  }

  lemma DayGoesOn(stock: seq<Byte>, y: Plan, d: seq<Frame>, k: nat)
    requires |stock| == 8 && PlanOk(y) && d == Day(stock, y) && k < 6 && Leads(d[..k], stock, AfterDay(y, k))
    ensures Leads(d[..k + 1], stock, AfterDay(y, k + 1))
  {
    var m, next := DayMessage(stock, y, k), AfterDay(y, k + 1);
    DayCarries(stock, y, k);
    DaySimulates(stock, y, k);
    LeadsOn(d[..k], d[k], d[k][2], m, stock, AfterDay(y, k), next);
    OneMore(d, k);
  }

  lemma OneMore(d: seq<Frame>, k: nat)
    requires k < |d|
    ensures d[..k] + [d[k]] == d[..k + 1]
  {
  }

  lemma DayCarries(stock: seq<Byte>, y: Plan, k: nat)
    requires |stock| == 8 && PlanOk(y) && k < 6
    ensures var f := Day(stock, y)[k]; Carries(f, f[2], DayMessage(stock, y, k)) && (k == 0 ==> f[2] == 65)
  {
    match k {
      case 0 => AddCarries(y.a, 66, y.n, stock, y.p);
      case 1 => AddCarries(y.b, 83, y.m, stock, y.q);
      case 2 => ReduceCarries(69, y.a, y.e, Zeros(8));
      case 3 => ReduceCarries(88, y.a, y.x, []);
      case 4 => ReplaceCarries(y.a, y.c, y.k, y.r);
      case _ => DeleteCarries(y.c);
    }
  }

  lemma DaySimulates(stock: seq<Byte>, y: Plan, k: nat)
    requires PlanOk(y) && k < 6
    ensures var core, m, after := AfterDay(y, k), DayMessage(stock, y, k), AfterDay(y, k + 1);
            Does(stock, core, m, after) && (m.Add? ==> m.stock == stock) && after.locate == 1
  {
    match k {
      case 0 => DayBuys(stock, y);
      case 1 => DaySells(stock, y);
      case 2 => DayReduces(stock, y, y.n, y.e);
      case 3 => DayReduces(stock, y, y.n - y.e, y.x);
      case 4 => DayReplaces(stock, y, y.n - y.e - y.x);
      case _ => DayEnds(stock, y);
    }
  }

  // ----- what each message of the day does -----

  lemma DayBuys(stock: seq<Byte>, y: Plan)
    requires PlanOk(y)
    ensures Does(stock, Core(0, map[], map[], map[]), Add(y.a, Buy, y.n, stock, y.p),
                 Core(1, map[y.a := Order(Buy, y.p, y.n)], map[y.p := y.n], map[]))
  {
    SmallMod(y.n);
  }

  lemma DaySells(stock: seq<Byte>, y: Plan)
    requires PlanOk(y)
    ensures Does(stock, Core(1, map[y.a := Order(Buy, y.p, y.n)], map[y.p := y.n], map[]),
                 Add(y.b, Sell, y.m, stock, y.q),
                 Core(1, map[y.a := Order(Buy, y.p, y.n), y.b := Order(Sell, y.q, y.m)], map[y.p := y.n],
                      map[y.q := y.m]))
  {
    SmallMod(y.m);
    var bought: Records := map[y.a := Order(Buy, y.p, y.n)];
    assert bought[y.b := Order(Sell, y.q, y.m)] == map[y.a := Order(Buy, y.p, y.n), y.b := Order(Sell, y.q, y.m)];
  }

  lemma DayReduces(stock: seq<Byte>, y: Plan, shares: nat, n: nat)
    requires PlanOk(y) && n < shares < 0x1_0000_0000
    ensures Does(stock, Core(1, map[y.a := Order(Buy, y.p, shares), y.b := Order(Sell, y.q, y.m)], map[y.p := shares],
                             map[y.q := y.m]), Reduce(y.a, n),
                 Core(1, map[y.a := Order(Buy, y.p, shares - n), y.b := Order(Sell, y.q, y.m)], map[y.p := shares - n],
                      map[y.q := y.m]))
  {
    SmallMod(shares - n);
    var before: Records := map[y.a := Order(Buy, y.p, shares), y.b := Order(Sell, y.q, y.m)];
    assert before[y.a := Order(Buy, y.p, shares - n)] ==
           map[y.a := Order(Buy, y.p, shares - n), y.b := Order(Sell, y.q, y.m)];
    var levels: Levels := map[y.p := shares];
    assert levels[y.p := shares - n] == map[y.p := shares - n];
  }

  lemma TakenOut(a: nat, o: Order, b: nat, sold: Order, c: nat, added: Order)
    requires a != b && b != c
    ensures var before: Records, one: Records := map[a := o, b := sold], map[b := sold];
            a in before && before - {a} == one && |one| == 1 && one[c := added] == map[c := added, b := sold]
  {
  }

  lemma DayReplaces(stock: seq<Byte>, y: Plan, shares: nat)
    requires PlanOk(y) && 0 < shares < 0x1_0000_0000
    ensures Does(stock, Core(1, map[y.a := Order(Buy, y.p, shares), y.b := Order(Sell, y.q, y.m)], map[y.p := shares],
                             map[y.q := y.m]), Replace(y.a, y.c, y.k, y.r),
                 Core(1, map[y.c := Order(Buy, y.r, y.k), y.b := Order(Sell, y.q, y.m)], map[y.r := y.k],
                      map[y.q := y.m]))
  {
    var o, added := Order(Buy, y.p, shares), Order(Buy, y.r, y.k);
    TakenOut(y.a, o, y.b, Order(Sell, y.q, y.m), y.c, added);
    OnlyLevelMoves(y.p, shares, y.r, y.k);
    var before: Records := map[y.a := o, y.b := Order(Sell, y.q, y.m)];
    var after: Records := map[y.c := added, y.b := Order(Sell, y.q, y.m)];
    assert Stored(before - {y.a}, y.c, added) == Some(after);
  }

  lemma OnlyLevelMoves(from: nat, shares: nat, to: nat, n: nat)
    requires 0 < shares < 0x1_0000_0000 && 0 < n < 0x1_0000_0000
    ensures var levels: Levels := map[from := shares]; Added(Removed(levels, from, shares), to, n) == map[to := n]
  {
    SmallMod(n);
    var levels: Levels := map[from := shares];
    assert levels - {from} == map[];
  }

  lemma DayEnds(stock: seq<Byte>, y: Plan)
    requires PlanOk(y)
    ensures Does(stock, Core(1, map[y.c := Order(Buy, y.r, y.k), y.b := Order(Sell, y.q, y.m)], map[y.r := y.k],
                             map[y.q := y.m]), Delete(y.c),
                 Core(1, map[y.b := Order(Sell, y.q, y.m)], map[], map[y.q := y.m]))
  {
    var before: Records := map[y.c := Order(Buy, y.r, y.k), y.b := Order(Sell, y.q, y.m)];
    assert before - {y.c} == map[y.b := Order(Sell, y.q, y.m)];
    var levels: Levels := map[y.r := y.k];
    assert levels - {y.r} == map[];
  }
}
