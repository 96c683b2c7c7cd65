/** What the market-data handler does with a message, as a function of its state; and the theorem that over a
    well-formed feed its records are those of a sequential reader and its book totals them. */
module HandlerCore {
  import opened BigEndian
  import opened Bits
  import opened Options
  import opened Framing
  import opened OrderBooks
  import opened Itch

  /** The handler's cached locate code, order records and book. */
  datatype Core = Core(locate: nat, records: Records, buy: Levels, sell: Levels) {
    function LevelsOf(side: Side): Levels {
      if side.Buy? then buy else sell
    }

    function WithLevels(side: Side, levels: Levels): Core {
      if side.Buy? then this.(buy := levels) else this.(sell := levels)
    }
  }

  /** `None` in the results below is a fault: a null handle or end iterator dereferenced, or the record table
      saturated. */

  /** `records[ref] = o`. */
  function Stored(records: Records, ref: nat, o: Order): Option<Records> {
    if ref !in records && |records| >= MAX_ORDERS then None else Some(records[ref := o])
  }

  function AddOrder(core: Core, target: seq<Byte>, locate: nat, m: Message): Option<Core>
    requires m.Add?
  {
    if m.stock != target then Some(core)
    else
      var stored := Stored(core.records, m.ref, Order(m.side, m.price, m.shares));
      if stored.None? then None
      else
        var levels := Added(core.LevelsOf(m.side), m.price, m.shares);
        Some(core.(locate := locate, records := stored.value).WithLevels(m.side, levels))
  }

  /** Execution and cancellation: 64-bit subtraction from the record, which goes when nothing is left. */
  function ReduceOrder(core: Core, ref: nat, shares: nat): Option<Core> {
    if ref !in core.records then None
    else
      var o := core.records[ref];
      var left := (o.shares - shares) % TWO_TO_64;
      if o.price !in core.LevelsOf(o.side) then None
      else
        var records := if left == 0 then core.records - {ref} else core.records[ref := o.(shares := left)];
        Some(core.(records := records).WithLevels(o.side, Removed(core.LevelsOf(o.side), o.price, shares)))
  }

  function DeleteOrder(core: Core, ref: nat): Option<Core> {
    if ref !in core.records then None
    else
      var o := core.records[ref];
      if o.price !in core.LevelsOf(o.side) then None
      else
        Some(core.(records := core.records - {ref})
             .WithLevels(o.side, Removed(core.LevelsOf(o.side), o.price, o.shares)))
  }

  function ReplaceOrder(core: Core, m: Message): Option<Core>
    requires m.Replace?
  {
    if m.original !in core.records then None
    else
      var o := core.records[m.original];
      if o.price !in core.LevelsOf(o.side) then None
      else
        var stored := Stored(core.records - {m.original}, m.replacement, Order(o.side, m.price, m.shares));
        if stored.None? then None
        else
          var levels := Added(Removed(core.LevelsOf(o.side), o.price, o.shares), m.price, m.shares);
          Some(core.(records := stored.value).WithLevels(o.side, levels))
  }

  /** `simulate_message` on one of the order types. */
  function Simulate(core: Core, target: seq<Byte>, locate: nat, m: Message): Option<Core> {
    match m
    case Add(_, _, _, _, _) => AddOrder(core, target, locate, m)
    case Reduce(ref, shares) => ReduceOrder(core, ref, shares)
    case Delete(ref) => DeleteOrder(core, ref)
    case Replace(_, _, _, _) => ReplaceOrder(core, m)
  }

  /** Whether the handler skips the body of a message with this header. */
  predicate SkipsBody(core: Core, t: Byte, locate: nat) {
    (t != ADD && locate != core.locate) || !IsOrderType(t)
  }

  /** One whole frame. */
  ghost function HandleFrame(core: Core, target: seq<Byte>, f: Frame): Option<Core>
    requires FrameOk(f)
  {
    if SkipsBody(core, TypeOf(f), LocateOf(f)) then Some(core)
    else Simulate(core, target, LocateOf(f), MessageOf(f))
  }

  /** A list of frames from a fresh handler whose locate field holds `initial`. */
  ghost function Handled(frames: seq<Frame>, target: seq<Byte>, initial: nat): Option<Core>
    requires forall i :: 0 <= i < |frames| ==> FrameOk(frames[i])
    decreases |frames|
  {
    if frames == [] then Some(Core(initial, map[], map[], map[]))
    else
      var before := Handled(frames[..|frames| - 1], target, initial);
      if before.None? then None else HandleFrame(before.value, target, frames[|frames| - 1])
  }

  // ----- one poll, on any bytes -----

  /** What a poll makes of the bytes that wait in the queue: whether to go on, the new state or a fault, and how many
      bytes it has taken. */
  datatype Polled = Polled(again: bool, core: Option<Core>, taken: nat)

  function PollOf(core: Core, target: seq<Byte>, waiting: seq<Byte>, closed: bool): Polled {
    if |waiting| < SIZE_BYTES then Polled(!closed, Some(core), 0)
    else
      var (after, taken) := AfterSize(core, target, Value(waiting[..SIZE_BYTES]), waiting[SIZE_BYTES..]);
      Polled(true, after, SIZE_BYTES + taken)
  }

  /** The header, and then the body of a message or a skip of what is left by the size. The subtraction is done in 64
      bits, and a skip that is too long is not done at all. */
  function AfterSize(core: Core, target: seq<Byte>, size: nat, waiting: seq<Byte>): (r: (Option<Core>, nat)) {
    if |waiting| < HEADER_BYTES then (None, 0)
    else
      var t, locate, body := waiting[0], Value(waiting[1..3]), waiting[HEADER_BYTES..];
      if SkipsBody(core, t, locate) then
        var rest := (size - HEADER_BYTES) % TWO_TO_64;
        (Some(core), HEADER_BYTES + if rest <= |body| then rest else 0)
      else if |body| < BodySize(t) then (None, HEADER_BYTES)
      else (Simulate(core, target, locate, Parse(t, body[..BodySize(t)])), HEADER_BYTES + BodySize(t))
  }

  lemma SizeInFront(f: seq<Byte>, more: seq<Byte>)
    requires Prefixed(f)
    ensures Value((f + more)[..SIZE_BYTES]) == |f| - SIZE_BYTES < 0x1_0000
  {
    assert (f + more)[..SIZE_BYTES] == f[..SIZE_BYTES];
    assert Limit(2) == 0x1_0000 by { assert Limit(1) == 0x100; }
  }

  lemma LocateInFront(f: seq<Byte>, more: seq<Byte>)
    requires |f| >= SIZE_BYTES + HEADER_BYTES
    ensures var waiting := (f + more)[SIZE_BYTES..]; waiting[0] == f[2] && waiting[1..3] == f[3..5]
  {
    var waiting := (f + more)[SIZE_BYTES..];
    assert waiting[1] == f[3] && waiting[2] == f[4];
    assert waiting[1..3] == [waiting[1], waiting[2]] && f[3..5] == [f[3], f[4]];
  }

  /** On a well-formed frame a poll does what `HandleFrame` says and takes exactly that frame. */
  lemma PollTakesFrame(core: Core, target: seq<Byte>, f: Frame, more: seq<Byte>, closed: bool)
    requires FrameOk(f)
    ensures PollOf(core, target, f + more, closed) == Polled(true, HandleFrame(core, target, f), |f|)
  {
    SizeInFront(f, more);
    LocateInFront(f, more);
    var waiting := (f + more)[SIZE_BYTES..];
    assert waiting[HEADER_BYTES..][..|f| - 13] == BodyOf(f);
  }

  /** Exactly when a poll that does not fault stays aligned on frames of any kind: the frame has a header, and it has
      the length its message type demands, unless its body is skipped. */
  lemma AlignedExactly(core: Core, target: seq<Byte>, f: seq<Byte>, more: seq<Byte>, closed: bool)
    requires Prefixed(f) && PollOf(core, target, f + more, closed).core.Some?
    ensures PollOf(core, target, f + more, closed).taken == |f| <==>
            |f| >= 13 && (SkipsBody(core, f[2], Value(f[3..5])) || |f| == 13 + BodySize(f[2]))
  {
    SizeInFront(f, more);
    if |f| >= 13 {
      LocateInFront(f, more);
    }
  }

  // ----- the book agrees with the records -----

  ghost predicate CoreAgrees(core: Core) {
    Bounded(core.records) && Agrees(core.buy, core.records, Buy) && Agrees(core.sell, core.records, Sell)
  }

  ghost predicate MessageBounded(m: Message) {
    match m
    case Add(_, _, shares, _, _) => shares < 0x1_0000_0000
    case Reduce(_, shares) => shares < 0x1_0000_0000
    case Delete(_) => true
    case Replace(_, _, shares, _) => shares < 0x1_0000_0000
  }

  lemma SmallMod(x: nat)
    requires x < TWO_TO_64
    ensures x % TWO_TO_64 == x
  {
  }

  lemma AddOrderAgrees(core: Core, target: seq<Byte>, locate: nat, m: Message)
    requires m.Add? && m.stock == target && CoreAgrees(core) && Legal(core.records, m) && MessageBounded(m)
    ensures var r := AddOrder(core, target, locate, m);
            r.Some? && r.value.locate == locate && r.value.records == Apply(core.records, m) && CoreAgrees(r.value)
  {
    var o := Order(m.side, m.price, m.shares);
    AddAgrees(core.LevelsOf(m.side), core.records, m.ref, o);
    OtherSideAgrees(core.LevelsOf(Buy), core.records, Buy, m.ref, o, 0);
    OtherSideAgrees(core.LevelsOf(Sell), core.records, Sell, m.ref, o, 0);
  }

  /** Taking `n` shares off a live order, all of them or fewer. */
  lemma ReduceOrderAgrees(core: Core, ref: nat, n: nat)
    requires CoreAgrees(core) && ref in core.records && n <= core.records[ref].shares
    ensures var r := ReduceOrder(core, ref, n);
            r.Some? && r.value.locate == core.locate && r.value.records == Reduced(core.records, ref, n)
            && CoreAgrees(r.value)
  {
    var o := core.records[ref];
    ReduceAgrees(core.LevelsOf(o.side), core.records, ref, n);
    SmallMod(o.shares - n);
    OtherSideAgrees(core.LevelsOf(Buy), core.records, Buy, ref, o, n);
    OtherSideAgrees(core.LevelsOf(Sell), core.records, Sell, ref, o, n);
  }

  lemma DeleteIsFullReduction(core: Core, ref: nat)
    requires CoreAgrees(core) && ref in core.records
    ensures DeleteOrder(core, ref) == ReduceOrder(core, ref, core.records[ref].shares)
  {
  }

  /** A replacement is a deletion followed by an add of the new order on the same side. */
  lemma ReplaceIsDeleteThenAdd(core: Core, m: Message, target: seq<Byte>)
    requires m.Replace? && CoreAgrees(core) && Legal(core.records, m)
    ensures var deleted := DeleteOrder(core, m.original);
            deleted.Some? &&
            ReplaceOrder(core, m) ==
              AddOrder(deleted.value, target, core.locate,
                       Add(m.replacement, core.records[m.original].side, m.shares, target, m.price))
  {
    var o := core.records[m.original];
    LevelIsThere(core.LevelsOf(o.side), core.records, m.original);
  }

  lemma ReplaceOrderAgrees(core: Core, m: Message)
    requires m.Replace? && CoreAgrees(core) && Legal(core.records, m) && MessageBounded(m)
    ensures var r := ReplaceOrder(core, m);
            r.Some? && r.value.locate == core.locate && r.value.records == Apply(core.records, m) && CoreAgrees(r.value)
  {
    var o := core.records[m.original];
    ReplaceIsDeleteThenAdd(core, m, []);
    DeleteIsFullReduction(core, m.original);
    ReduceOrderAgrees(core, m.original, o.shares);
    var deleted := DeleteOrder(core, m.original).value;
    assert |deleted.records| < |core.records|;
    AddOrderAgrees(deleted, [], core.locate, Add(m.replacement, o.side, m.shares, [], m.price));
  }

  /** Every legal message leaves the records as the specification says and the book in step with them. */
  lemma SimulateAgrees(core: Core, target: seq<Byte>, locate: nat, m: Message)
    requires CoreAgrees(core) && Legal(core.records, m) && MessageBounded(m)
    requires m.Add? ==> m.stock == target
    ensures var r := Simulate(core, target, locate, m);
            r.Some? && r.value.locate == (if m.Add? then locate else core.locate)
            && r.value.records == Apply(core.records, m) && CoreAgrees(r.value)
  {
    match m
    case Add(_, _, _, _, _) => AddOrderAgrees(core, target, locate, m);
    case Reduce(ref, shares) => ReduceOrderAgrees(core, ref, shares);
    case Delete(ref) =>
      DeleteIsFullReduction(core, ref);
      ReduceOrderAgrees(core, ref, core.records[ref].shares);
    case Replace(_, _, _, _) => ReplaceOrderAgrees(core, m);
  }

  lemma ParsedIsBounded(t: Byte, body: seq<Byte>)
    requires IsOrderType(t) && |body| == BodySize(t)
    ensures MessageBounded(Parse(t, body))
  {
    assert Limit(4) == 0x1_0000_0000 by {
      assert Limit(3) == 0x100_0000 && Limit(2) == 0x1_0000 && Limit(1) == 0x100;
    }
  }

  // ----- over a whole feed -----

  /** What the handler holds after a well-formed feed. */
  ghost predicate FollowsFeed(core: Core, frames: seq<Frame>, locate: nat, initial: nat) {
    && core.records == RecordsAfter(frames, locate)
    && core.locate == (if Opened(frames, locate) then locate else initial)
    && CoreAgrees(core)
  }

  lemma FrameFollows(core: Core, before: seq<Frame>, f: Frame, target: seq<Byte>, locate: nat, initial: nat)
    requires FollowsFeed(core, before, locate, initial)
    requires WellFormedFrame(before, f, target, locate, initial)
    ensures var r := HandleFrame(core, target, f); r.Some? && FollowsFeed(r.value, before + [f], locate, initial)
  {
    assert (before + [f])[..|before|] == before;
    if Concerns(f, locate) {
      ParsedIsBounded(TypeOf(f), BodyOf(f));
      SimulateAgrees(core, target, LocateOf(f), MessageOf(f));
    }
  }

  /** The main result: after any well-formed feed the handler has not faulted, its records are those a
      sequential reader of its stock has, and every price level is the sum over them. */
  lemma {:induction false} HandlerFollowsFeed(frames: seq<Frame>, target: seq<Byte>, locate: nat, initial: nat)
    requires WellFormedFeed(frames, target, locate, initial)
    ensures forall i :: 0 <= i < |frames| ==> FrameOk(frames[i])
    ensures var r := Handled(frames, target, initial); r.Some? && FollowsFeed(r.value, frames, locate, initial)
    decreases |frames|
  {
    PrefixIsWellFormed(frames, target, locate, initial, 0);
    if frames != [] {
      var n := |frames| - 1;
      var before, last := frames[..n], frames[n];
      HandlerFollowsFeed(before, target, locate, initial);
      var core := Handled(before, target, initial).value;
      assert Handled(frames, target, initial) == HandleFrame(core, target, last);
      assert before + [last] == frames;
      FrameFollows(core, before, last, target, locate, initial);
    }
  }

  // ----- exactly when the handler fails its feed -----

  /** The messages on which the handler faults in a state `records`. */
  predicate FaultsOn(records: Records, target: seq<Byte>, m: Message) {
    match m
    case Add(ref, _, _, stock, _) => stock == target && ref !in records && |records| >= MAX_ORDERS
    case Reduce(ref, _) => ref !in records
    case Delete(ref) => ref !in records
    case Replace(original, _, _, _) => original !in records
  }

  /** While the book agrees with the records, a message faults if and only if it adds to a full table or refers
      to an order that is not live: the level of a live order is always there, looking a live order up never
      fails, and a replacement, which erases before it inserts, never finds the table full. */
  lemma FaultsExactly(core: Core, target: seq<Byte>, locate: nat, m: Message)
    requires CoreAgrees(core)
    ensures Simulate(core, target, locate, m).None? <==> FaultsOn(core.records, target, m)
  {
    var ref := match m case Replace(original, _, _, _) => original case _ => m.ref;
    if ref in core.records {
      LevelIsThere(core.LevelsOf(core.records[ref].side), core.records, ref);
      assert |core.records - {ref}| == |core.records| - 1;
    }
  }

  /** After every prefix the handler has not faulted and holds the sequential reader's records. */
  ghost predicate InStep(frames: seq<Frame>, target: seq<Byte>, locate: nat, initial: nat)
    requires forall i :: 0 <= i < |frames| ==> FrameOk(frames[i])
    decreases |frames|
  {
    var r := Handled(frames, target, initial);
    && r.Some? && r.value.records == RecordsAfter(frames, locate)
    && (frames != [] ==> InStep(frames[..|frames| - 1], target, locate, initial))
  }

  /** Before the stock is opened, a handler that does not happen to hold its code has missed nothing. */
  lemma {:induction false} NothingBeforeOpening(frames: seq<Frame>, target: seq<Byte>, locate: nat, initial: nat)
    requires WellFormedFeed(frames, target, locate, initial) && !Opened(frames, locate) && initial != locate
    ensures RecordsAfter(frames, locate) == map[]
    decreases |frames|
  {
    if frames != [] {
      NothingBeforeOpening(frames[..|frames| - 1], target, locate, initial);
    }
  }

  /** A lawful frame that cannot be noticed puts the handler out of step at once. */
  lemma UnnoticedFrameDiverges(core: Core, before: seq<Frame>, f: Frame, target: seq<Byte>, locate: nat, initial: nat)
    requires WellFormedFeed(before, target, locate, initial) && FollowsFeed(core, before, locate, initial)
    requires LawfulFrame(before, f, target, locate) && !Noticeable(before, f, locate, initial)
    ensures var r := HandleFrame(core, target, f); r.None? || r.value.records != RecordsAfter(before + [f], locate)
  {
    NothingBeforeOpening(before, target, locate, initial);
    assert (before + [f])[..|before|] == before;
    FaultsExactly(core, target, LocateOf(f), MessageOf(f));
    if LocateOf(f) == locate && TypeOf(f) != ADD {
      assert MessageOf(f).ref in RecordsAfter(before + [f], locate);
    }
  }

  lemma {:induction false} LawfulFrames(frames: seq<Frame>, target: seq<Byte>, locate: nat)
    requires LawfulFeed(frames, target, locate)
    ensures forall i :: 0 <= i < |frames| ==> FrameOk(frames[i])
    decreases |frames|
  {
    if frames != [] {
      var n := |frames| - 1;
      LawfulFrames(frames[..n], target, locate);
      forall i | 0 <= i < |frames| ensures FrameOk(frames[i]) {
        assert i < n ==> frames[..n][i] == frames[i];
      }
    }
  }

  /** Exactly when the handler serves its stock: over a lawful feed it stays in step with the sequential reader if
      and only if the feed is well formed, that is, every frame can be noticed. */
  lemma {:induction false} InStepExactly(frames: seq<Frame>, target: seq<Byte>, locate: nat, initial: nat)
    requires LawfulFeed(frames, target, locate)
    ensures forall i :: 0 <= i < |frames| ==> FrameOk(frames[i])
    ensures InStep(frames, target, locate, initial) <==> WellFormedFeed(frames, target, locate, initial)
    decreases |frames|
  {
    LawfulFrames(frames, target, locate);
    if frames != [] {
      var n := |frames| - 1;
      var before, last := frames[..n], frames[n];
      InStepExactly(before, target, locate, initial);
      if WellFormedFeed(before, target, locate, initial) {
        HandlerFollowsFeed(before, target, locate, initial);
        var core := Handled(before, target, initial).value;
        assert Handled(frames, target, initial) == HandleFrame(core, target, last);
        assert before + [last] == frames;
        LastFrameDecides(core, before, last, target, locate, initial);
      }
    }
  }

  lemma LastFrameDecides(core: Core, before: seq<Frame>, f: Frame, target: seq<Byte>, locate: nat, initial: nat)
    requires WellFormedFeed(before, target, locate, initial) && FollowsFeed(core, before, locate, initial)
    requires LawfulFrame(before, f, target, locate)
    ensures var r := HandleFrame(core, target, f);
            (r.Some? && r.value.records == RecordsAfter(before + [f], locate)) <==>
            Noticeable(before, f, locate, initial)
  {
    if Noticeable(before, f, locate, initial) {
      FrameFollows(core, before, f, target, locate, initial);
    } else {
      UnnoticedFrameDiverges(core, before, f, target, locate, initial);
    }
  }
}
