/** Nasdaq TotalView-ITCH 5.0 order messages (sections 1.3 and 1.4), the feeds they form, and the records a
    reader of one stock must end up with. */
module Itch {
  import opened BigEndian
  import opened Framing
  import opened OrderBooks

  type Frame = seq<Byte>

  const ADD: Byte := 65                  // 'A'
  const ADD_MPID: Byte := 70             // 'F'
  const EXECUTED: Byte := 69             // 'E'
  const EXECUTED_WITH_PRICE: Byte := 67  // 'C'
  const CANCEL: Byte := 88               // 'X'
  const DELETE: Byte := 68               // 'D'
  const REPLACE: Byte := 85              // 'U'
  const BUY: Byte := 66                  // 'B'

  const HEADER_BYTES: nat := 11
  const MAX_ORDERS: nat := 0x1_0000

  predicate IsOrderType(t: Byte) {
    t in {ADD, ADD_MPID, EXECUTED, EXECUTED_WITH_PRICE, CANCEL, DELETE, REPLACE}
  }

  /** Wire bytes of a message after its header. */
  function BodySize(t: Byte): nat
    requires IsOrderType(t)
  {
    if t == ADD || t == EXECUTED_WITH_PRICE then 25
    else if t == ADD_MPID then 29
    else if t == EXECUTED then 20
    else if t == CANCEL then 12
    else if t == DELETE then 8
    else 24
  }

  datatype Message =
    | Add(ref: nat, side: Side, shares: nat, stock: seq<Byte>, price: nat)
    | Reduce(ref: nat, shares: nat)
    | Delete(ref: nat)
    | Replace(original: nat, replacement: nat, shares: nat, price: nat)

  /** The fields of a message body, big-endian, at the offsets of the specification. */
  function Parse(t: Byte, body: seq<Byte>): Message
    requires IsOrderType(t) && |body| == BodySize(t)
  {
    var ref := Value(body[0..8]);
    if t == ADD || t == ADD_MPID then
      Add(ref, if body[8] == BUY then Buy else Sell, Value(body[9..13]), body[13..21], Value(body[21..25]))
    else if t == EXECUTED || t == EXECUTED_WITH_PRICE || t == CANCEL then
      Reduce(ref, Value(body[8..12]))
    else if t == DELETE then
      Delete(ref)
    else
      Replace(ref, Value(body[8..16]), Value(body[16..20]), Value(body[20..24]))
  }

  // ----- frames -----

  /** A frame is a two-byte body length, an eleven-byte header and the rest of the body. */
  ghost predicate FrameOk(f: Frame) {
    && Prefixed(f) && |f| >= SIZE_BYTES + HEADER_BYTES
    && (IsOrderType(f[2]) ==> |f| == SIZE_BYTES + HEADER_BYTES + BodySize(f[2]))
  }

  function TypeOf(f: Frame): Byte
    requires |f| >= SIZE_BYTES + HEADER_BYTES
  {
    f[2]
  }

  function LocateOf(f: Frame): nat
    requires |f| >= SIZE_BYTES + HEADER_BYTES
  {
    Value(f[3..5])
  }

  function BodyOf(f: Frame): seq<Byte>
    requires |f| >= SIZE_BYTES + HEADER_BYTES
  {
    f[SIZE_BYTES + HEADER_BYTES..]
  }

  function MessageOf(f: Frame): Message
    requires FrameOk(f) && IsOrderType(TypeOf(f))
  {
    Parse(TypeOf(f), BodyOf(f))
  }

  // ----- the records of one stock -----

  /** Whether the specification allows `m` after the messages that led to `records`. */
  predicate Legal(records: Records, m: Message) {
    match m
    case Add(ref, _, shares, _, _) => ref !in records && shares > 0 && |records| < MAX_ORDERS
    case Reduce(ref, shares) => ref in records && shares <= records[ref].shares
    case Delete(ref) => ref in records
    case Replace(original, replacement, shares, _) =>
      original in records && (replacement == original || replacement !in records) && shares > 0
  }

  function Apply(records: Records, m: Message): Records
    requires Legal(records, m)
  {
    match m
    case Add(ref, side, shares, _, price) => records[ref := Order(side, price, shares)]
    case Reduce(ref, shares) => Reduced(records, ref, shares)
    case Delete(ref) => records - {ref}
    case Replace(original, replacement, shares, price) =>
      (records - {original})[replacement := Order(records[original].side, price, shares)]
  }

  /** Frames that carry an order message of the stock with this locate code. */
  ghost predicate Concerns(f: Frame, locate: nat) {
    FrameOk(f) && IsOrderType(TypeOf(f)) && LocateOf(f) == locate
  }

  /** The sequential reading of a feed, restricted to one stock. Illegal messages are passed over. */
  ghost function RecordsAfter(frames: seq<Frame>, locate: nat): Records
    decreases |frames|
  {
    if frames == [] then map[]
    else
      var before, f := RecordsAfter(frames[..|frames| - 1], locate), frames[|frames| - 1];
      if Concerns(f, locate) && Legal(before, MessageOf(f)) then Apply(before, MessageOf(f)) else before
  }

  /** Whether the feed has added an order of the stock with a plain add message. */
  ghost predicate Opened(frames: seq<Frame>, locate: nat)
    decreases |frames|
  {
    frames != [] &&
    var f := frames[|frames| - 1];
    (Opened(frames[..|frames| - 1], locate) || (Concerns(f, locate) && TypeOf(f) == ADD))
  }

  /** What the specification demands of a feed, for the stock `target` that the feed knows under `locate`. */
  ghost predicate LawfulFrame(before: seq<Frame>, f: Frame, target: seq<Byte>, locate: nat) {
    && FrameOk(f)
    && (IsOrderType(TypeOf(f)) ==>
          && (MessageOf(f).Add? ==> (MessageOf(f).stock == target <==> LocateOf(f) == locate))
          && (LocateOf(f) == locate ==> Legal(RecordsAfter(before, locate), MessageOf(f))))
  }

  /** What the handler's way of learning the locate code demands on top; `initial` is what its uninitialised field
      happens to hold. The stock opens with a plain add message, unless the field holds the right code already;
      and until then no message changes an order under a wrong code that the field holds. */
  ghost predicate Noticeable(before: seq<Frame>, f: Frame, locate: nat, initial: nat)
    requires FrameOk(f)
  {
    IsOrderType(TypeOf(f)) && !Opened(before, locate) ==>
      && (LocateOf(f) == locate ==> TypeOf(f) == ADD || initial == locate)
      && (LocateOf(f) == initial ==> MessageOf(f).Add? || initial == locate)
  }

  ghost predicate WellFormedFrame(before: seq<Frame>, f: Frame, target: seq<Byte>, locate: nat, initial: nat) {
    LawfulFrame(before, f, target, locate) && Noticeable(before, f, locate, initial)
  }

  ghost predicate LawfulFeed(frames: seq<Frame>, target: seq<Byte>, locate: nat)
    decreases |frames|
  {
    frames == [] ||
    (var before := frames[..|frames| - 1];
     LawfulFeed(before, target, locate) && LawfulFrame(before, frames[|frames| - 1], target, locate))
  }

  ghost predicate WellFormedFeed(frames: seq<Frame>, target: seq<Byte>, locate: nat, initial: nat)
    decreases |frames|
  {
    frames == [] ||
    (var before := frames[..|frames| - 1];
     WellFormedFeed(before, target, locate, initial) &&
     WellFormedFrame(before, frames[|frames| - 1], target, locate, initial))
  }

  lemma {:induction false} PrefixIsWellFormed(frames: seq<Frame>, target: seq<Byte>, locate: nat, initial: nat, k: nat)
    requires WellFormedFeed(frames, target, locate, initial) && k <= |frames|
    ensures WellFormedFeed(frames[..k], target, locate, initial)
    ensures forall i :: 0 <= i < |frames| ==> FrameOk(frames[i])
    decreases |frames|
  {
    if frames != [] {
      var n := |frames| - 1;
      PrefixIsWellFormed(frames[..n], target, locate, initial, if k <= n then k else n);
      if k <= n {
        assert frames[..n][..k] == frames[..k];
      } else {
        assert frames[..k] == frames;
      }
      forall i | 0 <= i < |frames| ensures FrameOk(frames[i]) {
        assert i < n ==> frames[..n][i] == frames[i];
      }
    }
  }
}
