/** The market-data handler of one stock: it polls its queue for frames and keeps order records and a book. */
module MarketData {
  import opened Bits
  import opened BigEndian
  import opened Options
  import opened Framing
  import opened OrderBooks
  import opened Itch
  import HandlerCore
  import opened ProbeTable
  import opened OpenAddressing
  import opened SpmcRing

  /** A table of distinct keys is full exactly when it holds as many bindings as slots. */
  lemma SaturatedIffFull<V>(t: seq<Slot<V>>, m: map<nat, V>)
    requires UniqueKeys(t) && Represents(t, m)
    ensures Saturated(t) <==> |m| >= |t|
  {
    if Saturated(t) {
      SaturatedCount(t, m);
    } else {
      var i :| 0 <= i < |t| && !t[i].state.Occupied?;
      FreeSlotCount(t, m, i);
    }
  }

  datatype MessageStatus = Simulated | Skipped

  class MarketDataHandler {
    const target: seq<Byte>
    const queue: Consumer<Byte>
    const book: OrderBook
    const records: OpenAddressMap<Order>
    var cacheStockLocate: nat  // not initialised by the program: any 16-bit value

    ghost predicate Valid()
      reads this, book, records, records.table
    {
      records.Valid() && !records.rehashing && records.table.Length == MAX_ORDERS
    }

    /** The state that the specification functions speak of. */
    ghost function State(): HandlerCore.Core
      reads this, book, records
    {
      HandlerCore.Core(cacheStockLocate, records.contents, book.buy, book.sell)
    }

    constructor (target: seq<Byte>, queue: Consumer<Byte>, book: OrderBook, records: OpenAddressMap<Order>, locate: nat)
      requires records.Valid() && !records.rehashing && records.table.Length == MAX_ORDERS
      ensures Valid() && State() == HandlerCore.Core(locate, records.contents, book.buy, book.sell)
      ensures this.target == target && this.queue == queue && this.book == book && this.records == records
    {
      this.target, this.queue, this.book, this.records := target, queue, book, records;
      cacheStockLocate := locate;
    }

    /** `records[ref] = order`; fails when the table is saturated. */
    method StoreRecord(ref: nat, order: Order) returns (ok: bool)
      requires Valid()
      modifies records, records.table
      ensures Valid()
      ensures var r := HandlerCore.Stored(old(records.contents), ref, order);
              && (ok <==> r.Some?) && (ok ==> records.contents == r.value)
    {
      SaturatedIffFull(records.table[..], records.contents);
      ok := records.Put(ref, order);
    }

    /** `find` without a check of the handle: a missing order is a fault. */
    method FindRecord(ref: nat) returns (slot: Option<nat>)
      requires Valid()
      modifies records`tombstones
      ensures Valid()
      ensures slot.Some? <==> ref in records.contents
      ensures slot.Some? ==>
                Holds(records.table[..], slot.value, ref) && records.table[slot.value].value == records.contents[ref]
    {
      var found := records.Find(ref);
      if found.None? || found.value.None? {
        return None;
      }
      slot := found.value;
    }

    /** `erase` through a handle, without a rebuild: the value stays in its slot. */
    method EraseRecord(slot: nat)
      requires Valid() && slot < records.table.Length && records.table[slot].state.Occupied?
      modifies records, records.table
      ensures Valid() && records.contents == old(records.contents) - {old(records.table[slot].key)}
      ensures records.table[slot].value == old(records.table[slot].value)
    {
      records.EraseHandle(slot);
    }

    method AddOrder(locate: nat, m: Message) returns (ok: bool)
      requires Valid() && m.Add?
      modifies this`cacheStockLocate, records, records.table, book
      ensures Valid()
      ensures var r := HandlerCore.AddOrder(old(State()), target, locate, m);
              (ok <==> r.Some?) && (ok ==> State() == r.value)
    {
      if m.stock != target {
        return true;
      }
      cacheStockLocate := locate;
      ok := StoreRecord(m.ref, Order(m.side, m.price, m.shares));
      if ok {
        book.AddOrder(m.side, m.price, m.shares);
      }
    }

    /** Execution: the record, then the book, then the record goes if nothing is left. */
    method ExecuteOrder(ref: nat, executed: nat) returns (ok: bool)
      requires Valid()
      modifies records, records.table, book
      ensures Valid()
      ensures var r := HandlerCore.ReduceOrder(old(State()), ref, executed);
              (ok <==> r.Some?) && (ok ==> State() == r.value)
    {
      var slot := FindRecord(ref);
      if slot.None? {
        return false;
      }
      var order := records.table[slot.value].value;
      var left := (order.shares - executed) % TWO_TO_64;
      records.Store(slot.value, order.(shares := left));
      if order.price !in book.LevelsOf(order.side) {
        return false;
      }
      book.ExecuteOrder(order.side, order.price, executed);
      if left == 0 {
        EraseRecord(slot.value);
        assert records.contents == old(records.contents) - {ref};
      }
      return true;
    }

    /** Cancellation: the record goes first, and the book is told afterwards from the slot's leftover value. */
    method CancelOrder(ref: nat, cancelled: nat) returns (ok: bool)
      requires Valid()
      modifies records, records.table, book
      ensures Valid()
      ensures var r := HandlerCore.ReduceOrder(old(State()), ref, cancelled);
              (ok <==> r.Some?) && (ok ==> State() == r.value)
    {
      var slot := FindRecord(ref);
      if slot.None? {
        return false;
      }
      var order := records.table[slot.value].value;
      var left := (order.shares - cancelled) % TWO_TO_64;
      records.Store(slot.value, order.(shares := left));
      if left == 0 {
        EraseRecord(slot.value);
        assert records.contents == old(records.contents) - {ref};
      }
      var leftover := records.table[slot.value].value;
      if leftover.price !in book.LevelsOf(leftover.side) {
        return false;
      }
      book.CancelOrder(leftover.side, leftover.price, cancelled);
      return true;
    }

    method DeleteOrder(ref: nat) returns (ok: bool)
      requires Valid()
      modifies records, records.table, book
      ensures Valid()
      ensures var r := HandlerCore.DeleteOrder(old(State()), ref);
              (ok <==> r.Some?) && (ok ==> State() == r.value)
    {
      var slot := FindRecord(ref);
      if slot.None? {
        return false;
      }
      var order := records.table[slot.value].value;
      EraseRecord(slot.value);
      if order.price !in book.LevelsOf(order.side) {
        return false;
      }
      book.CancelOrder(order.side, order.price, order.shares);
      return true;
    }

    method ReplaceOrder(m: Message) returns (ok: bool)
      requires Valid() && m.Replace?
      modifies records, records.table, book
      ensures Valid()
      ensures var r := HandlerCore.ReplaceOrder(old(State()), m);
              (ok <==> r.Some?) && (ok ==> State() == r.value)
    {
      var slot := FindRecord(m.original);
      if slot.None? {
        return false;
      }
      var order := records.table[slot.value].value;
      EraseRecord(slot.value);
      ok := StoreRecord(m.replacement, Order(order.side, m.price, m.shares));
      if !ok || order.price !in book.LevelsOf(order.side) {
        return false;
      }
      book.ReplaceOrder(order.side, order.price, order.shares, m.price, m.shares);
      return true;
    }

    // ----- polling -----

    /** The handler and its consumer of the queue are both in order. */
    ghost predicate Ready()
      reads this, book, records, records.table, queue, queue.ring, queue.ring.buffer, queue.ring.consumers, queue.block
    {
      Valid() && queue.Valid()
    }

    /** The size that opens a frame, or why it cannot be read. */
    method TryReadSize() returns (failure: ConsumeFailure, size: nat)
      requires Ready()
      modifies queue`cachedWriteIdx, queue.block`readIdx
      ensures Ready()
      ensures failure.NoFailure? <==> SIZE_BYTES <= |old(queue.Pending())|
      ensures failure.NoFailure? ==>
                size == Value(old(queue.Pending())[..SIZE_BYTES]) &&
                queue.Pending() == old(queue.Pending())[SIZE_BYTES..]
      ensures queue.block.readIdx == old(queue.block.readIdx) + if failure.NoFailure? then SIZE_BYTES else 0
      ensures !failure.NoFailure? ==> failure == if queue.ring.isClosed then BufferClosed else BufferInsufficient
    {
      ghost var waiting := queue.Pending();
      var buffer := new Byte[SIZE_BYTES](_ => 0);
      failure := queue.TryPopMany(SIZE_BYTES, buffer);
      if failure.NoFailure? {
        assert buffer[..] == waiting[..SIZE_BYTES];
      }
      size := Value(buffer[..]);
    }

    /** Pops `count` bytes; a failure here trips the program's assertion. */
    method ReadFromQueueUnsafe(count: nat) returns (ok: bool, bytes: seq<Byte>)
      requires Ready()
      modifies queue`cachedWriteIdx, queue.block`readIdx
      ensures Ready()
      ensures ok <==> count <= |old(queue.Pending())|
      ensures ok ==> bytes == old(queue.Pending())[..count]
      ensures queue.block.readIdx == old(queue.block.readIdx) + if ok then count else 0
    {
      var buffer := new Byte[count](_ => 0);
      var failure := queue.TryPopMany(count, buffer);
      ok := failure.NoFailure?;
      bytes := buffer[..];
    }

    /** `simulate_message`: reads the body and applies the message; a type that the handler does not know is skipped,
        and its body left in the queue. */
    method SimulateMessage(t: Byte, locate: nat) returns (ok: bool, status: MessageStatus)
      requires Ready()
      modifies this`cacheStockLocate, records, records.table, book, queue`cachedWriteIdx, queue.block`readIdx
      ensures Ready()
      ensures status == if IsOrderType(t) then Simulated else Skipped
      ensures !IsOrderType(t) ==> ok && State() == old(State()) && queue.block.readIdx == old(queue.block.readIdx)
      ensures IsOrderType(t) && BodySize(t) > |old(queue.Pending())| ==> !ok
      ensures IsOrderType(t) && BodySize(t) <= |old(queue.Pending())| ==>
                var body := old(queue.Pending())[..BodySize(t)];
                var r := HandlerCore.Simulate(old(State()), target, locate, Parse(t, body));
                && (ok <==> r.Some?) && (ok ==> State() == r.value)
                && queue.block.readIdx == old(queue.block.readIdx) + BodySize(t)
    {
      if !IsOrderType(t) {
        return true, Skipped;
      }
      status := Simulated;
      var body;
      ok, body := ReadFromQueueUnsafe(BodySize(t));
      if !ok {
        return;
      }
      ok := Apply(t, locate, Parse(t, body));
    }

    /** The branches of `simulate_message` for the types that the handler knows. */
    method Apply(t: Byte, locate: nat, m: Message) returns (ok: bool)
      requires Valid()
      modifies this`cacheStockLocate, records, records.table, book
      ensures Valid()
      ensures var r := HandlerCore.Simulate(old(State()), target, locate, m);
              (ok <==> r.Some?) && (ok ==> State() == r.value)
    {
      match m
      case Add(_, _, _, _, _) => ok := AddOrder(locate, m);
      case Reduce(ref, shares) =>
        if t == CANCEL {
          ok := CancelOrder(ref, shares);
        } else {
          ok := ExecuteOrder(ref, shares);
        }
      case Delete(ref) => ok := DeleteOrder(ref);
      case Replace(_, _, _, _) => ok := ReplaceOrder(m);
    }

    /** The part of a poll after the size: the header decides between reading and skipping the body. */
    method PollMessage(size: nat) returns (ok: bool)
      requires Ready()
      modifies this`cacheStockLocate, records, records.table, book, queue`cachedWriteIdx, queue.block`readIdx
      ensures Ready()
      ensures var (after, taken) := HandlerCore.AfterSize(old(State()), target, size, old(queue.Pending()));
              (ok <==> after.Some?)
              && (ok ==> State() == after.value && queue.block.readIdx == old(queue.block.readIdx) + taken)
    {
      ghost var waiting := queue.Pending();
      var packetBodySize := (size - HEADER_BYTES) % TWO_TO_64;
      var header;
      ok, header := ReadFromQueueUnsafe(HEADER_BYTES);
      if !ok {
        return;
      }
      HeaderOf(waiting, header);
      var messageType, locate := header[0], Value(header[1..3]);
      if messageType != ADD && locate != cacheStockLocate {
        var skipped := queue.TrySkipMany(packetBodySize);
        return;
      }
      var status;
      ok, status := SimulateMessage(messageType, locate);
      if status.Skipped? {
        var skipped := queue.TrySkipMany(packetBodySize);
      }
    }

    /** One poll, on whatever bytes are in the queue: without two of them it reports whether to go on and changes
        nothing; otherwise it does what `PollOf` says. `ok` is false if that is a fault. */
    method Poll() returns (again: bool, ok: bool)
      requires Ready()
      modifies this`cacheStockLocate, records, records.table, book, queue`cachedWriteIdx, queue.block`readIdx
      ensures Ready()
      ensures var r := HandlerCore.PollOf(old(State()), target, old(queue.Pending()), queue.ring.isClosed);
              && (ok <==> r.core.Some?) && again == r.again
              && (ok ==> State() == r.core.value && queue.block.readIdx == old(queue.block.readIdx) + r.taken)
    {
      var failure, size := TryReadSize();
      if !failure.NoFailure? {
        return failure != BufferClosed, true;
      }
      again := true;
      ok := PollMessage(size);
    }
  }

  lemma HeaderOf(waiting: seq<Byte>, header: seq<Byte>)
    requires |waiting| >= HEADER_BYTES && header == waiting[..HEADER_BYTES]
    ensures header[0] == waiting[0] && header[1..3] == waiting[1..3]
  {
  }

  /** A handler at the start of frame `k` of a stream of which `p` frames are published: with all of them read a poll
      changes nothing, and otherwise it takes exactly the next frame, on every branch, and does with it what
      `HandleFrame` says. */
  lemma AlignedPoll(core: HandlerCore.Core, target: seq<Byte>, frames: seq<Frame>, p: nat, k: nat, closed: bool)
    requires forall i :: 0 <= i < |frames| ==> FrameOk(frames[i])
    requires k <= p <= |frames|
    ensures Offset(frames, k) <= |Flatten(frames[..p])| && (k < p ==> Offset(frames, k) <= Offset(frames, k + 1))
    ensures var r := HandlerCore.PollOf(core, target, Flatten(frames[..p])[Offset(frames, k)..], closed);
            if k == p then r == HandlerCore.Polled(!closed, Some(core), 0)
            else r == HandlerCore.Polled(true, HandlerCore.HandleFrame(core, target, frames[k]),
                                         Offset(frames, k + 1) - Offset(frames, k))
  {
    WaitingFrame(frames, p, k);
    if k < p {
      var stream, start, f := Flatten(frames[..p]), Offset(frames, k), frames[k];
      assert stream[start..] == f + stream[start + |f|..];
      HandlerCore.PollTakesFrame(core, target, f, stream[start + |f|..], closed);
    }
  }

  /** With more published than read, the whole next frame is there. */
  lemma WaitingFrame(frames: seq<Frame>, p: nat, k: nat)
    requires forall i :: 0 <= i < |frames| ==> FrameOk(frames[i])
    requires k <= p <= |frames|
    ensures var stream, start := Flatten(frames[..p]), Offset(frames, k);
            && start <= |stream|
            && (k == p ==> start == |stream|)
            && (k < p ==> Offset(frames, k + 1) == start + |frames[k]| <= |stream|
                          && stream[start..start + |frames[k]|] == frames[k])
  {
    OffsetMonotone(frames, k, p);
    if k < p {
      OffsetStep(frames, k);
      FrameInStream(frames, p, k, 0, |frames[k]|);
    }
  }
}
