/** The broadcast ring over a fixed buffer, with whole operations atomic: what each answer means, and that the
    buffer agrees with the unbounded history of what was published. */
module SpmcRing {
  import opened Bits
  import opened Options
  import opened SpmcProtocol

  datatype ConsumeFailure = NoFailure | BufferInsufficient | BufferClosed

  class ControlBlock {
    var readIdx: nat

    constructor ()
      ensures readIdx == 0
    {
      readIdx := 0;
    }
  }

  /** Slots `lo` to `hi` of the stream are in the buffer. */
  ghost predicate Window<T>(buffer: seq<T>, history: seq<T>, lo: nat, hi: nat) {
    |buffer| > 0 && hi <= |history| && forall j: nat :: lo <= j < hi ==> Get(buffer, j) == history[j]
  }

  /** The first index whose slot has not been written over once `total` items have been written. */
  function Oldest(total: nat, cap: nat): nat {
    if total > cap then total - cap else 0
  }

  /** The largest power of two that a 64-bit capacity can be. */
  const MAX_CAPACITY: nat := 0x8000_0000_0000_0000

  class RingBuffer<T(0)> {
    const buffer: array<T>
    const maxConsumers: nat
    var writeIdx: nat
    var isClosed: bool
    var consumers: seq<ControlBlock>
    ghost var history: seq<T>

    /** The buffer holds the latest items of the history, and no consumer is ahead of it. */
    ghost predicate Sound()
      reads this, buffer, consumers
    {
      && 0 < buffer.Length <= MAX_CAPACITY && IsPowerOfTwo(buffer.Length)
      && |history| == writeIdx && Window(buffer[..], history, Oldest(writeIdx, buffer.Length), writeIdx)
      && |consumers| <= maxConsumers
      && (forall i, j :: 0 <= i < j < |consumers| ==> consumers[i] != consumers[j])
      && forall c <- consumers :: c.readIdx <= writeIdx
    }

    /** And no consumer is so far behind that its next slot has been written over. */
    ghost predicate Valid()
      reads this, buffer, consumers
    {
      Sound() && forall c <- consumers :: writeIdx <= c.readIdx + buffer.Length
    }

    constructor (capacity: nat, maxConsumers: nat)
      requires 0 < capacity <= MAX_CAPACITY && IsPowerOfTwo(capacity)
      ensures Valid() && fresh(buffer) && buffer.Length == capacity && this.maxConsumers == maxConsumers
      ensures history == [] && writeIdx == 0 && consumers == [] && !isClosed
    {
      buffer := new T[capacity];
      this.maxConsumers := maxConsumers;
      writeIdx, isClosed, consumers, history := 0, false, [], [];
    }

    /** Appends a control block at index 0, or fails (`None`) when there is no place for one. Whether the ring can
        serve a consumer that registers after the first publications depends on the producer, too; see
        `RegisterLate`. */
    method RegisterNewConsumer() returns (block: Option<ControlBlock>)
      requires Sound()
      modifies this`consumers
      ensures Sound()
      ensures block.None? <==> |old(consumers)| == maxConsumers
      ensures block.Some? ==>
                fresh(block.value) && consumers == old(consumers) + [block.value] && block.value.readIdx == 0
      ensures block.None? ==> consumers == old(consumers)
      ensures Valid() <==> old(Valid()) && (block.None? || writeIdx <= buffer.Length)
    {
      if |consumers| == maxConsumers {
        return None;
      }
      var added := new ControlBlock();
      assert forall c <- consumers :: c in consumers + [added];
      consumers := consumers + [added];
      assert added in consumers;
      block := Some(added);
    }
  }

  class Producer<T(0)> {
    const ring: RingBuffer<T>
    var cachedReadIdx: nat

    ghost predicate Sound()
      reads this, ring, ring.buffer, ring.consumers
    {
      ring.Sound() && |ring.consumers| > 0 && cachedReadIdx <= ring.writeIdx
    }

    /** The stale minimum is one: no consumer is behind it, and the buffer reaches from it to the write index. */
    ghost predicate Valid()
      reads this, ring, ring.buffer, ring.consumers
    {
      && Sound() && ring.Valid() && ring.writeIdx <= cachedReadIdx + ring.buffer.Length
      && forall c <- ring.consumers :: cachedReadIdx <= c.readIdx
    }

    constructor (ring: RingBuffer<T>)
      requires ring.Valid() && |ring.consumers| > 0 && ring.writeIdx <= ring.buffer.Length
      ensures Valid() && this.ring == ring && cachedReadIdx == 0
    {
      this.ring, cachedReadIdx := ring, 0;
    }

    /** The smallest read index. `None` stands for the numeric maximum the program starts from. */
    method GetFirstReadIdx() returns (first: nat)
      requires Sound()
      ensures exists c <- ring.consumers :: c.readIdx == first
      ensures forall c <- ring.consumers :: first <= c.readIdx
    {
      var low: Option<nat> := None;
      for i := 0 to |ring.consumers|
        invariant i > 0 <==> low.Some?
        invariant low.Some? ==> exists c <- ring.consumers :: c.readIdx == low.value
        invariant forall k :: 0 <= k < i ==> low.Some? && low.value <= ring.consumers[k].readIdx
      {
        var readIdx := ring.consumers[i].readIdx;
        assert ring.consumers[i] in ring.consumers;
        low := Some(Min(low, readIdx));
      }
      first := low.value;
    }

    /** Whether index `idx` is out of reach of a buffer that begins at `first`. A difference below zero wraps around to
        a number beyond any capacity. */
    predicate OutOfReach(idx: int, first: nat) {
      idx < first || idx - first >= ring.buffer.Length
    }

    /** Whether index `idx` may be written. For a valid producer this is the answer computed from the true read
        indices, although most calls look at the stale minimum only. The index in front of the write index, which
        stands for an empty push, is the exception: it is refused exactly if the stale minimum has caught up. */
    method IsValidWriteIdx(idx: int) returns (ok: bool)
      requires Sound() && ring.writeIdx - 1 <= idx < ring.writeIdx + ring.buffer.Length
      modifies this`cachedReadIdx
      ensures Sound()
      ensures ok ==> cachedReadIdx <= idx < cachedReadIdx + ring.buffer.Length
      ensures !ok ==> exists c <- ring.consumers :: c.readIdx == cachedReadIdx
      ensures old(!OutOfReach(idx, cachedReadIdx)) ==> ok && cachedReadIdx == old(cachedReadIdx)
      ensures old(Valid()) ==> Valid()
      ensures old(Valid()) && idx >= ring.writeIdx ==>
                (ok <==> forall c <- ring.consumers :: idx - c.readIdx < ring.buffer.Length)
      ensures old(Valid()) && idx == ring.writeIdx - 1 ==> (ok <==> old(cachedReadIdx) < ring.writeIdx)
    {
      assert ring.consumers[0] in ring.consumers;
      if OutOfReach(idx, cachedReadIdx) {
        cachedReadIdx := GetFirstReadIdx();
        return !OutOfReach(idx, cachedReadIdx);
      }
      return true;
    }

    /** From a valid producer success, exactly if the items fit behind the slowest consumer, publishes them all;
        anything else publishes nothing. An empty push never publishes anything, but it reports a full buffer exactly
        if the producer knows that everything has been read. In any case room behind the stale minimum is enough. */
    method TryPushMany(items: seq<T>) returns (r: Response)
      requires Sound()
      modifies this`cachedReadIdx, ring`writeIdx, ring`history, ring.buffer
      ensures Sound()
      ensures r.PayloadTooLarge? <==> |items| > ring.buffer.Length
      ensures r.BufferFull? ==> exists c <- ring.consumers :: c.readIdx == cachedReadIdx
      ensures 0 < |items| <= old(cachedReadIdx) + ring.buffer.Length - old(ring.writeIdx) ==> r.Success?
      ensures old(Valid()) ==> Valid()
      ensures old(Valid()) && items != [] ==>
                (r.Success? <==>
                   |items| <= ring.buffer.Length &&
                   forall c <- ring.consumers :: old(ring.writeIdx) + |items| - c.readIdx <= ring.buffer.Length)
      ensures old(Valid()) && items == [] ==> (r.Success? <==> old(cachedReadIdx) < ring.writeIdx)
      ensures 0 < |items| <= old(cachedReadIdx) + ring.buffer.Length - old(ring.writeIdx) ==>
                cachedReadIdx == old(cachedReadIdx)
      ensures ring.history == if r.Success? then old(ring.history) + items else old(ring.history)
      ensures !r.Success? ==> ring.buffer[..] == old(ring.buffer[..])
    {
      if |items| > ring.buffer.Length {
        return PayloadTooLarge;
      }
      var writeIdx := ring.writeIdx;
      var finalWriteIdx := |items| - 1 + writeIdx;
      var ok := IsValidWriteIdx(finalWriteIdx);
      if !ok {
        return BufferFull;
      }
      WriteSlots(items, writeIdx);
      PublishedWindow(items);
      ring.history := ring.history + items;
      ring.writeIdx := finalWriteIdx + 1;
      return Success;
    }

    method WriteSlots(items: seq<T>, writeIdx: nat)
      requires ring.Sound() && writeIdx == ring.writeIdx && |items| <= ring.buffer.Length
      modifies ring.buffer
      ensures Window(ring.buffer[..], ring.history, Oldest(writeIdx + |items|, ring.buffer.Length), writeIdx)
      ensures forall u: nat :: u < |items| ==> Get(ring.buffer[..], writeIdx + u) == items[u]
    {
      ghost var cap := ring.buffer.Length;
      for i := 0 to |items|
        invariant Window(ring.buffer[..], ring.history, Oldest(writeIdx + i, cap), writeIdx)
        invariant forall u: nat :: u < i ==> Get(ring.buffer[..], writeIdx + u) == items[u]
      {
        ghost var before := ring.buffer[..];
        var slot := Mask(writeIdx + i, ring.buffer.Length);
        ring.buffer[slot] := items[i];
        assert ring.buffer[..] == Set(before, writeIdx + i, items[i]);
        WindowSurvives(before, ring.history, Oldest(writeIdx + i + 1, cap), writeIdx, writeIdx + i, items[i]);
        forall u: nat | u < i + 1
          ensures Get(ring.buffer[..], writeIdx + u) == items[u]
        {
          if u < i {
            SetKeepsOthers(before, writeIdx + i, items[i], writeIdx + u);
          }
        }
      }
    }

    lemma PublishedWindow(items: seq<T>)
      requires |ring.history| == ring.writeIdx && |items| <= ring.buffer.Length && ring.buffer.Length > 0
      requires var total := ring.writeIdx + |items|;
               Window(ring.buffer[..], ring.history, Oldest(total, ring.buffer.Length), ring.writeIdx)
      requires forall u: nat :: u < |items| ==> Get(ring.buffer[..], ring.writeIdx + u) == items[u]
      ensures var total := ring.writeIdx + |items|;
              Window(ring.buffer[..], ring.history + items, Oldest(total, ring.buffer.Length), total)
    {
      forall j: nat | Oldest(ring.writeIdx + |items|, ring.buffer.Length) <= j < ring.writeIdx + |items|
        ensures Get(ring.buffer[..], j) == (ring.history + items)[j]
      {
        if j >= ring.writeIdx {
          assert Get(ring.buffer[..], ring.writeIdx + (j - ring.writeIdx)) == items[j - ring.writeIdx];
        }
      }
    }

    method TryPush(item: T) returns (r: Response)
      requires Valid()
      modifies this`cachedReadIdx, ring`writeIdx, ring`history, ring.buffer
      ensures Valid() && !r.PayloadTooLarge?
      ensures r.Success? <==>
                forall c <- ring.consumers :: old(ring.writeIdx) + 1 - c.readIdx <= ring.buffer.Length
      ensures ring.history == if r.Success? then old(ring.history) + [item] else old(ring.history)
      ensures !r.Success? ==> ring.buffer[..] == old(ring.buffer[..])
    {
      var writeIdx := ring.writeIdx;
      var ok := IsValidWriteIdx(writeIdx);
      if !ok {
        return BufferFull;
      }
      WriteSlots([item], writeIdx);
      PublishedWindow([item]);
      ring.history := ring.history + [item];
      ring.writeIdx := writeIdx + 1;
      return Success;
    }

    method Close()
      requires Valid()
      modifies ring`isClosed
      ensures Valid() && ring.isClosed
    {
      ring.isClosed := true;
    }
  }

  lemma WindowSurvives<T>(buffer: seq<T>, history: seq<T>, lo: nat, hi: nat, at: nat, x: T)
    requires Window(buffer, history, lo, hi) && hi <= at < lo + |buffer|
    ensures Window(Set(buffer, at, x), history, lo, hi)
  {
    forall j: nat | lo <= j < hi
      ensures Get(Set(buffer, at, x), j) == history[j]
    {
      SetKeepsOthers(buffer, at, x, j);
    }
  }

  class Consumer<T(0)> {
    const ring: RingBuffer<T>
    const block: ControlBlock
    var cachedWriteIdx: nat

    ghost predicate Sound()
      reads this, ring, ring.buffer, ring.consumers, block
    {
      ring.Sound() && block in ring.consumers && block.readIdx <= cachedWriteIdx <= ring.writeIdx
    }

    ghost predicate Valid()
      reads this, ring, ring.buffer, ring.consumers, block
    {
      Sound() && ring.Valid()
    }

    /** The program gives up when the ring has no place for another consumer. */
    constructor (ring: RingBuffer<T>)
      requires ring.Sound() && |ring.consumers| < ring.maxConsumers
      modifies ring`consumers
      ensures this.ring == ring && fresh(block) && cachedWriteIdx == 0
      ensures ring.consumers == old(ring.consumers) + [block] && block.readIdx == 0
      ensures Sound() && (Valid() <==> old(ring.Valid()) && ring.writeIdx <= ring.buffer.Length)
    {
      var registered := ring.RegisterNewConsumer();
      this.ring, block, cachedWriteIdx := ring, registered.value, 0;
    }

    /** What is published and not yet read. */
    ghost function Pending(): (s: seq<T>)
      requires Sound()
      reads this, ring, ring.buffer, ring.consumers, block
    {
      ring.history[block.readIdx..]
    }

    method CheckPopStatus(readIdx: nat, count: nat) returns (r: ConsumeFailure)
      requires Sound() && readIdx == block.readIdx
      modifies this`cachedWriteIdx
      ensures Sound() && (old(Valid()) ==> Valid())
      ensures r.NoFailure? <==> |Pending()| >= count
      ensures r.NoFailure? ==> count <= cachedWriteIdx - readIdx
      ensures !r.NoFailure? ==> r == if ring.isClosed then BufferClosed else BufferInsufficient
    {
      if cachedWriteIdx - readIdx < count {
        cachedWriteIdx := ring.writeIdx;
        if cachedWriteIdx - readIdx < count {
          return if ring.isClosed then BufferClosed else BufferInsufficient;
        }
      }
      return NoFailure;
    }

    /** Succeeds exactly if `count` items are pending, and then takes the first `count` of them. */
    method TryPopMany(count: nat, readPtr: array<T>) returns (r: ConsumeFailure)
      requires Valid() && count <= readPtr.Length && readPtr != ring.buffer
      modifies this`cachedWriteIdx, block`readIdx, readPtr
      ensures Valid()
      ensures r.NoFailure? <==> count <= old(|Pending()|)
      ensures !r.NoFailure? ==> r == if ring.isClosed then BufferClosed else BufferInsufficient
      ensures block.readIdx == old(block.readIdx) + if r.NoFailure? then count else 0
      ensures r.NoFailure? ==> readPtr[..] == old(Pending())[..count] + old(readPtr[..])[count..]
      ensures !r.NoFailure? ==> readPtr[..] == old(readPtr[..])
    {
      var readIdx := block.readIdx;
      r := CheckPopStatus(readIdx, count);
      if !r.NoFailure? {
        return;
      }
      CopyOut(readIdx, count, readPtr);
      Advance(count);
    }

    /** The loop over the slots. */
    method CopyOut(readIdx: nat, count: nat, readPtr: array<T>)
      requires Valid() && readIdx == block.readIdx && readIdx + count <= ring.writeIdx
      requires count <= readPtr.Length && readPtr != ring.buffer
      modifies readPtr
      ensures readPtr[..] == Pending()[..count] + old(readPtr[..])[count..]
    {
      ghost var items, before, slots := Pending(), readPtr[..], ring.buffer[..];
      for i := 0 to count
        invariant ring.buffer[..] == slots
        invariant forall k :: 0 <= k < i ==> readPtr[k] == items[k]
        invariant forall k :: i <= k < readPtr.Length ==> readPtr[k] == before[k]
      {
        var slot := Mask(readIdx + i, ring.buffer.Length);
        assert slots[slot] == Get(slots, readIdx + i) == items[i];
        readPtr[i] := ring.buffer[slot];
      }
      assert readPtr[..] == items[..count] + before[count..];
    }

    /** Takes what its next slot holds, which on a valid ring is the first pending item. */
    method TryPop() returns (r: ConsumeFailure, item: Option<T>)
      requires Sound()
      modifies this`cachedWriteIdx, block`readIdx
      ensures Sound() && (old(Valid()) ==> Valid())
      ensures r.NoFailure? <==> old(|Pending()|) >= 1
      ensures !r.NoFailure? ==> r == if ring.isClosed then BufferClosed else BufferInsufficient
      ensures item == if r.NoFailure? then Some(old(Get(ring.buffer[..], block.readIdx))) else None
      ensures old(Valid()) && r.NoFailure? ==> item == Some(old(Pending()[0]))
      ensures block.readIdx == old(block.readIdx) + if r.NoFailure? then 1 else 0
    {
      var readIdx := block.readIdx;
      r := CheckPopStatus(readIdx, 1);
      if !r.NoFailure? {
        return r, None;
      }
      var slot := Mask(readIdx, ring.buffer.Length);
      assert ring.buffer[slot] == Get(ring.buffer[..], readIdx);
      item := Some(ring.buffer[slot]);
      Advance(1);
    }

    method TrySkipMany(count: nat) returns (r: ConsumeFailure)
      requires Valid()
      modifies this`cachedWriteIdx, block`readIdx
      ensures Valid()
      ensures r.NoFailure? <==> count <= old(|Pending()|)
      ensures !r.NoFailure? ==> r == if ring.isClosed then BufferClosed else BufferInsufficient
      ensures block.readIdx == old(block.readIdx) + if r.NoFailure? then count else 0
    {
      var readIdx := block.readIdx;
      r := CheckPopStatus(readIdx, count);
      if !r.NoFailure? {
        return;
      }
      Advance(count);
    }

    /** The store of the new read index. */
    method Advance(count: nat)
      requires Sound() && block.readIdx + count <= cachedWriteIdx
      modifies block`readIdx
      ensures Sound() && (old(Valid()) ==> Valid()) && block.readIdx == old(block.readIdx) + count
    {
      block.readIdx := block.readIdx + count;
    }
  }

  // ----- late consumers -----

  /** A slot whose index has fallen out of the window holds a later item. */
  lemma WrittenOver<T>(buffer: seq<T>, history: seq<T>, i: nat)
    requires Window(buffer, history, Oldest(|history|, |buffer|), |history|) && i < Oldest(|history|, |buffer|)
    ensures exists j: nat :: i < j < |history| && Get(buffer, i) == history[j]
    decreases |history| - i
  {
    var next := i + |buffer|;
    SameSlot(i, |buffer|);
    if next < Oldest(|history|, |buffer|) {
      WrittenOver(buffer, history, next);
      var j: nat :| next < j < |history| && Get(buffer, next) == history[j];
      assert i < j;
    } else {
      assert Get(buffer, next) == history[next];
    }
  }

  lemma SameSlot(i: nat, m: nat)
    requires m > 0
    ensures (i + m) % m == i % m
  {
    ModUnique(i + m, m, i / m + 1, i % m);
  }

  /** A consumer that registers while a producer is at work starts at index 0. It is safe, with everything published
      still to come for it and nothing overwritten before it has read it, exactly if the producer's stale minimum is
      still zero: every contract above then holds on. */
  method RegisterLate<T(0)>(producer: Producer<T>) returns (late: Consumer<T>)
    requires producer.Valid() && |producer.ring.consumers| < producer.ring.maxConsumers
    modifies producer.ring`consumers
    ensures fresh(late) && fresh(late.block) && late.ring == producer.ring
    ensures producer.ring.consumers == old(producer.ring.consumers) + [late.block]
    ensures producer.Sound() && late.Sound() && late.block.readIdx == 0 && late.Pending() == producer.ring.history
    ensures producer.Valid() <==> producer.cachedReadIdx == 0
    ensures producer.Valid() ==> late.Valid()
    ensures late.Valid() <==> producer.ring.writeIdx <= producer.ring.buffer.Length
  {
    late := new Consumer<T>(producer.ring);
    assert late.block in producer.ring.consumers;
  }

  /** If it is not, the late consumer is lost. Either its first slot has been written over when it registers; or a push
      of the right length, which the stale minimum lets pass, writes over it. In both cases its first pop succeeds
      with a later item than the first. */
  method LoseFirstItem<T(0)>(producer: Producer<T>, late: Consumer<T>, items: seq<T>)
      returns (item: Option<T>, ghost j: nat)
    requires producer.Sound() && late.Sound() && late.ring == producer.ring
    requires late.block.readIdx == 0 && producer.cachedReadIdx > 0
    requires producer.ring.writeIdx <= producer.ring.buffer.Length ==>
               |items| == producer.ring.buffer.Length + 1 - producer.ring.writeIdx
    modifies producer`cachedReadIdx, producer.ring`writeIdx, producer.ring`history, producer.ring.buffer
    modifies late`cachedWriteIdx, late.block`readIdx
    ensures 0 < j < |producer.ring.history| && item == Some(producer.ring.history[j])
    ensures old(producer.ring.writeIdx) <= producer.ring.buffer.Length ==>
              producer.ring.history == old(producer.ring.history) + items && j == |producer.ring.history| - 1
  {
    var ring := producer.ring;
    ghost var whole := ring.writeIdx <= ring.buffer.Length;
    if ring.writeIdx <= ring.buffer.Length {
      var r := producer.TryPushMany(items);
    }
    WrittenOver(ring.buffer[..], ring.history, 0);
    j :| 0 < j < |ring.history| && Get(ring.buffer[..], 0) == ring.history[j];
    if whole {
      j := ring.buffer.Length;
      SameSlot(0, ring.buffer.Length);
      assert Get(ring.buffer[..], ring.buffer.Length) == ring.history[ring.buffer.Length];
    }
    var failure;
    failure, item := late.TryPop();
  }

  /** A ring of four slots with one consumer and two items published. */
  method PublishTwo() returns (producer: Producer<int>, a: Consumer<int>)
    ensures producer.Valid() && fresh(producer) && fresh(producer.ring) && fresh(producer.ring.buffer)
    ensures a.Valid() && fresh(a) && fresh(a.block) && a.ring == producer.ring && a.block.readIdx == 0
    ensures producer.ring.buffer.Length == 4 && producer.ring.maxConsumers == 8
    ensures producer.ring.consumers == [a.block] && producer.ring.history == [10, 20] && producer.cachedReadIdx == 0
  {
    assert Pow2(2) == 4 by { assert Pow2(1) == 2; }
    var ring := new RingBuffer<int>(4, 8);
    a := new Consumer<int>(ring);
    producer := new Producer<int>(ring);
    var pushed := producer.TryPushMany([10, 20]);
  }

  /** The consumer reads one of them; then a push of four is refused and moves the stale minimum to 1. */
  method MoveMinimum() returns (producer: Producer<int>)
    ensures producer.Valid() && fresh(producer) && fresh(producer.ring) && fresh(producer.ring.buffer)
    ensures producer.ring.buffer.Length == 4 && |producer.ring.consumers| == 1 && producer.ring.maxConsumers == 8
    ensures producer.ring.history == [10, 20] && producer.cachedReadIdx == 1
  {
    var a;
    producer, a := PublishTwo();
    var popped, ten := a.TryPop();
    var refused := producer.TryPushMany([1, 2, 3, 4]);
  }

  /** A run on four slots: after that a second consumer registers and 1, 2, 3 are pushed; its first pop gives it 3, not
      10. */
  method LateRun() returns (ring: RingBuffer<int>, first: Option<int>)
    ensures ring.history == [10, 20, 1, 2, 3] && first == Some(3)
  {
    var producer := MoveMinimum();
    ring := producer.ring;
    var late := RegisterLate(producer);
    ghost var j;
    first, j := LoseFirstItem(producer, late, [1, 2, 3]);
    assert ring.history == [10, 20] + [1, 2, 3];
  }
}
