/** The feed handler: it takes frames from the file source and publishes them whole. */
module FeedHandlers {
  import opened BigEndian
  import opened Framing
  import opened SpmcRing

  class FeedHandler {
    const source: FileSource
    const producer: Producer<Byte>

    /** What has been published is the frames given out so far. */
    ghost predicate Valid()
      reads this, source, producer, producer.ring, producer.ring.buffer, producer.ring.consumers
    {
      source.Valid() && producer.Valid() && producer.ring.history == Flatten(source.given)
    }

    constructor (source: FileSource, producer: Producer<Byte>)
      requires source.Valid() && producer.Valid() && producer.ring.history == Flatten(source.given)
      ensures Valid() && this.source == source && this.producer == producer
    {
      this.source, this.producer := source, producer;
    }

    /** Publishes the next frame, trying until it fits. Between two attempts the consumers' threads may read on, as
        they like; `patience` bounds the attempts after which they have caught up, which under a fair schedule they
        do. A frame larger than the whole buffer would never fit. The answer is false only when the file is used up:
        on a truncated frame it is true and nothing changes, so that polling a truncated file never ends. */
    method Poll(patience: nat) returns (again: bool)
      requires Valid()
      requires NextFrame(source.span).DataFrame? ==> |NextFrame(source.span).frame| <= producer.ring.buffer.Length
      modifies source, producer, producer.ring`writeIdx, producer.ring`history, producer.ring.buffer
      modifies producer.ring.consumers
      ensures Valid() && producer.ring.consumers == old(producer.ring.consumers)
      ensures forall c <- producer.ring.consumers :: old(c.readIdx) <= c.readIdx
      ensures again <==> old(source.span) != []
      ensures NextFrame(old(source.span)).DataFrame? ==>
                producer.ring.history == old(producer.ring.history) + NextFrame(old(source.span)).frame
      ensures !NextFrame(old(source.span)).DataFrame? ==>
                producer.ring.history == old(producer.ring.history) && source.span == old(source.span)
      ensures !again ==> producer.ring.history == source.file
    {
      var next := source.Next();
      match next
      case DataFrame(frame) =>
        Publish(frame, patience);
        assert source.given[..|source.given| - 1] == old(source.given);
        again := true;
      case InvalidFormat => again := true;
      case StreamClosed => again := false;
    }

    /** The retry loop. */
    method Publish(frame: seq<Byte>, patience: nat)
      requires producer.Valid() && 0 < |frame| <= producer.ring.buffer.Length
      modifies producer, producer.ring`writeIdx, producer.ring`history, producer.ring.buffer, producer.ring.consumers
      ensures producer.Valid() && producer.ring.consumers == old(producer.ring.consumers)
      ensures forall c <- producer.ring.consumers :: old(c.readIdx) <= c.readIdx
      ensures producer.ring.history == old(producer.ring.history) + frame
    {
      var ring: RingBuffer<Byte> := producer.ring;
      var left := patience;
      var r := producer.TryPushMany(frame);
      while !r.Success?
        invariant producer.Valid() && ring.consumers == old(ring.consumers)
        invariant forall c <- ring.consumers :: old(c.readIdx) <= c.readIdx
        invariant ring.history == if r.Success? then old(ring.history) + frame else old(ring.history)
        modifies producer, ring`writeIdx, ring`history, ring.buffer, ring.consumers
        decreases if r.Success? then 0 else 1 + left
      {
        ReadOn(ring, left == 0);
        r := producer.TryPushMany(frame);
        left := if left == 0 then 0 else left - 1;
      }
    }

    /** What the consumers' threads do meanwhile: each reads on by any amount, or all there is. */
    method ReadOn(ring: RingBuffer<Byte>, all: bool)
      requires ring.Valid()
      modifies ring.consumers
      ensures ring.Valid() && forall c <- ring.consumers :: old(c.readIdx) <= c.readIdx
      ensures all ==> forall c <- ring.consumers :: c.readIdx == ring.writeIdx
    {
      for i := 0 to |ring.consumers|
        invariant forall c <- ring.consumers :: old(c.readIdx) <= c.readIdx <= ring.writeIdx
        invariant all ==> forall k :: 0 <= k < i ==> ring.consumers[k].readIdx == ring.writeIdx
      {
        var c := ring.consumers[i];
        var to: nat :| c.readIdx <= to <= ring.writeIdx;
        c.readIdx := if all then ring.writeIdx else to;
      }
    }

    /** The destructor. */
    method Destroy()
      requires Valid()
      modifies producer.ring`isClosed
      ensures Valid() && producer.ring.isClosed
    {
      producer.Close();
    }
  }
}
