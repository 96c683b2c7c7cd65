/** What holds of the pipeline under every schedule. */
module PipelineTheorems {
  import opened BigEndian
  import opened Options
  import opened OrderBooks
  import opened Framing
  import opened Itch
  import opened HandlerCore
  import opened SpmcProtocol
  import opened Pipeline
  import opened PipelineInvariant

  /** The buffer of 2^20 slots that the program uses is large enough for every well-formed feed. */
  lemma ProgramBufferSuffices(cfg: Config)
    requires cfg.stocks != []
    ensures GoodConfig(cfg, 0x10_0000) <==>
            forall c :: 0 <= c < |cfg.stocks| ==>
              WellFormedFeed(cfg.frames, cfg.stocks[c].target, cfg.stocks[c].locate, cfg.stocks[c].initial)
  {
    var first := cfg.stocks[0];
    if WellFormedFeed(cfg.frames, first.target, first.locate, first.initial) {
      PrefixIsWellFormed(cfg.frames, first.target, first.locate, first.initial, 0);
      forall k | 0 <= k < |cfg.frames| ensures |cfg.frames[k]| <= 0x10_0000 {
        SizeFits(cfg.frames[k]);
      }
    }
  }

  /** Every configuration with a stock can be started, with a ring of any size. */
  lemma StartExists(cfg: Config, buffer: seq<Byte>) returns (s: System)
    requires buffer != [] && cfg.stocks != []
    ensures Start(cfg, s) && s.ring.buffer == buffer
  {
    var n := |cfg.stocks|;
    s := System(Ring(buffer, 0, false, Producer(Ready, 0), seq(n, c => Consumer(Idle, 0, 0, [])), []),
                Feed(Flatten(cfg.frames), None, 0),
                seq(n, c requires 0 <= c < n => Handler(AtSize, Core(cfg.stocks[c].initial, map[], map[], map[]), 0)));
  }

  // ----- what it means -----

  /** Schedule independence, end to end: under every interleaving of the feed and the handlers, a handler that
      has consumed k frames has not faulted, holds exactly the records of a sequential reader of its stock after
      the first k frames, and its book totals them at every price. */
  lemma ScheduleIndependence(cfg: Config, s: System, schedule: seq<Thread>, c: nat)
    requires Start(cfg, s) && GoodConfig(cfg, |s.ring.buffer|) && c < |cfg.stocks|
    ensures var h, stock := Exec(cfg, s, schedule).handlers[c], cfg.stocks[c];
            && !h.phase.Faulted? && h.frames <= |cfg.frames|
            && h.core.records == RecordsAfter(cfg.frames[..h.frames], stock.locate)
            && Agrees(h.core.buy, h.core.records, Buy) && Agrees(h.core.sell, h.core.records, Sell)
  {
    StartHolds(cfg, s);
    ExecHolds(cfg, s, schedule);
    var t := Exec(cfg, s, schedule);
    assert HandlerHolds(cfg, t, c);
    var k, stock := t.handlers[c].frames, cfg.stocks[c];
    PrefixIsWellFormed(cfg.frames, stock.target, stock.locate, stock.initial, k);
    HandlerFollowsFeed(cfg.frames[..k], stock.target, stock.locate, stock.initial);
  }

  /** Two runs under any two schedules leave a handler in the same state once it has consumed equally many
      frames. */
  lemma SameFramesSameState(cfg: Config, s: System, one: seq<Thread>, other: seq<Thread>, c: nat)
    requires Start(cfg, s) && GoodConfig(cfg, |s.ring.buffer|) && c < |cfg.stocks|
    requires Exec(cfg, s, one).handlers[c].frames == Exec(cfg, s, other).handlers[c].frames
    ensures Exec(cfg, s, one).handlers[c].core == Exec(cfg, s, other).handlers[c].core
  {
    StartHolds(cfg, s);
    ExecHolds(cfg, s, one);
    ExecHolds(cfg, s, other);
    assert HandlerHolds(cfg, Exec(cfg, s, one), c) && HandlerHolds(cfg, Exec(cfg, s, other), c);
  }

  /** Frame alignment: whatever the schedule, the write index is the end of a frame, and between two polls a
      handler's read index is the start of its next one. */
  lemma FrameAlignment(cfg: Config, s: System, schedule: seq<Thread>, c: nat)
    requires Start(cfg, s) && GoodConfig(cfg, |s.ring.buffer|) && c < |cfg.stocks|
    ensures var t := Exec(cfg, s, schedule);
            && Published(t) <= |cfg.frames| && t.ring.write == Offset(cfg.frames, Published(t))
            && t.handlers[c].frames <= |cfg.frames|
            && (t.handlers[c].phase.AtSize? && t.ring.consumers[c].pc.Idle? ==>
                  t.ring.consumers[c].read == Offset(cfg.frames, t.handlers[c].frames))
  {
    StartHolds(cfg, s);
    ExecHolds(cfg, s, schedule);
    assert HandlerHolds(cfg, Exec(cfg, s, schedule), c);
  }

  /** A handler that has stopped has consumed the whole feed if and only if the write index it loaded last was
      the final one; a flag already set at that load is enough. */
  lemma StoppedHandlerDrained(cfg: Config, s: System, schedule: seq<Thread>, c: nat)
    requires Start(cfg, s) && GoodConfig(cfg, |s.ring.buffer|) && c < |cfg.stocks|
    requires Exec(cfg, s, schedule).handlers[c].phase.Stopped?
    ensures var t := Exec(cfg, s, schedule);
            && (t.handlers[c].frames == |cfg.frames| <==> t.ring.consumers[c].cachedWrite == t.ring.write)
            && (t.handlers[c].phase.flagWasSet ==> t.handlers[c].frames == |cfg.frames|)
  {
    StartHolds(cfg, s);
    ExecHolds(cfg, s, schedule);
    var t := Exec(cfg, s, schedule);
    assert HandlerHolds(cfg, t, c);
    var k := t.handlers[c].frames;
    if k < |cfg.frames| {
      OffsetStep(cfg.frames, k);
      OffsetMonotone(cfg.frames, k + 1, |cfg.frames|);
    }
  }

  // ----- a measure of the work left -----

  /** The bytes that the first `n` consumers have still to read of a stream of `total` bytes. */
  ghost function Unread(consumers: seq<Consumer<Byte>>, total: nat, n: nat): int
    requires n <= |consumers|
  {
    if n == 0 then 0 else Unread(consumers, total, n - 1) + (total - consumers[n - 1].read)
  }

  ghost function WorkLeft(cfg: Config, s: System): int {
    var total := |Flatten(cfg.frames)|;
    (total - s.ring.write) + Unread(s.ring.consumers, total, |s.ring.consumers|)
  }

  lemma {:induction false} UnreadUpdate(
      consumers: seq<Consumer<Byte>>, total: nat, n: nat, c: nat, me: Consumer<Byte>)
    requires c < |consumers| && n <= |consumers|
    ensures Unread(consumers[c := me], total, n) ==
            Unread(consumers, total, n) - if c < n then me.read - consumers[c].read else 0
  {
    if n > 0 {
      UnreadUpdate(consumers, total, n - 1, c, me);
    }
  }

  lemma {:induction false} UnreadBound(consumers: seq<Consumer<Byte>>, total: nat, n: nat)
    requires n <= |consumers| && forall c <- consumers :: c.read <= total
    ensures Unread(consumers, total, n) >= 0
  {
    if n > 0 {
      UnreadBound(consumers, total, n - 1);
      assert consumers[n - 1] in consumers;
    }
  }

  /** The measure is never negative in a reachable state: no index ever passes the end of the file. */
  lemma WorkLeftBound(cfg: Config, s: System)
    requires Holds(cfg, s)
    ensures WorkLeft(cfg, s) >= 0
  {
    OffsetMonotone(cfg.frames, Published(s), |cfg.frames|);
    assert cfg.frames[..|cfg.frames|] == cfg.frames;
    forall me | me in s.ring.consumers ensures me.read <= |Flatten(cfg.frames)| {
      var c :| 0 <= c < |s.ring.consumers| && s.ring.consumers[c] == me;
      assert ConsumerHolds(s.ring, s.ring.consumers[c]);
    }
    UnreadBound(s.ring.consumers, |Flatten(cfg.frames)|, |s.ring.consumers|);
  }

  /** No step of any thread adds work, and every step that publishes or takes bytes lessens it by exactly those
      bytes: the threads can only spin, never undo. */
  lemma WorkOnlyShrinks(cfg: Config, s: System, t: Thread)
    requires Holds(cfg, s)
    ensures var s' := StepThread(cfg, s, t);
            WorkLeft(cfg, s') == WorkLeft(cfg, s) - match t
              case FeedThread => s'.ring.write - s.ring.write
              case HandlerThread(c) =>
                if c < |cfg.stocks| then s'.ring.consumers[c].read - s.ring.consumers[c].read else 0
    ensures WorkLeft(cfg, StepThread(cfg, s, t)) <= WorkLeft(cfg, s)
  {
    match t
    case FeedThread => FeedStepLeavesHandlers(s);
    case HandlerThread(c) =>
      if c < |cfg.stocks| {
        var me := StepHandler(s, c, cfg.stocks[c].target).ring.consumers[c];
        HandlerStepReplaces(s, c, cfg.stocks[c].target);
        UnreadUpdate(s.ring.consumers, |Flatten(cfg.frames)|, |s.ring.consumers|, c, me);
        assert ConsumerHolds(s.ring, s.ring.consumers[c]);
        ConsumerStepMonotone(s.ring, s.ring.consumers[c]);
      }
  }
}
