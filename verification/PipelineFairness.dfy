/** Every fair schedule finishes: if each thread runs often enough, in whatever order, the feed is delivered and closed
    and every handler stops. */
module PipelineFairness {
  import opened Framing
  import opened SpmcProtocol
  import opened Pipeline
  import opened PipelineInvariant
  import opened PipelineProgress

  // ----- the work of a handler -----

  /** More than the steps in which a handler gets one frame done. */
  const FRAME_STEPS: nat := 1792

  /** A handler with something to do: in the middle of a frame, with bytes to read, or to be told of the close. */
  predicate Busy(s: System, c: nat)
    requires c < |s.handlers| == |s.ring.consumers|
  {
    var h := s.handlers[c];
    !h.phase.Stopped? && (!h.phase.AtSize? || s.ring.consumers[c].read < s.ring.write || s.ring.closed)
  }

  /** The steps to the end of the frame; an idle handler, which may spin, counts as at the start of one. */
  function HandlerRank(s: System, c: nat): nat
    requires c < |s.handlers| == |s.ring.consumers|
  {
    if Busy(s, c) then
      PhaseRank(s.handlers[c].phase) * 448 + PcRank(s, c) * 64 + SlotsLeft(s.ring.consumers[c].pc)
    else FRAME_STEPS
  }

  function HandlerWork(cfg: Config, s: System, c: nat): int
    requires c < |s.handlers| == |s.ring.consumers|
  {
    if s.handlers[c].phase.Stopped? then 0
    else (|cfg.frames| - s.handlers[c].frames) * (FRAME_STEPS + 1) + HandlerRank(s, c)
  }

  lemma HandlerWorkBound(cfg: Config, s: System, c: nat)
    requires Holds(cfg, s) && c < |cfg.stocks|
    ensures HandlerRank(s, c) <= FRAME_STEPS && s.handlers[c].frames <= |cfg.frames|
    ensures if s.handlers[c].phase.Stopped? then HandlerWork(cfg, s, c) == 0 else HandlerWork(cfg, s, c) > 0
  {
    assert HandlerHolds(cfg, s, c);
    assert ConsumerHolds(s.ring, s.ring.consumers[c]);
  }

  /** A handler that has just taken the size of a frame has the rest of the frame before it. */
  lemma RestOfFrameWaits(cfg: Config, s: System, c: nat)
    requires Holds(cfg, s) && c < |cfg.stocks| && s.handlers[c].phase.AtSize? && Answered(s.ring.consumers[c].pc)
    ensures s.ring.consumers[c].read < s.ring.write
  {
    LocalOf(cfg, s, c);
    var k, p := s.handlers[c].frames, Published(s);
    StartedIsPublished(cfg.frames, p, k);
    OffsetStep(cfg.frames, k);
    OffsetMonotone(cfg.frames, k + 1, p);
  }

  lemma StaysBusy(cfg: Config, s: System, c: nat)
    requires Holds(cfg, s) && c < |cfg.stocks| && Busy(s, c)
    ensures var s' := StepHandler(s, c, cfg.stocks[c].target);
            s'.handlers[c].frames == s.handlers[c].frames && !s'.handlers[c].phase.Stopped? ==> Busy(s', c)
  {
    var s' := StepHandler(s, c, cfg.stocks[c].target);
    HandlerStepReplaces(s, c, cfg.stocks[c].target);
    HandlerStepHolds(cfg, s, c);
    if s.ring.consumers[c].pc.Finished? {
      ResumeIsClean(cfg, s, c);
    }
    if s'.handlers[c].phase.AtSize? && Answered(s'.ring.consumers[c].pc) {
      RestOfFrameWaits(cfg, s', c);
    }
    if s.handlers[c].phase.AtSize? && Answered(s.ring.consumers[c].pc) {
      RestOfFrameWaits(cfg, s, c);
    }
  }

  lemma BusyStepLowers(cfg: Config, s: System, c: nat)
    requires Holds(cfg, s) && c < |cfg.stocks| && Busy(s, c)
    ensures HandlerWork(cfg, StepHandler(s, c, cfg.stocks[c].target), c) < HandlerWork(cfg, s, c)
  {
    var s' := StepHandler(s, c, cfg.stocks[c].target);
    HandlerAdvances(cfg, s, c);
    HandlerStepHolds(cfg, s, c);
    StaysBusy(cfg, s, c);
    HandlerWorkBound(cfg, s, c);
    HandlerWorkBound(cfg, s', c);
    SlotsAreFew(cfg, s, c);
    SlotsAreFew(cfg, s', c);
  }

  lemma SlotsAreFew(cfg: Config, s: System, c: nat)
    requires Holds(cfg, s) && c < |cfg.stocks|
    ensures SlotsLeft(s.ring.consumers[c].pc) < 64
  {
    assert HandlerHolds(cfg, s, c);
  }

  lemma OwnStepKeepsWork(cfg: Config, s: System, c: nat)
    requires Holds(cfg, s) && c < |cfg.stocks|
    ensures HandlerWork(cfg, StepHandler(s, c, cfg.stocks[c].target), c) <= HandlerWork(cfg, s, c)
    ensures Busy(s, c) ==> HandlerWork(cfg, StepHandler(s, c, cfg.stocks[c].target), c) < HandlerWork(cfg, s, c)
  {
    if Busy(s, c) {
      BusyStepLowers(cfg, s, c);
    } else {
      assert HandlerHolds(cfg, s, c);
      HandlerStepReplaces(s, c, cfg.stocks[c].target);
      HandlerStepHolds(cfg, s, c);
      HandlerWorkBound(cfg, StepHandler(s, c, cfg.stocks[c].target), c);
    }
  }

  lemma FeedStepKeepsHandlerWork(cfg: Config, s: System, c: nat)
    requires Holds(cfg, s) && c < |cfg.stocks|
    ensures HandlerWork(cfg, StepFeed(s), c) <= HandlerWork(cfg, s, c) && (Busy(s, c) ==> Busy(StepFeed(s), c))
  {
    FeedStepLeavesHandlers(s);
    FeedStepHolds(cfg, s);
    FeedStepAdvances(s);
    HandlerWorkBound(cfg, StepFeed(s), c);
    MoreToReadHelps(cfg, s, StepFeed(s), c);
  }

  /** Publishing and closing take a handler no further away from its next frame. */
  lemma MoreToReadHelps(cfg: Config, s: System, s': System, c: nat)
    requires c < |s.handlers| == |s.ring.consumers|
    requires s'.handlers == s.handlers && s'.ring.consumers == s.ring.consumers
    requires s.ring.write <= s'.ring.write && (s.ring.closed ==> s'.ring.closed) && HandlerRank(s', c) <= FRAME_STEPS
    ensures HandlerWork(cfg, s', c) <= HandlerWork(cfg, s, c) && (Busy(s, c) ==> Busy(s', c))
  {
  }

  lemma FeedStepAdvances(s: System)
    requires |s.ring.buffer| > 0 && Inv(s.ring)
    ensures s.ring.write <= StepFeed(s).ring.write && |StepFeed(s).ring.buffer| == |s.ring.buffer|
  {
  }

  // ----- the work of the feed -----

  /** The steps of one push, at the most; half a dozen times, for the stages a push can be in. */
  function PushSteps(s: System): nat {
    |s.ring.consumers| + |s.ring.buffer| + 1
  }

  /** The steps to the next publication. As long as handlers have bytes to read the push may fail and start again, and
      does not count as any nearer; once they have read everything it succeeds, after one more attempt if need be. */
  ghost function FeedStage(s: System): int {
    var l, k := PushSteps(s), |s.ring.consumers|;
    match s.ring.producer.pc
    case Writing(items, _, i) => l + (|items| - i)
    case Scanning(_, _, scanned, low) =>
      if !AllRead(s) then 6 * l
      else if low.None? || low.value == s.ring.write then 2 * l + (k - scanned)
      else 5 * l + (k - scanned)
    case Returned(_, _) => if AllRead(s) then 4 * l else 6 * l
    case Ready => if AllRead(s) then 3 * l else 6 * l
  }

  function ToPublish(cfg: Config, s: System): nat {
    if Published(s) <= |cfg.frames| then |cfg.frames| + 1 - Published(s) else 0
  }

  /** `n * m`, by repeated addition. */
  function Reps(n: nat, m: nat): nat {
    if n == 0 then 0 else Reps(n - 1, m) + m
  }

  ghost function FeedWork(cfg: Config, s: System): int {
    if s.ring.closed then 0 else Reps(ToPublish(cfg, s), 6 * PushSteps(s) + 1) + FeedStage(s)
  }

  lemma FeedStageBound(cfg: Config, s: System)
    requires Holds(cfg, s) && !s.ring.closed
    ensures 0 < FeedStage(s) <= 6 * PushSteps(s) && ToPublish(cfg, s) >= 1
  {
    if s.ring.producer.pc.Writing? {
      assert |s.feed.pending.value| <= |s.ring.buffer|;
    }
  }

  /** Fewer pushes left, with a stage that fits into one. */
  lemma {:induction false} FewerPushes(n: nat, n': nat, m: nat, stage: int, stage': int)
    requires 0 < stage && stage' < m && n' < n
    ensures Reps(n', m) + stage' < Reps(n, m) + stage
  {
    if n' < n - 1 {
      FewerPushes(n - 1, n', m, stage, stage');
    }
  }

  /** The feed gets on: it is writing, or nothing is left to read that it would have to wait for. */
  ghost predicate FeedAble(s: System) {
    !s.ring.closed && (s.ring.producer.pc.Writing? || AllRead(s))
  }

  /** While nothing is published, a step of the feed brings it nearer to the next publication if it is able to, and
      takes it no further away if it is not. */
  ghost predicate Nearer(s: System, s': System) {
    && Published(s') == Published(s) && PushSteps(s') == PushSteps(s) && !s'.ring.closed
    && (if FeedAble(s) then FeedStage(s') < FeedStage(s) else FeedStage(s') <= FeedStage(s))
  }

  /** Between pushes the feed starts one, or closes. */
  lemma FeedStarts(cfg: Config, s: System)
    requires Holds(cfg, s) && !s.ring.closed && s.ring.producer.pc.Ready?
    ensures var s' := StepFeed(s);
            s'.ring.closed ||
            (&& s'.feed.pushed == s.feed.pushed && s'.ring.consumers == s.ring.consumers
             && s'.ring.write == s.ring.write && |s'.ring.buffer| == |s.ring.buffer|
             && match s'.ring.producer.pc
                case Scanning(_, _, scanned, low) => scanned == 0 && low.None?
                case Writing(items, _, written) => written == 0 && |items| <= |s.ring.buffer|
                case _ => false)
  {
    ReadyStep(cfg, s);
    assert s.feed.pushed < |cfg.frames| ==> |cfg.frames[s.feed.pushed]| <= |s.ring.buffer|;
  }

  lemma ReadyStages(cfg: Config, s: System)
    requires Holds(cfg, s) && !s.ring.closed && s.ring.producer.pc.Ready?
    ensures StepFeed(s).ring.closed || Nearer(s, StepFeed(s))
  {
    FeedStarts(cfg, s);
    var s' := StepFeed(s);
    if !s'.ring.closed {
      StartedStages(s, s');
    }
  }

  lemma StartedStages(s: System, s': System)
    requires s.ring.producer.pc.Ready? && !s.ring.closed && !s'.ring.closed
    requires s'.feed.pushed == s.feed.pushed && s'.ring.consumers == s.ring.consumers && s'.ring.write == s.ring.write
    requires |s'.ring.buffer| == |s.ring.buffer|
    requires match s'.ring.producer.pc
             case Scanning(_, _, scanned, low) => scanned == 0 && low.None?
             case Writing(items, _, written) => written == 0 && |items| <= |s.ring.buffer|
             case _ => false
    ensures Nearer(s, s')
  {
    assert AllRead(s') <==> AllRead(s);
  }

  lemma ReturnedStages(cfg: Config, s: System)
    requires Holds(cfg, s) && !s.ring.closed && s.ring.producer.pc.Returned?
    ensures Nearer(s, StepFeed(s))
  {
    assert AllRead(StepFeed(s)) <==> AllRead(s);
  }

  lemma ScanStages(cfg: Config, s: System)
    requires Holds(cfg, s) && !s.ring.closed && s.ring.producer.pc.Scanning?
    ensures Nearer(s, StepFeed(s))
  {
    assert AllRead(StepFeed(s)) <==> AllRead(s);
  }

  lemma WriteStages(cfg: Config, s: System)
    requires Holds(cfg, s) && s.ring.producer.pc.Writing?
    ensures var s' := StepFeed(s);
            !s'.ring.closed && PushSteps(s') == PushSteps(s) && (Published(s') == Published(s) + 1 || Nearer(s, s'))
  {
  }

  lemma FeedStepPublishes(cfg: Config, s: System)
    requires Holds(cfg, s) && !s.ring.closed && !StepFeed(s).ring.closed
    ensures var s' := StepFeed(s);
            PushSteps(s') == PushSteps(s) && (Published(s') == Published(s) + 1 || Nearer(s, s'))
  {
    match s.ring.producer.pc
    case Ready => ReadyStages(cfg, s);
    case Returned(_, _) => ReturnedStages(cfg, s);
    case Scanning(_, _, _, _) => ScanStages(cfg, s);
    case Writing(_, _, _) => WriteStages(cfg, s);
  }

  lemma FeedStepWorks(cfg: Config, s: System)
    requires Holds(cfg, s)
    ensures FeedWork(cfg, StepFeed(s)) <= FeedWork(cfg, s)
    ensures FeedAble(s) ==> FeedWork(cfg, StepFeed(s)) < FeedWork(cfg, s)
  {
    if !s.ring.closed {
      FeedStepHolds(cfg, s);
      FeedStageBound(cfg, s);
      if StepFeed(s).ring.closed {
        FewerPushes(ToPublish(cfg, s), 0, 6 * PushSteps(s) + 1, FeedStage(s), 0);
      } else {
        FeedStageBound(cfg, StepFeed(s));
        FeedStepPublishes(cfg, s);
        FeedWorkLowers(cfg, s, StepFeed(s));
      }
    } else {
      FeedStepLeavesHandlers(s);
    }
  }

  lemma FeedWorkLowers(cfg: Config, s: System, s': System)
    requires Published(s) <= |cfg.frames| && Published(s') <= |cfg.frames|
    requires !s.ring.closed && !s'.ring.closed && PushSteps(s') == PushSteps(s)
    requires 0 < FeedStage(s) && FeedStage(s') <= 6 * PushSteps(s)
    requires Published(s') == Published(s) + 1 || Nearer(s, s')
    ensures FeedWork(cfg, s') <= FeedWork(cfg, s)
    ensures FeedAble(s) ==> FeedWork(cfg, s') < FeedWork(cfg, s)
  {
    if Published(s') == Published(s) + 1 {
      FewerPushes(ToPublish(cfg, s), ToPublish(cfg, s'), 6 * PushSteps(s) + 1, FeedStage(s), FeedStage(s'));
    }
  }

  /** Reading on takes the feed no further away from its next publication. */
  lemma ReadingHelps(s: System, s': System)
    requires s'.ring.producer == s.ring.producer && s'.ring.write == s.ring.write
    requires |s'.ring.consumers| == |s.ring.consumers| && |s'.ring.buffer| == |s.ring.buffer|
    requires forall c :: 0 <= c < |s.ring.consumers| ==>
               s.ring.consumers[c].read <= s'.ring.consumers[c].read <= s.ring.write
    ensures FeedStage(s') <= FeedStage(s) && (AllRead(s) ==> AllRead(s'))
  {
    assert AllRead(s) ==> AllRead(s');
  }

  lemma HandlerStepReads(cfg: Config, s: System, c: nat)
    requires Holds(cfg, s) && c < |cfg.stocks|
    ensures var s' := StepHandler(s, c, cfg.stocks[c].target);
            && s'.feed == s.feed && s'.ring.closed == s.ring.closed && s'.ring.producer == s.ring.producer
            && s'.ring.write == s.ring.write && |s'.ring.buffer| == |s.ring.buffer|
            && |s'.ring.consumers| == |s.ring.consumers|
            && forall d :: 0 <= d < |s.ring.consumers| ==>
                 s.ring.consumers[d].read <= s'.ring.consumers[d].read <= s.ring.write
  {
    var s' := StepHandler(s, c, cfg.stocks[c].target);
    HandlerStepReplaces(s, c, cfg.stocks[c].target);
    HandlerStepKeepsRing(cfg, s, c);
    assert ConsumerHolds(s.ring, s.ring.consumers[c]);
    ConsumerStepMonotone(s.ring, s.ring.consumers[c]);
    forall d | 0 <= d < |s.ring.consumers|
      ensures s.ring.consumers[d].read <= s'.ring.consumers[d].read <= s.ring.write
    {
      assert ConsumerHolds(s'.ring, s'.ring.consumers[d]);
    }
  }

  lemma ReadingKeepsWork(cfg: Config, s: System, s': System)
    requires s'.feed == s.feed && s'.ring.closed == s.ring.closed && s'.ring.producer == s.ring.producer
    requires s'.ring.write == s.ring.write && |s'.ring.buffer| == |s.ring.buffer|
    requires |s'.ring.consumers| == |s.ring.consumers|
    requires forall c :: 0 <= c < |s.ring.consumers| ==>
               s.ring.consumers[c].read <= s'.ring.consumers[c].read <= s.ring.write
    ensures FeedWork(cfg, s') <= FeedWork(cfg, s) && (FeedAble(s) ==> FeedAble(s'))
  {
    ReadingHelps(s, s');
    assert ToPublish(cfg, s') == ToPublish(cfg, s) && PushSteps(s') == PushSteps(s);
  }

  lemma HandlerStepKeepsFeedWork(cfg: Config, s: System, c: nat)
    requires Holds(cfg, s) && c < |cfg.stocks|
    ensures var s' := StepHandler(s, c, cfg.stocks[c].target);
            FeedWork(cfg, s') <= FeedWork(cfg, s) && (FeedAble(s) ==> FeedAble(s'))
  {
    HandlerStepReads(cfg, s, c);
    ReadingKeepsWork(cfg, s, StepHandler(s, c, cfg.stocks[c].target));
  }

  // ----- all the work -----

  function HandlersWork(cfg: Config, s: System, n: nat): int
    requires n <= |s.handlers| == |s.ring.consumers|
  {
    if n == 0 then 0 else HandlersWork(cfg, s, n - 1) + HandlerWork(cfg, s, n - 1)
  }

  ghost function Work(cfg: Config, s: System): int
    requires Shaped(cfg, s)
  {
    FeedWork(cfg, s) + HandlersWork(cfg, s, |cfg.stocks|)
  }

  lemma {:induction false} HandlersWorkCompare(cfg: Config, s: System, s': System, n: nat, c: nat)
    requires n <= |s.handlers| == |s.ring.consumers| == |s'.handlers| == |s'.ring.consumers|
    requires forall d :: 0 <= d < n ==> HandlerWork(cfg, s', d) <= HandlerWork(cfg, s, d)
    ensures HandlersWork(cfg, s', n) <= HandlersWork(cfg, s, n)
    ensures c < n && HandlerWork(cfg, s', c) < HandlerWork(cfg, s, c) ==>
              HandlersWork(cfg, s', n) < HandlersWork(cfg, s, n)
  {
    if n > 0 {
      HandlersWorkCompare(cfg, s, s', n - 1, c);
    }
  }

  /** A thread whose next step gets something done, whatever the others do before it. */
  ghost predicate Productive(cfg: Config, s: System, t: Thread)
    requires Shaped(cfg, s)
  {
    match t
    case FeedThread => FeedAble(s)
    case HandlerThread(c) => c < |cfg.stocks| && Busy(s, c)
  }

  /** As long as not all handlers have stopped, some thread can get something done. */
  lemma SomeThreadIsProductive(cfg: Config, s: System) returns (t: Thread)
    requires Holds(cfg, s) && !AllStopped(cfg, s)
    ensures Productive(cfg, s, t) && (t.HandlerThread? ==> t.c < |cfg.stocks|)
  {
    if c: nat :| c < |cfg.stocks| && Busy(s, c) {
      t := HandlerThread(c);
    } else {
      t := FeedThread;
      var d :| 0 <= d < |cfg.stocks| && !s.handlers[d].phase.Stopped?;
      assert !Busy(s, d);
      forall c: nat | c < |s.ring.consumers| ensures s.ring.consumers[c].read == s.ring.write {
        assert !Busy(s, c);
        assert HandlerHolds(cfg, s, c) && ConsumerHolds(s.ring, s.ring.consumers[c]);
      }
    }
  }

  lemma StepHolds(cfg: Config, s: System, t: Thread)
    requires Holds(cfg, s)
    ensures Holds(cfg, StepThread(cfg, s, t))
  {
    match t
    case FeedThread => FeedStepHolds(cfg, s);
    case HandlerThread(c) => if c < |cfg.stocks| { HandlerStepHolds(cfg, s, c); }
  }

  lemma FeedThreadWorks(cfg: Config, s: System)
    requires Holds(cfg, s)
    ensures Work(cfg, StepFeed(s)) <= Work(cfg, s)
    ensures FeedAble(s) ==> Work(cfg, StepFeed(s)) < Work(cfg, s)
  {
    var s' := StepFeed(s);
    FeedStepWorks(cfg, s);
    FeedStepLeavesHandlers(s);
    forall d | 0 <= d < |cfg.stocks| ensures HandlerWork(cfg, s', d) <= HandlerWork(cfg, s, d) {
      FeedStepKeepsHandlerWork(cfg, s, d);
    }
    HandlersWorkCompare(cfg, s, s', |cfg.stocks|, 0);
  }

  lemma OtherHandlersWork(cfg: Config, s: System, c: nat)
    requires Holds(cfg, s) && c < |cfg.stocks|
    ensures var s' := StepHandler(s, c, cfg.stocks[c].target);
            && |s'.handlers| == |s'.ring.consumers| == |cfg.stocks|
            && forall d :: 0 <= d < |cfg.stocks| && d != c ==>
                 HandlerWork(cfg, s', d) == HandlerWork(cfg, s, d) && (Busy(s, d) ==> Busy(s', d))
  {
    HandlerStepReplaces(s, c, cfg.stocks[c].target);
  }

  lemma HandlerThreadWorks(cfg: Config, s: System, c: nat)
    requires Holds(cfg, s) && c < |cfg.stocks|
    ensures var s' := StepHandler(s, c, cfg.stocks[c].target);
            && Shaped(cfg, s') && Work(cfg, s') <= Work(cfg, s)
            && (Busy(s, c) ==> Work(cfg, s') < Work(cfg, s))
  {
    HandlerStepKeepsFeedWork(cfg, s, c);
    OtherHandlersWork(cfg, s, c);
    OwnStepKeepsWork(cfg, s, c);
    HandlersWorkCompare(cfg, s, StepHandler(s, c, cfg.stocks[c].target), |cfg.stocks|, c);
  }

  /** No step of any thread adds work, and a productive one lessens it. */
  lemma StepWorks(cfg: Config, s: System, t: Thread)
    requires Holds(cfg, s)
    ensures Work(cfg, StepThread(cfg, s, t)) <= Work(cfg, s)
    ensures Productive(cfg, s, t) ==> Work(cfg, StepThread(cfg, s, t)) < Work(cfg, s)
  {
    match t
    case FeedThread => FeedThreadWorks(cfg, s);
    case HandlerThread(c) => if c < |cfg.stocks| { HandlerThreadWorks(cfg, s, c); }
  }

  /** A productive thread stays so until it moves itself. */
  lemma ProductiveStays(cfg: Config, s: System, t: Thread, u: Thread)
    requires Holds(cfg, s) && Productive(cfg, s, t) && t != u
    ensures Productive(cfg, StepThread(cfg, s, u), t)
  {
    match u
    case FeedThread => FeedStepKeepsHandlerWork(cfg, s, t.c);
    case HandlerThread(c) =>
      if c < |cfg.stocks| {
        HandlerStepReplaces(s, c, cfg.stocks[c].target);
        HandlerStepKeepsFeedWork(cfg, s, c);
      }
  }

  // ----- fair schedules -----

  /** Every thread runs at least once. */
  ghost predicate FullRound(cfg: Config, schedule: seq<Thread>) {
    FeedThread in schedule && forall c: nat :: c < |cfg.stocks| ==> HandlerThread(c) in schedule
  }

  /** Rounds one after the other; within a round the threads run in any order and any number of times. */
  function Joined(rounds: seq<seq<Thread>>): seq<Thread> {
    if rounds == [] then [] else rounds[0] + Joined(rounds[1..])
  }

  lemma {:induction false} ExecWorks(cfg: Config, s: System, schedule: seq<Thread>)
    requires Holds(cfg, s)
    ensures Holds(cfg, Exec(cfg, s, schedule)) && Work(cfg, Exec(cfg, s, schedule)) <= Work(cfg, s)
    decreases |schedule|
  {
    if schedule != [] {
      StepHolds(cfg, s, schedule[0]);
      StepWorks(cfg, s, schedule[0]);
      ExecWorks(cfg, StepThread(cfg, s, schedule[0]), schedule[1..]);
    }
  }

  lemma {:induction false} ProductiveThreadRuns(cfg: Config, s: System, schedule: seq<Thread>, t: Thread)
    requires Holds(cfg, s) && Productive(cfg, s, t) && t in schedule
    ensures Work(cfg, Exec(cfg, s, schedule)) < Work(cfg, s)
    decreases |schedule|
  {
    var u, rest := schedule[0], schedule[1..];
    StepHolds(cfg, s, u);
    StepWorks(cfg, s, u);
    if u == t {
      ExecWorks(cfg, StepThread(cfg, s, u), rest);
    } else {
      ProductiveStays(cfg, s, t, u);
      ProductiveThreadRuns(cfg, StepThread(cfg, s, u), rest, t);
    }
  }

  lemma {:induction false} StoppedStayStopped(cfg: Config, s: System, schedule: seq<Thread>)
    requires Holds(cfg, s) && AllStopped(cfg, s)
    ensures AllStopped(cfg, Exec(cfg, s, schedule))
    decreases |schedule|
  {
    if schedule != [] {
      var t := schedule[0];
      StepHolds(cfg, s, t);
      match t {
        case FeedThread => FeedStepLeavesHandlers(s);
        case HandlerThread(c) =>
          if c < |cfg.stocks| {
            assert HandlerHolds(cfg, s, c);
            HandlerStepReplaces(s, c, cfg.stocks[c].target);
          }
      }
      StoppedStayStopped(cfg, StepThread(cfg, s, t), schedule[1..]);
    }
  }

  lemma {:induction false} WorkIsNatural(cfg: Config, s: System, n: nat)
    requires Holds(cfg, s) && n <= |cfg.stocks|
    ensures HandlersWork(cfg, s, n) >= 0
    ensures (exists c :: 0 <= c < n && !s.handlers[c].phase.Stopped?) ==> HandlersWork(cfg, s, n) > 0
  {
    if n > 0 {
      WorkIsNatural(cfg, s, n - 1);
      HandlerWorkBound(cfg, s, n - 1);
    }
  }

  lemma NoWorkMeansStopped(cfg: Config, s: System)
    requires Holds(cfg, s)
    ensures Work(cfg, s) >= 0 && (Work(cfg, s) == 0 ==> AllStopped(cfg, s))
  {
    WorkIsNatural(cfg, s, |cfg.stocks|);
    if !s.ring.closed {
      FeedStageBound(cfg, s);
    }
  }

  /** A full round gets something done. */
  lemma RoundWorks(cfg: Config, s: System, round: seq<Thread>)
    requires Holds(cfg, s) && !AllStopped(cfg, s) && FullRound(cfg, round)
    ensures Holds(cfg, Exec(cfg, s, round)) && Work(cfg, Exec(cfg, s, round)) < Work(cfg, s)
  {
    var t := SomeThreadIsProductive(cfg, s);
    assert t in round by {
      if t.HandlerThread? {
        assert t == HandlerThread(t.c);
      }
    }
    ExecWorks(cfg, s, round);
    ProductiveThreadRuns(cfg, s, round, t);
  }

  lemma {:induction false} RoundsFinish(cfg: Config, s: System, rounds: seq<seq<Thread>>)
    requires Holds(cfg, s) && (forall r <- rounds :: FullRound(cfg, r)) && Work(cfg, s) <= |rounds|
    ensures AllStopped(cfg, Exec(cfg, s, Joined(rounds)))
    decreases |rounds|
  {
    NoWorkMeansStopped(cfg, s);
    if AllStopped(cfg, s) {
      StoppedStayStopped(cfg, s, Joined(rounds));
    } else {
      var next := Exec(cfg, s, rounds[0]);
      RoundWorks(cfg, s, rounds[0]);
      assert Work(cfg, next) <= |rounds[1..]|;
      RoundsFinish(cfg, next, rounds[1..]);
      ExecAppend(cfg, s, rounds[0], Joined(rounds[1..]));
    }
  }

  /** One such round: the feed, then the handlers in turn. */
  lemma RoundRobin(cfg: Config, round: seq<Thread>)
    requires |round| == |cfg.stocks| + 1 && round[0] == FeedThread
    requires forall c: nat :: c < |cfg.stocks| ==> round[c + 1] == HandlerThread(c)
    ensures FullRound(cfg, round)
  {
    forall c: nat | c < |cfg.stocks| ensures HandlerThread(c) in round {
      assert round[c + 1] == HandlerThread(c);
    }
  }

  /** How many rounds are enough, for `k` handlers and a ring of `cap` slots. */
  function EnoughRounds(cfg: Config, k: nat, cap: nat): nat {
    var push := k + cap + 1;
    Reps(|cfg.frames| + 1, 6 * push + 1) + 3 * push + Reps(k, |cfg.frames| * (FRAME_STEPS + 1) + FRAME_STEPS)
  }

  lemma {:induction false} StartingHandlers(cfg: Config, s: System, n: nat)
    requires Start(cfg, s) && n <= |cfg.stocks|
    ensures HandlersWork(cfg, s, n) == Reps(n, |cfg.frames| * (FRAME_STEPS + 1) + FRAME_STEPS)
  {
    if n > 0 {
      StartingHandlers(cfg, s, n - 1);
      assert s.ring.consumers[n - 1] == Consumer(Idle, 0, 0, []);
    }
  }

  lemma StartingWork(cfg: Config, s: System)
    requires Start(cfg, s)
    ensures Work(cfg, s) == EnoughRounds(cfg, |cfg.stocks|, |s.ring.buffer|)
  {
    StartingHandlers(cfg, s, |cfg.stocks|);
    assert AllRead(s) by {
      forall c | 0 <= c < |s.ring.consumers| ensures s.ring.consumers[c].read == s.ring.write {
        assert s.ring.consumers[c] == Consumer(Idle, 0, 0, []);
      }
    }
  }

  /** Termination under fairness: every schedule that begins with `EnoughRounds` rounds, in each of which every thread
      runs, stops every handler, however the scheduler orders and repeats the threads. Those for which the closed flag
      was set when they loaded the write index last have consumed the whole feed. */
  lemma FairSchedulesFinish(cfg: Config, s: System, rounds: seq<seq<Thread>>, rest: seq<Thread>)
    requires Start(cfg, s) && GoodConfig(cfg, |s.ring.buffer|)
    requires forall r <- rounds :: FullRound(cfg, r)
    requires |rounds| >= EnoughRounds(cfg, |cfg.stocks|, |s.ring.buffer|)
    ensures var end := Exec(cfg, s, Joined(rounds) + rest);
            forall c :: 0 <= c < |cfg.stocks| ==>
              end.handlers[c].phase.Stopped? &&
              (end.handlers[c].phase.flagWasSet ==> end.handlers[c].frames == |cfg.frames|)
  {
    StartHolds(cfg, s);
    ExecHolds(cfg, s, Joined(rounds) + rest);
    StartingWork(cfg, s);
    RoundsFinish(cfg, s, rounds);
    ExecHolds(cfg, s, Joined(rounds));
    StoppedStayStopped(cfg, Exec(cfg, s, Joined(rounds)), rest);
    ExecAppend(cfg, s, Joined(rounds), rest);
    var end := Exec(cfg, s, Joined(rounds) + rest);
    forall c | 0 <= c < |cfg.stocks| && end.handlers[c].phase.flagWasSet
      ensures end.handlers[c].frames == |cfg.frames|
    {
      assert HandlerHolds(cfg, end, c);
    }
  }
}
