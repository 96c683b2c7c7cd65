/** The pipeline cannot get stuck: from every reachable state some schedule delivers the rest of the feed and
    stops every handler. */
module PipelineProgress {
  import opened BigEndian
  import opened Framing
  import opened Itch
  import opened SpmcProtocol
  import opened Pipeline
  import opened PipelineInvariant

  lemma {:induction false} ExecAppend(cfg: Config, s: System, a: seq<Thread>, b: seq<Thread>)
    requires Shaped(cfg, s)
    ensures Exec(cfg, s, a + b) == Exec(cfg, Exec(cfg, s, a), b)
    decreases |a|
  {
    if a == [] {
      assert a + b == b;
    } else {
      var next := ExecFirst(cfg, s, a, b);
      ExecAppend(cfg, next, a[1..], b);
    }
  }

  lemma ExecFirst(cfg: Config, s: System, a: seq<Thread>, b: seq<Thread>) returns (next: System)
    requires Shaped(cfg, s) && a != []
    ensures Shaped(cfg, next)
    ensures Exec(cfg, s, a) == Exec(cfg, next, a[1..]) && Exec(cfg, s, a + b) == Exec(cfg, next, a[1..] + b)
  {
    next := StepThread(cfg, s, a[0]);
    var all := a + b;
    assert all[0] == a[0] && all[1..] == a[1..] + b;
  }

  lemma ExecOne(cfg: Config, s: System, t: Thread, rest: seq<Thread>)
    requires Shaped(cfg, s)
    ensures Exec(cfg, s, [t] + rest) == Exec(cfg, StepThread(cfg, s, t), rest)
  {
    assert ([t] + rest)[1..] == rest;
  }

  // ----- driving one handler -----

  /** A handler between polls that has read all there is. */
  predicate Quiet(s: System, c: nat)
    requires c < |s.handlers| == |s.ring.consumers|
  {
    s.handlers[c].phase.AtSize? && s.ring.consumers[c].pc.Idle? && s.ring.consumers[c].read == s.ring.write
  }

  predicate Resting(s: System, c: nat)
    requires c < |s.handlers| == |s.ring.consumers|
  {
    s.handlers[c].phase.Stopped? || (Quiet(s, c) && !s.ring.closed)
  }

  /** A handler that has not been, and is not about to be, told "closed" on the strength of an index it loaded
      before the flag was set. */
  predicate Safe(s: System, c: nat)
    requires c < |s.handlers| == |s.ring.consumers|
  {
    var h, pc := s.handlers[c], s.ring.consumers[c].pc;
    && !(h.phase.Stopped? && !h.phase.flagWasSet)
    && !(pc.LoadingFlag? && !pc.flagWasSet && s.ring.closed)
    && !(pc.Finished? && pc.outcome.Closed? && !pc.outcome.flagWasSet)
  }

  function PhaseRank(phase: Phase): nat {
    match phase
    case AtSize => 3
    case AtHeader(_) => 2
    case AtBody(_, _) => 1
    case AtSkip(_) => 1
    case _ => 0
  }

  /** Steps left before the phase changes or the handler rests. */
  function PcRank(s: System, c: nat): nat
    requires c < |s.handlers| == |s.ring.consumers|
  {
    var me := s.ring.consumers[c];
    var more := !s.handlers[c].phase.AtSize? || me.read < s.ring.write || s.ring.closed;
    match me.pc
    case Idle => if more then 4 else 0
    case LoadingIndex(_, _) => 3
    case LoadingFlag(_, _, _) => if more && !s.ring.closed then 6 else 2
    case Copying(_, _, _) => 2
    case Finished(_, outcome) => if outcome.Insufficient? && more then 5 else 1
  }

  function SlotsLeft(pc: ConsumerPc<Byte>): nat {
    if pc.Copying? && |pc.got| <= NeededSlots(pc.op) then NeededSlots(pc.op) - |pc.got| else 0
  }

  ghost predicate Lower(cfg: Config, s: System, s': System, c: nat)
    requires Shaped(cfg, s) && Shaped(cfg, s') && c < |cfg.stocks|
  {
    var h, h' := s.handlers[c], s'.handlers[c];
    h'.frames > h.frames ||
    (h'.frames == h.frames &&
     (PhaseRank(h'.phase) < PhaseRank(h.phase) ||
      (PhaseRank(h'.phase) == PhaseRank(h.phase) &&
       (PcRank(s', c) < PcRank(s, c) ||
        (PcRank(s', c) == PcRank(s, c) && SlotsLeft(s'.ring.consumers[c].pc) < SlotsLeft(s.ring.consumers[c].pc))))))
  }

  /** Between polls the handler has either read everything or has a whole frame before it. */
  lemma WaitingBytes(cfg: Config, s: System, c: nat)
    requires Holds(cfg, s) && c < |cfg.stocks| && s.handlers[c].phase.AtSize? && !Answered(s.ring.consumers[c].pc)
    ensures var me := s.ring.consumers[c]; me.read == s.ring.write || s.ring.write - me.read >= 13
    ensures s.ring.consumers[c].cachedWrite - s.ring.consumers[c].read < 2 ==>
              s.ring.consumers[c].cachedWrite == s.ring.consumers[c].read
  {
    LocalOf(cfg, s, c);
    var me := s.ring.consumers[c];
    WaitingFrames(cfg.frames, Published(s), s.handlers[c].frames, me.read, me.cachedWrite, s.ring.write);
  }

  lemma WaitingFrames(frames: seq<Frame>, p: nat, k: nat, read: nat, cached: nat, write: nat)
    requires forall i :: 0 <= i < |frames| ==> FrameOk(frames[i])
    requires k <= p <= |frames| && read == Offset(frames, k) && write == Offset(frames, p)
    requires IsBoundary(frames, p, cached) && read <= cached <= write
    ensures (read == write || write - read >= 13) && (cached - read < 2 ==> cached == read)
  {
    if k < p {
      OffsetStep(frames, k);
      OffsetMonotone(frames, k + 1, p);
      if read < cached {
        CacheCoversFrame(frames, p, k, cached);
      }
    }
  }

  /** In the middle of a frame no index is loaded in vain and no operation fails. */
  lemma MidFrame(cfg: Config, s: System, c: nat)
    requires Holds(cfg, s) && c < |cfg.stocks| && Progress(s.handlers[c].phase) > 0
    ensures var me := s.ring.consumers[c];
            && !me.pc.LoadingIndex? && !me.pc.LoadingFlag?
            && (me.pc.Idle? ==>
                  && NextOp(s.handlers[c].phase).Some?
                  && me.cachedWrite - me.read >= NextOp(s.handlers[c].phase).value.count)
            && (me.pc.Finished? ==> Answered(me.pc))
  {
    LocalOf(cfg, s, c);
    CacheCoversFrame(cfg.frames, Published(s), s.handlers[c].frames, s.ring.consumers[c].cachedWrite);
  }

  lemma IdleAdvances(cfg: Config, s: System, c: nat)
    requires Holds(cfg, s) && c < |cfg.stocks| && !Resting(s, c) && s.ring.consumers[c].pc.Idle?
    ensures Lower(cfg, s, StepHandler(s, c, cfg.stocks[c].target), c)
  {
    assert HandlerHolds(cfg, s, c);
    HandlerStepReplaces(s, c, cfg.stocks[c].target);
    if Progress(s.handlers[c].phase) > 0 {
      MidFrame(cfg, s, c);
    }
  }

  lemma LoadAdvances(cfg: Config, s: System, c: nat)
    requires Holds(cfg, s) && c < |cfg.stocks|
    requires s.ring.consumers[c].pc.LoadingIndex? || s.ring.consumers[c].pc.LoadingFlag?
    ensures Lower(cfg, s, StepHandler(s, c, cfg.stocks[c].target), c)
  {
    LocalOf(cfg, s, c);
    HandlerStepReplaces(s, c, cfg.stocks[c].target);
    if Progress(s.handlers[c].phase) > 0 {
      MidFrame(cfg, s, c);
    } else {
      WaitingBytes(cfg, s, c);
    }
  }

  lemma CopyAdvances(cfg: Config, s: System, c: nat)
    requires Shaped(cfg, s) && c < |cfg.stocks| && s.ring.consumers[c].pc.Copying?
    requires |s.ring.consumers[c].pc.got| <= NeededSlots(s.ring.consumers[c].pc.op)
    ensures Lower(cfg, s, StepHandler(s, c, cfg.stocks[c].target), c)
  {
    HandlerStepReplaces(s, c, cfg.stocks[c].target);
  }

  lemma ResumeAdvances(cfg: Config, s: System, c: nat)
    requires Shaped(cfg, s) && c < |cfg.stocks| && s.ring.consumers[c].pc.Finished?
    requires var h, pc := s.handlers[c], s.ring.consumers[c].pc;
             Progress(h.phase) == 0 ==> h.phase.AtSize? && !pc.outcome.Skipped?
    requires var h, pc := s.handlers[c], s.ring.consumers[c].pc;
             Progress(h.phase) > 0 ==>
               Answered(pc) && (h.phase.AtSkip? <==> pc.outcome.Skipped?)
               && !Resume(h, cfg.stocks[c].target, pc.outcome).phase.Faulted?
    ensures Lower(cfg, s, StepHandler(s, c, cfg.stocks[c].target), c)
  {
    HandlerStepReplaces(s, c, cfg.stocks[c].target);
  }

  lemma ResumeIsClean(cfg: Config, s: System, c: nat)
    requires Holds(cfg, s) && c < |cfg.stocks| && s.ring.consumers[c].pc.Finished?
    ensures var h, pc := s.handlers[c], s.ring.consumers[c].pc;
            && !Resume(h, cfg.stocks[c].target, pc.outcome).phase.Faulted?
            && (Progress(h.phase) == 0 ==> h.phase.AtSize? && !pc.outcome.Skipped?)
            && (Progress(h.phase) > 0 ==> Answered(pc) && (h.phase.AtSkip? <==> pc.outcome.Skipped?))
  {
    var h, me := s.handlers[c], s.ring.consumers[c];
    LocalOf(cfg, s, c);
    ResumeHolds(cfg.frames, Published(s), cfg.stocks[c], s.ring, h, me);
    if Progress(h.phase) > 0 {
      MidFrame(cfg, s, c);
    }
  }

  lemma HandlerAdvances(cfg: Config, s: System, c: nat)
    requires Holds(cfg, s) && c < |cfg.stocks| && !Resting(s, c)
    ensures Lower(cfg, s, StepHandler(s, c, cfg.stocks[c].target), c)
  {
    match s.ring.consumers[c].pc
    case Idle => IdleAdvances(cfg, s, c);
    case LoadingIndex(_, _) => LoadAdvances(cfg, s, c);
    case LoadingFlag(_, _, _) => LoadAdvances(cfg, s, c);
    case Copying(_, _, _) =>
      assert ConsumerHolds(s.ring, s.ring.consumers[c]);
      CopyAdvances(cfg, s, c);
    case Finished(_, _) =>
      ResumeIsClean(cfg, s, c);
      ResumeAdvances(cfg, s, c);
  }

  lemma HandlerStaysSafe(cfg: Config, s: System, c: nat)
    requires Holds(cfg, s) && c < |cfg.stocks| && Safe(s, c)
    ensures Safe(StepHandler(s, c, cfg.stocks[c].target), c)
  {
    HandlerStepReplaces(s, c, cfg.stocks[c].target);
    assert HandlerHolds(cfg, s, c);
  }

  /** Everything but handler `c` and its consumer is the same. */
  ghost predicate OnlyHandlerMoved(cfg: Config, s: System, s': System, c: nat)
    requires Shaped(cfg, s) && Shaped(cfg, s')
  {
    && s'.feed == s.feed && s'.ring.buffer == s.ring.buffer && s'.ring.write == s.ring.write
    && s'.ring.closed == s.ring.closed && s'.ring.producer == s.ring.producer && s'.ring.history == s.ring.history
    && forall d :: 0 <= d < |cfg.stocks| && d != c ==>
         s'.handlers[d] == s.handlers[d] && s'.ring.consumers[d] == s.ring.consumers[d]
  }

  /** Run alone, a handler reads all there is and comes to rest, or stops if the stream is closed. */
  lemma {:induction false} DriveHandler(cfg: Config, s: System, c: nat) returns (schedule: seq<Thread>)
    requires Holds(cfg, s) && c < |cfg.stocks|
    ensures var t := Exec(cfg, s, schedule);
            Holds(cfg, t) && Resting(t, c) && OnlyHandlerMoved(cfg, s, t, c) && (Safe(s, c) ==> Safe(t, c))
    decreases |cfg.frames| - s.handlers[c].frames, PhaseRank(s.handlers[c].phase), PcRank(s, c),
              SlotsLeft(s.ring.consumers[c].pc)
  {
    if Resting(s, c) {
      schedule := [];
    } else {
      var s' := StepThread(cfg, s, HandlerThread(c));
      HandlerStepHolds(cfg, s, c);
      HandlerAdvances(cfg, s, c);
      HandlerStepReplaces(s, c, cfg.stocks[c].target);
      if Safe(s, c) { HandlerStaysSafe(cfg, s, c); }
      assert HandlerHolds(cfg, s', c);
      var rest := DriveHandler(cfg, s', c);
      ExecOne(cfg, s, HandlerThread(c), rest);
      schedule := [HandlerThread(c)] + rest;
    }
  }

  // ----- driving all handlers -----

  ghost predicate OnlyHandlersMoved(cfg: Config, s: System, s': System)
    requires Shaped(cfg, s) && Shaped(cfg, s')
  {
    && s'.feed == s.feed && s'.ring.buffer == s.ring.buffer && s'.ring.write == s.ring.write
    && s'.ring.closed == s.ring.closed && s'.ring.producer == s.ring.producer && s'.ring.history == s.ring.history
  }

  /** Handlers at rest stay at rest, and safe ones safe, while another one moves. */
  lemma RestStays(cfg: Config, s: System, t: System, c: nat)
    requires Shaped(cfg, s) && Shaped(cfg, t) && OnlyHandlerMoved(cfg, s, t, c)
    ensures forall d :: 0 <= d < |cfg.stocks| && d != c && Resting(s, d) ==> Resting(t, d)
    ensures forall d :: 0 <= d < |cfg.stocks| && d != c && Safe(s, d) ==> Safe(t, d)
  {
  }

  lemma {:induction false} DriveAll(cfg: Config, s: System, n: nat) returns (schedule: seq<Thread>)
    requires Holds(cfg, s) && n <= |cfg.stocks|
    ensures var t := Exec(cfg, s, schedule);
            && Holds(cfg, t) && OnlyHandlersMoved(cfg, s, t)
            && (forall c :: 0 <= c < n ==> Resting(t, c))
            && (forall c :: 0 <= c < |cfg.stocks| && Safe(s, c) ==> Safe(t, c))
  {
    if n == 0 {
      schedule := [];
    } else {
      var first := DriveAll(cfg, s, n - 1);
      var mid := Exec(cfg, s, first);
      var last := DriveHandler(cfg, mid, n - 1);
      ExecAppend(cfg, s, first, last);
      schedule := first + last;
      RestStays(cfg, mid, Exec(cfg, mid, last), n - 1);
    }
  }

  // ----- driving the feed -----

  /** All consumers stand at index `r`. */
  ghost predicate AllAt(s: System, r: nat) {
    forall c :: 0 <= c < |s.ring.consumers| ==> s.ring.consumers[c].read == r
  }

  ghost predicate AllRead(s: System) {
    AllAt(s, s.ring.write)
  }

  function FeedRank(pc: ProducerPc<Byte>): nat {
    match pc
    case Scanning(_, _, _, _) => 3
    case Writing(_, _, _) => 2
    case Returned(_, _) => 1
    case Ready => 0
  }

  function FeedLeft(s: System): nat {
    match s.ring.producer.pc
    case Scanning(_, _, k, _) => if k <= |s.ring.consumers| then |s.ring.consumers| - k else 0
    case Writing(items, _, i) => if i <= |items| then |items| - i else 0
    case _ => 0
  }

  /** The push under way will succeed: it has its room, or its scan will find that everybody is at `r` and the items
      fit behind that. */
  ghost predicate WillSucceed(s: System, r: nat) {
    match s.ring.producer.pc
    case Writing(_, _, _) => true
    case Scanning(items, at, _, low) =>
      AllAt(s, r) && at + |items| <= r + |s.ring.buffer| && (low.Some? ==> low.value == r)
    case Returned(_, response) => response.Success?
    case Ready => false
  }

  lemma FeedAdvances(cfg: Config, s: System, r: nat)
    requires Holds(cfg, s) && !s.ring.producer.pc.Ready?
    ensures var s' := StepFeed(s);
            && (FeedRank(s'.ring.producer.pc) < FeedRank(s.ring.producer.pc) ||
                (FeedRank(s'.ring.producer.pc) == FeedRank(s.ring.producer.pc) && FeedLeft(s') < FeedLeft(s)))
            && s'.ring.closed == s.ring.closed
            && s'.feed.pushed == s.feed.pushed + (if s.ring.producer.pc.Returned? && WillSucceed(s, r) then 1 else 0)
            && (!s.ring.producer.pc.Returned? && WillSucceed(s, r) ==> WillSucceed(s', r))
  {
  }

  /** Run alone, the feed finishes the push it is in. */
  lemma {:induction false} FinishPush(cfg: Config, s: System, r: nat) returns (schedule: seq<Thread>)
    requires Holds(cfg, s)
    ensures s.ring.producer.pc.Ready? ==> schedule == []
    ensures var t := Exec(cfg, s, schedule);
            && Holds(cfg, t) && t.ring.producer.pc.Ready? && t.ring.closed == s.ring.closed
            && t.handlers == s.handlers && t.ring.consumers == s.ring.consumers
            && (WillSucceed(s, r) ==> t.feed.pushed == s.feed.pushed + 1)
    decreases FeedRank(s.ring.producer.pc), FeedLeft(s)
  {
    if s.ring.producer.pc.Ready? {
      schedule := [];
    } else {
      var s' := StepThread(cfg, s, FeedThread);
      FeedAdvances(cfg, s, r);
      FeedStepHolds(cfg, s);
      FeedStepLeavesHandlers(s);
      var rest := FinishPush(cfg, s', r);
      ExecOne(cfg, s, FeedThread, rest);
      schedule := [FeedThread] + rest;
    }
  }

  // ----- the whole feed -----

  /** Everything published has been read, and nobody is in the middle of anything. */
  ghost predicate Calm(cfg: Config, s: System) {
    && Holds(cfg, s) && !s.ring.closed && s.ring.producer.pc.Ready?
    && forall c :: 0 <= c < |cfg.stocks| ==> Quiet(s, c)
  }

  lemma RestingIsQuiet(cfg: Config, s: System)
    requires Holds(cfg, s) && !s.ring.closed && forall c :: 0 <= c < |cfg.stocks| ==> Resting(s, c)
    ensures forall c :: 0 <= c < |cfg.stocks| ==> Quiet(s, c)
  {
    forall c | 0 <= c < |cfg.stocks| ensures Quiet(s, c) {
      assert Resting(s, c);
      assert HandlerHolds(cfg, s, c);
    }
  }

  lemma BecomeCalm(cfg: Config, s: System) returns (schedule: seq<Thread>)
    requires Holds(cfg, s) && !s.ring.closed
    ensures Calm(cfg, Exec(cfg, s, schedule))
    ensures s.ring.producer.pc.Ready? ==> Exec(cfg, s, schedule).feed.pushed == s.feed.pushed
    ensures forall c :: 0 <= c < |cfg.stocks| && Safe(s, c) ==> Safe(Exec(cfg, s, schedule), c)
  {
    var push := FinishPush(cfg, s, 0);
    var drive := DriveAll(cfg, Exec(cfg, s, push), |cfg.stocks|);
    ExecAppend(cfg, s, push, drive);
    schedule := push + drive;
    RestingIsQuiet(cfg, Exec(cfg, s, schedule));
  }

  lemma StartsPushing(cfg: Config, s: System, r: nat)
    requires Holds(cfg, s) && AllAt(s, r) && !s.ring.closed && s.ring.producer.pc.Ready? && s.feed.pushed < |cfg.frames|
    requires Offset(cfg.frames, s.feed.pushed + 1) <= r + |s.ring.buffer|
    ensures WillSucceed(StepFeed(s), r) && StepFeed(s).feed.pushed == s.feed.pushed && !StepFeed(s).ring.closed
  {
    ReadyStep(cfg, s);
    OffsetStep(cfg.frames, s.feed.pushed);
    assert |cfg.frames[s.feed.pushed]| <= |s.ring.buffer|;
  }

  /** With everybody at `r` and room for the next frame behind that, its push succeeds, whatever stale minimum the
      producer starts from. */
  lemma PushOne(cfg: Config, s: System, r: nat) returns (schedule: seq<Thread>)
    requires Holds(cfg, s) && AllAt(s, r) && !s.ring.closed && s.ring.producer.pc.Ready? && s.feed.pushed < |cfg.frames|
    requires Offset(cfg.frames, s.feed.pushed + 1) <= r + |s.ring.buffer|
    ensures var t := Exec(cfg, s, schedule);
            && Holds(cfg, t) && t.ring.producer.pc.Ready? && !t.ring.closed
            && t.handlers == s.handlers && t.ring.consumers == s.ring.consumers
            && t.feed.pushed == s.feed.pushed + 1
  {
    StartsPushing(cfg, s, r);
    FeedStepHolds(cfg, s);
    FeedStepLeavesHandlers(s);
    var rest := FinishPush(cfg, StepThread(cfg, s, FeedThread), r);
    ExecOne(cfg, s, FeedThread, rest);
    schedule := [FeedThread] + rest;
  }

  /** With everything read, the next frame finds room. */
  lemma NextFits(cfg: Config, s: System)
    requires Holds(cfg, s) && AllRead(s) && s.ring.producer.pc.Ready? && s.feed.pushed < |cfg.frames|
    ensures Offset(cfg.frames, s.feed.pushed + 1) <= s.ring.write + |s.ring.buffer|
  {
    OffsetStep(cfg.frames, s.feed.pushed);
    assert |cfg.frames[s.feed.pushed]| <= |s.ring.buffer|;
  }

  /** From a calm state the feed can be delivered up to any frame. */
  lemma {:induction false} DeliverUpTo(cfg: Config, s: System, m: nat) returns (schedule: seq<Thread>)
    requires Calm(cfg, s) && s.feed.pushed <= m <= |cfg.frames|
    ensures Calm(cfg, Exec(cfg, s, schedule)) && Exec(cfg, s, schedule).feed.pushed == m
    ensures forall c :: 0 <= c < |cfg.stocks| && Safe(s, c) ==> Safe(Exec(cfg, s, schedule), c)
    decreases m - s.feed.pushed
  {
    if s.feed.pushed == m {
      schedule := [];
    } else {
      assert AllRead(s) by {
        forall c | 0 <= c < |cfg.stocks| ensures s.ring.consumers[c].read == s.ring.write { assert Quiet(s, c); }
      }
      NextFits(cfg, s);
      var push := PushOne(cfg, s, s.ring.write);
      var t := Exec(cfg, s, push);
      var calm := BecomeCalm(cfg, t);
      ExecAppend(cfg, s, push, calm);
      var rest := DeliverUpTo(cfg, Exec(cfg, t, calm), m);
      ExecAppend(cfg, s, push + calm, rest);
      schedule := push + calm + rest;
    }
  }

  lemma CloseStep(cfg: Config, s: System)
    requires Holds(cfg, s) && s.ring.producer.pc.Ready? && s.feed.pushed == |cfg.frames|
    ensures var t := StepThread(cfg, s, FeedThread);
            && t.ring.closed && t.handlers == s.handlers && t.ring.consumers == s.ring.consumers
            && t.ring.write == s.ring.write
  {
    NextIsNextFrame(cfg.frames, s.feed.pushed);
  }

  ghost predicate AllStopped(cfg: Config, s: System)
    requires Shaped(cfg, s)
  {
    forall c :: 0 <= c < |cfg.stocks| ==> s.handlers[c].phase.Stopped?
  }

  lemma StopAll(cfg: Config, s: System) returns (schedule: seq<Thread>)
    requires Holds(cfg, s) && s.ring.closed
    ensures Holds(cfg, Exec(cfg, s, schedule)) && AllStopped(cfg, Exec(cfg, s, schedule))
    ensures forall c :: 0 <= c < |cfg.stocks| && Safe(s, c) ==> Safe(Exec(cfg, s, schedule), c)
  {
    schedule := DriveAll(cfg, s, |cfg.stocks|);
    var t := Exec(cfg, s, schedule);
    forall c | 0 <= c < |cfg.stocks| ensures t.handlers[c].phase.Stopped? { assert Resting(t, c); }
  }

  lemma CloseAndStop(cfg: Config, s: System) returns (schedule: seq<Thread>)
    requires Calm(cfg, s) && s.feed.pushed == |cfg.frames|
    ensures Holds(cfg, Exec(cfg, s, schedule)) && AllStopped(cfg, Exec(cfg, s, schedule))
    ensures forall c :: 0 <= c < |cfg.stocks| ==> Safe(Exec(cfg, s, schedule), c)
  {
    CloseStep(cfg, s);
    FeedStepHolds(cfg, s);
    var t := StepThread(cfg, s, FeedThread);
    var stop := StopAll(cfg, t);
    ExecOne(cfg, s, FeedThread, stop);
    schedule := [FeedThread] + stop;
    forall c | 0 <= c < |cfg.stocks| ensures Safe(t, c) { assert Quiet(s, c); }
  }

  lemma FinishFromOpen(cfg: Config, s: System) returns (schedule: seq<Thread>)
    requires Holds(cfg, s) && !s.ring.closed
    ensures Holds(cfg, Exec(cfg, s, schedule)) && AllStopped(cfg, Exec(cfg, s, schedule))
    ensures forall c :: 0 <= c < |cfg.stocks| ==> Safe(Exec(cfg, s, schedule), c)
  {
    var calm := BecomeCalm(cfg, s);
    var s1 := Exec(cfg, s, calm);
    var deliver := DeliverUpTo(cfg, s1, |cfg.frames|);
    var stop := CloseAndStop(cfg, Exec(cfg, s1, deliver));
    ExecAppend(cfg, s1, deliver, stop);
    ExecAppend(cfg, s, calm, deliver + stop);
    schedule := calm + (deliver + stop);
  }

  lemma Finish(cfg: Config, s: System) returns (schedule: seq<Thread>)
    requires Holds(cfg, s)
    ensures Holds(cfg, Exec(cfg, s, schedule)) && AllStopped(cfg, Exec(cfg, s, schedule))
    ensures forall c :: 0 <= c < |cfg.stocks| && Safe(s, c) ==> Safe(Exec(cfg, s, schedule), c)
  {
    if s.ring.closed {
      schedule := StopAll(cfg, s);
    } else {
      schedule := FinishFromOpen(cfg, s);
    }
  }

  lemma SafelyStoppedIsDrained(cfg: Config, s: System, c: nat)
    requires Holds(cfg, s) && AllStopped(cfg, s) && c < |cfg.stocks| && Safe(s, c)
    ensures s.handlers[c].frames == |cfg.frames|
  {
    assert HandlerHolds(cfg, s, c);
  }

  /** No deadlock: after any schedule, some further schedule stops every handler, and each handler that has not
      already lost the race with the close ends up having consumed the whole feed. */
  lemma CanAlwaysFinish(cfg: Config, s: System, soFar: seq<Thread>) returns (schedule: seq<Thread>)
    requires Start(cfg, s) && GoodConfig(cfg, |s.ring.buffer|)
    ensures var now, end := Exec(cfg, s, soFar), Exec(cfg, s, soFar + schedule);
            forall c :: 0 <= c < |cfg.stocks| ==>
              end.handlers[c].phase.Stopped? && (Safe(now, c) ==> end.handlers[c].frames == |cfg.frames|)
  {
    StartHolds(cfg, s);
    ExecHolds(cfg, s, soFar);
    var now := Exec(cfg, s, soFar);
    schedule := Finish(cfg, now);
    ExecAppend(cfg, s, soFar, schedule);
    forall c | 0 <= c < |cfg.stocks| && Safe(now, c)
      ensures Exec(cfg, now, schedule).handlers[c].frames == |cfg.frames|
    {
      SafelyStoppedIsDrained(cfg, Exec(cfg, now, schedule), c);
    }
  }

  // ----- the race with the close -----

  /** What two steps make of a quiet handler's consumer: it has loaded the write index, found nothing, and not
      yet loaded the flag. */
  lemma PollTwiceConsumer(s: System, c: nat, target: seq<Byte>)
    requires |s.ring.buffer| > 0 && c < |s.ring.consumers| == |s.handlers| && Quiet(s, c) && !s.ring.closed
    requires s.ring.consumers[c].cachedWrite <= s.ring.write
    ensures var t := StepHandler(StepHandler(s, c, target), c, target);
            t == s.(ring := WithConsumer(s.ring, c, s.ring.consumers[c].(
                   cachedWrite := s.ring.write, pc := LoadingFlag(Pop(2), s.ring.write, false))))
  {
    var s1 := StepHandler(s, c, target);
    HandlerStepReplaces(s, c, target);
    assert s1.ring.consumers[c] == s.ring.consumers[c].(pc := LoadingIndex(Pop(2), s.ring.write));
    HandlerStepReplaces(s1, c, target);
    var last := s.ring.consumers[c].(cachedWrite := s.ring.write, pc := LoadingFlag(Pop(2), s.ring.write, false));
    assert s1.ring.consumers[c := last] == s.ring.consumers[c := last];
    assert s1.handlers == s.handlers;
  }

  lemma PollTwice(cfg: Config, s: System, c: nat)
    requires Calm(cfg, s) && c < |cfg.stocks|
    ensures var t := Exec(cfg, s, [HandlerThread(c), HandlerThread(c)]);
            && Holds(cfg, t) && OnlyHandlerMoved(cfg, s, t, c) && t.handlers == s.handlers
            && t.ring.consumers[c] == s.ring.consumers[c].(
                 cachedWrite := s.ring.write, pc := LoadingFlag(Pop(2), s.ring.write, false))
  {
    var twice := [HandlerThread(c), HandlerThread(c)];
    assert Quiet(s, c) && ConsumerHolds(s.ring, s.ring.consumers[c]);
    PollTwiceConsumer(s, c, cfg.stocks[c].target);
    ExecHolds(cfg, s, twice);
    ExecOne(cfg, s, HandlerThread(c), [HandlerThread(c)]);
    ExecOne(cfg, StepThread(cfg, s, HandlerThread(c)), HandlerThread(c), []);
  }

  /** Two more steps, after the close: the handler believes it is done. */
  lemma PollTwiceMore(cfg: Config, s: System, c: nat)
    requires Holds(cfg, s) && c < |cfg.stocks| && s.ring.closed && s.handlers[c].phase.AtSize?
    requires s.ring.consumers[c].pc.LoadingFlag? && !s.ring.consumers[c].pc.flagWasSet
    ensures var t := Exec(cfg, s, [HandlerThread(c), HandlerThread(c)]);
            t.handlers[c] == s.handlers[c].(phase := Stopped(false))
  {
    var target := cfg.stocks[c].target;
    var s1 := StepThread(cfg, s, HandlerThread(c));
    HandlerStepReplaces(s, c, target);
    HandlerStepReplaces(s1, c, target);
    ExecOne(cfg, s, HandlerThread(c), [HandlerThread(c)]);
    ExecOne(cfg, s1, HandlerThread(c), []);
  }

  /** While everybody stands at `r`, all the frames up to a buffer's length behind it can be pushed. */
  lemma {:induction false} PushAll(cfg: Config, s: System, r: nat) returns (schedule: seq<Thread>)
    requires Holds(cfg, s) && AllAt(s, r) && !s.ring.closed && s.ring.producer.pc.Ready?
    requires Offset(cfg.frames, |cfg.frames|) <= r + |s.ring.buffer|
    ensures var t := Exec(cfg, s, schedule);
            && Holds(cfg, t) && t.ring.producer.pc.Ready? && !t.ring.closed
            && t.handlers == s.handlers && t.ring.consumers == s.ring.consumers && t.feed.pushed == |cfg.frames|
    decreases |cfg.frames| - s.feed.pushed
  {
    if s.feed.pushed == |cfg.frames| {
      schedule := [];
    } else {
      OffsetMonotone(cfg.frames, s.feed.pushed + 1, |cfg.frames|);
      var one := PushOne(cfg, s, r);
      var rest := PushAll(cfg, Exec(cfg, s, one), r);
      ExecAppend(cfg, s, one, rest);
      schedule := one + rest;
    }
  }

  /** From a calm state the feed pushes all the rest and closes between the handler's two loads. */
  lemma LoseRest(cfg: Config, s: System, c: nat) returns (schedule: seq<Thread>)
    requires Calm(cfg, s) && c < |cfg.stocks| && Offset(cfg.frames, |cfg.frames|) <= s.ring.write + |s.ring.buffer|
    ensures Exec(cfg, s, schedule).handlers[c] == s.handlers[c].(phase := Stopped(false))
  {
    var twice := [HandlerThread(c), HandlerThread(c)];
    PollTwice(cfg, s, c);
    var s1 := Exec(cfg, s, twice);
    assert AllAt(s1, s.ring.write) by {
      forall d | 0 <= d < |cfg.stocks| ensures s1.ring.consumers[d].read == s.ring.write { assert Quiet(s, d); }
    }
    var push := PushAll(cfg, s1, s.ring.write);
    var s2 := Exec(cfg, s1, push);
    CloseStep(cfg, s2);
    FeedStepHolds(cfg, s2);
    var s3 := StepThread(cfg, s2, FeedThread);
    assert Quiet(s, c);
    PollTwiceMore(cfg, s3, c);
    ExecOne(cfg, s2, FeedThread, twice);
    ExecAppend(cfg, s1, push, [FeedThread] + twice);
    ExecAppend(cfg, s, twice, push + ([FeedThread] + twice));
    schedule := twice + (push + ([FeedThread] + twice));
  }

  /** Any rest of the feed that fits into the buffer can be lost. */
  lemma RestCanBeLost(cfg: Config, s: System, c: nat, k: nat) returns (schedule: seq<Thread>)
    requires Start(cfg, s) && GoodConfig(cfg, |s.ring.buffer|) && c < |cfg.stocks| && k <= |cfg.frames|
    requires Offset(cfg.frames, |cfg.frames|) <= Offset(cfg.frames, k) + |s.ring.buffer|
    ensures var end := Exec(cfg, s, schedule); end.handlers[c].phase == Stopped(false) && end.handlers[c].frames == k
  {
    StartHolds(cfg, s);
    var deliver := DeliverUpTo(cfg, s, k);
    var s1 := Exec(cfg, s, deliver);
    assert Quiet(s1, c) && HandlerHolds(cfg, s1, c);
    OffsetIsInjective(cfg.frames, s1.handlers[c].frames, k);
    var lose := LoseRest(cfg, s1, c);
    ExecAppend(cfg, s, deliver, lose);
    schedule := deliver + lose;
  }

  /** And no more than that: what a stopped handler has not consumed fits into the buffer. */
  lemma StoppedRestFits(cfg: Config, s: System, schedule: seq<Thread>, c: nat)
    requires Start(cfg, s) && GoodConfig(cfg, |s.ring.buffer|) && c < |cfg.stocks|
    requires Exec(cfg, s, schedule).handlers[c].phase.Stopped?
    ensures var k := Exec(cfg, s, schedule).handlers[c].frames;
            k <= |cfg.frames| && Offset(cfg.frames, |cfg.frames|) <= Offset(cfg.frames, k) + |s.ring.buffer|
  {
    StartHolds(cfg, s);
    ExecHolds(cfg, s, schedule);
    var t := Exec(cfg, s, schedule);
    assert HandlerHolds(cfg, t, c) && ConsumerHolds(t.ring, t.ring.consumers[c]);
    assert cfg.frames[..|cfg.frames|] == cfg.frames;
  }

  /** Drain on close fails without the ordering of the two loads, exactly so far: some schedule stops a handler after
      `k` frames if and only if the frames it has not consumed then fit into the buffer. */
  lemma StopsShortExactly(cfg: Config, s: System, c: nat, k: nat)
    requires Start(cfg, s) && GoodConfig(cfg, |s.ring.buffer|) && c < |cfg.stocks| && k <= |cfg.frames|
    ensures (exists schedule: seq<Thread> :: StoppedAfter(Exec(cfg, s, schedule), c, k)) <==>
            Offset(cfg.frames, |cfg.frames|) <= Offset(cfg.frames, k) + |s.ring.buffer|
  {
    if Offset(cfg.frames, |cfg.frames|) <= Offset(cfg.frames, k) + |s.ring.buffer| {
      var schedule := RestCanBeLost(cfg, s, c, k);
      assert StoppedAfter(Exec(cfg, s, schedule), c, k);
    }
    if schedule: seq<Thread> :| StoppedAfter(Exec(cfg, s, schedule), c, k) {
      StoppedRestFits(cfg, s, schedule, c);
    }
  }

  predicate StoppedAfter(s: System, c: nat, k: nat) {
    c < |s.handlers| && s.handlers[c].phase.Stopped? && s.handlers[c].frames == k
  }

  /** In particular, for every feed with at least one frame and every handler, some schedule stops that handler one
      frame short of the end. */
  lemma LastFrameCanBeLost(cfg: Config, s: System, c: nat) returns (schedule: seq<Thread>)
    requires Start(cfg, s) && GoodConfig(cfg, |s.ring.buffer|) && c < |cfg.stocks| && cfg.frames != []
    ensures var end := Exec(cfg, s, schedule);
            end.handlers[c].phase == Stopped(false) && end.handlers[c].frames == |cfg.frames| - 1
  {
    OffsetStep(cfg.frames, |cfg.frames| - 1);
    schedule := RestCanBeLost(cfg, s, c, |cfg.frames| - 1);
  }

  lemma OffsetIsInjective(frames: seq<Frame>, j: nat, k: nat)
    requires forall i :: 0 <= i < |frames| ==> FrameOk(frames[i])
    requires j <= k <= |frames| && Offset(frames, j) == Offset(frames, k)
    ensures j == k
  {
    if j < k {
      OffsetStep(frames, j);
      OffsetMonotone(frames, j + 1, k);
    }
  }
}
