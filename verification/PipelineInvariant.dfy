/** The invariant of the pipeline, and the proof that every step of every thread keeps it. */
module PipelineInvariant {
  import opened BigEndian
  import opened Bits
  import opened Options
  import opened Framing
  import opened Itch
  import opened HandlerCore
  import opened SpmcProtocol
  import opened Pipeline

  // ----- the invariant -----

  /** How many frames the ring's history holds. */
  function Published(s: System): nat {
    s.feed.pushed +
    if s.ring.producer.pc.Returned? && s.ring.producer.pc.response.Success? then 1 else 0
  }

  ghost predicate IsBoundary(frames: seq<Frame>, p: nat, x: nat) {
    exists q: nat :: q <= p && q <= |frames| && x == Offset(frames, q)
  }

  ghost predicate FeedHolds(cfg: Config, s: System) {
    var pc, feed := s.ring.producer.pc, s.feed;
    && Published(s) <= |cfg.frames|
    && s.ring.history == Flatten(cfg.frames[..Published(s)])
    && (feed.pending.None? ==> pc.Ready? && feed.rest == Flatten(cfg.frames[feed.pushed..]))
    && (feed.pending.Some? ==>
          && feed.pushed < |cfg.frames| && feed.pending.value == cfg.frames[feed.pushed]
          && feed.rest == Flatten(cfg.frames[feed.pushed + 1..])
          && (!pc.Ready? ==> pc.items == feed.pending.value))
    && (s.ring.closed ==> feed.pending.None? && feed.rest == [] && Published(s) == |cfg.frames|)
  }

  /** How far into its current frame a handler has read before the next operation. */
  function Progress(phase: Phase): nat {
    match phase
    case AtHeader(_) => 2
    case AtBody(_, _) => 13
    case AtSkip(_) => 13
    case _ => 0
  }

  /** What a handler knows about the frame it is in the middle of. */
  ghost predicate PhaseHolds(h: Handler, f: Frame) {
    FrameOk(f) &&
    match h.phase
    case AtHeader(size) => size == |f| - 2
    case AtBody(t, locate) => t == TypeOf(f) && locate == LocateOf(f) && !SkipsBody(h.core, t, locate)
    case AtSkip(rest) => rest == |f| - 13 && SkipsBody(h.core, TypeOf(f), LocateOf(f))
    case _ => true
  }

  ghost predicate Answered(pc: ConsumerPc<Byte>) {
    pc.Finished? && (pc.outcome.Popped? || pc.outcome.Skipped?)
  }

  /** A handler and its consumer, when the first `p` frames are published: the handler's state is what it has
      made of its first `h.frames` frames, and the read index stands where its phase says. */
  ghost predicate Situated(
      frames: seq<Frame>, p: nat, stock: Stock, closed: bool, h: Handler, me: Consumer<Byte>)
    requires forall i :: 0 <= i < |frames| ==> FrameOk(frames[i])
  {
    && h.frames <= p <= |frames|
    && IsBoundary(frames, p, me.cachedWrite)
    && Handled(frames[..h.frames], stock.target, stock.initial) == Some(h.core)
    && !h.phase.Faulted?
    && (closed ==> p == |frames|)
    && (h.phase.Stopped? ==>
          && me.pc.Idle? && closed && me.cachedWrite == Offset(frames, h.frames)
          && (h.phase.flagWasSet ==> h.frames == |frames|))
    && (!me.pc.Idle? ==> NextOp(h.phase) == Some(me.pc.op))
    && me.read == Offset(frames, h.frames) + Progress(h.phase) + (if Answered(me.pc) then me.pc.op.count else 0)
    && (Progress(h.phase) > 0 ==> h.frames < p && PhaseHolds(h, frames[h.frames]))
  }

  ghost predicate HandlerHolds(cfg: Config, s: System, c: nat)
    requires Shaped(cfg, s) && c < |cfg.stocks|
    requires forall i :: 0 <= i < |cfg.frames| ==> FrameOk(cfg.frames[i])
  {
    Situated(cfg.frames, Published(s), cfg.stocks[c], s.ring.closed, s.handlers[c], s.ring.consumers[c])
  }

  ghost predicate Holds(cfg: Config, s: System) {
    && Shaped(cfg, s) && Inv(s.ring) && GoodConfig(cfg, |s.ring.buffer|)
    && (forall i :: 0 <= i < |cfg.frames| ==> FrameOk(cfg.frames[i]))
    && FeedHolds(cfg, s)
    && forall c :: 0 <= c < |cfg.stocks| ==> HandlerHolds(cfg, s, c)
  }

  // ----- every thread step keeps it -----

  lemma StartHolds(cfg: Config, s: System)
    requires Start(cfg, s) && GoodConfig(cfg, |s.ring.buffer|)
    ensures Holds(cfg, s)
  {
    InitHolds(s.ring);
    var first := cfg.stocks[0];
    PrefixIsWellFormed(cfg.frames, first.target, first.locate, first.initial, 0);
    assert cfg.frames[0..] == cfg.frames && cfg.frames[..0] == [];
    forall c | 0 <= c < |cfg.stocks| ensures HandlerHolds(cfg, s, c) {
      assert s.ring.consumers[c] == Consumer(Idle, 0, 0, []);
      assert 0 == Offset(cfg.frames, 0);
    }
  }

  /** A handler's situation does not change when the feed or other handlers move. */
  lemma HandlerUndisturbed(cfg: Config, s: System, s': System, c: nat)
    requires Shaped(cfg, s) && Shaped(cfg, s') && c < |cfg.stocks|
    requires forall i :: 0 <= i < |cfg.frames| ==> FrameOk(cfg.frames[i])
    requires HandlerHolds(cfg, s, c)
    requires s'.handlers[c] == s.handlers[c] && s'.ring.consumers[c] == s.ring.consumers[c]
    requires Published(s) <= Published(s') <= |cfg.frames| && (s.ring.closed ==> s'.ring.closed)
    requires s'.ring.closed ==> Published(s') == |cfg.frames|
    ensures HandlerHolds(cfg, s', c)
  {
  }

  /** The next frame that the source gives out is the next one of the file. */
  lemma NextIsNextFrame(frames: seq<Frame>, k: nat)
    requires forall i :: 0 <= i < |frames| ==> FrameOk(frames[i])
    requires k <= |frames|
    ensures var rest := Flatten(frames[k..]);
            if k == |frames| then NextFrame(rest) == StreamClosed && rest == []
            else NextFrame(rest) == DataFrame(frames[k]) && |frames[k]| <= |rest|
                 && rest[|frames[k]|..] == Flatten(frames[k + 1..])
  {
    if k < |frames| {
      FlattenCons(frames[k..]);
      assert frames[k..][1..] == frames[k + 1..];
      NextOfPrefixed(frames[k], Flatten(frames[k + 1..]));
    }
  }

  lemma TakesNextFrame(cfg: Config, s: System)
    requires |s.ring.buffer| > 0 && FeedHolds(cfg, s) && s.ring.producer.pc.Ready? && s.feed.pending.None?
    requires forall i :: 0 <= i < |cfg.frames| ==> FrameOk(cfg.frames[i])
    ensures var k := s.feed.pushed;
            StepFeed(s) ==
              if k < |cfg.frames| then
                s.(ring := s.ring.(producer := s.ring.producer.(pc := StartPushing(s.ring, cfg.frames[k]))),
                   feed := Feed(Flatten(cfg.frames[k + 1..]), Some(cfg.frames[k]), k))
              else s.(ring := s.ring.(closed := true))
  {
    NextIsNextFrame(cfg.frames, s.feed.pushed);
  }

  /** Between two attempts the feed pushes the next frame, or closes. */
  lemma ReadyStep(cfg: Config, s: System)
    requires |s.ring.buffer| > 0 && FeedHolds(cfg, s) && s.ring.producer.pc.Ready? && !s.ring.closed
    requires forall i :: 0 <= i < |cfg.frames| ==> FrameOk(cfg.frames[i])
    ensures var k, s' := s.feed.pushed, StepFeed(s);
            && k <= |cfg.frames| && s'.feed.pushed == k
            && s'.ring == if k < |cfg.frames| then
                            s.ring.(producer := s.ring.producer.(pc := StartPushing(s.ring, cfg.frames[k])))
                          else s.ring.(closed := true)
  {
    if s.feed.pending.None? {
      TakesNextFrame(cfg, s);
    }
  }

  lemma NextFrameHolds(cfg: Config, s: System)
    requires |s.ring.buffer| > 0 && FeedHolds(cfg, s) && s.ring.producer.pc.Ready? && s.feed.pending.None?
    requires forall i :: 0 <= i < |cfg.frames| ==> FrameOk(cfg.frames[i])
    ensures FeedHolds(cfg, StepFeed(s)) && Published(StepFeed(s)) == Published(s)
  {
    TakesNextFrame(cfg, s);
    if s.feed.pushed == |cfg.frames| {
      assert cfg.frames[s.feed.pushed..] == [];
    }
  }

  lemma RetryHolds(cfg: Config, s: System)
    requires |s.ring.buffer| > 0 && FeedHolds(cfg, s) && s.ring.producer.pc.Ready? && s.feed.pending.Some?
    ensures FeedHolds(cfg, StepFeed(s)) && Published(StepFeed(s)) == Published(s)
  {
  }

  lemma PublishingHolds(cfg: Config, s: System)
    requires |s.ring.buffer| > 0 && FeedHolds(cfg, s) && !s.ring.closed
    requires s.ring.producer.pc.Scanning? || s.ring.producer.pc.Writing?
    ensures FeedHolds(cfg, StepFeed(s)) && Published(s) <= Published(StepFeed(s))
  {
    OffsetStep(cfg.frames, s.feed.pushed);
  }

  lemma ResponseHolds(cfg: Config, s: System)
    requires |s.ring.buffer| > 0 && FeedHolds(cfg, s) && s.ring.producer.pc.Returned? && !s.ring.closed
    ensures FeedHolds(cfg, StepFeed(s)) && Published(StepFeed(s)) == Published(s)
  {
  }

  lemma FeedStepFeedHolds(cfg: Config, s: System)
    requires Holds(cfg, s)
    ensures FeedHolds(cfg, StepFeed(s)) && Published(s) <= Published(StepFeed(s))
  {
    match s.ring.producer.pc
    case Ready => if s.feed.pending.None? { NextFrameHolds(cfg, s); } else { RetryHolds(cfg, s); }
    case Returned(_, _) => ResponseHolds(cfg, s);
    case _ => PublishingHolds(cfg, s);
  }

  lemma FeedStepKeepsRing(cfg: Config, s: System)
    requires Holds(cfg, s)
    ensures Inv(StepFeed(s).ring)
  {
    match s.ring.producer.pc
    case Ready =>
      if s.feed.pending.Some? {
        StepKeepsInv(s.ring, StartPush(s.feed.pending.value));
      } else {
        var r := NextFrame(s.feed.rest);
        if r.DataFrame? { StepKeepsInv(s.ring, StartPush(r.frame)); }
        StepKeepsInv(s.ring, Close);
      }
    case Returned(_, _) => StepKeepsInv(s.ring, TakeResponse);
    case _ => StepKeepsInv(s.ring, ProducerStep);
  }

  lemma FeedStepLeavesHandlers(s: System)
    requires |s.ring.buffer| > 0
    ensures var s' := StepFeed(s);
            s'.ring.consumers == s.ring.consumers && s'.handlers == s.handlers && (s.ring.closed ==> s'.ring.closed)
            && |s'.ring.buffer| == |s.ring.buffer|
  {
  }

  lemma HandlersUndisturbed(cfg: Config, s: System, s': System)
    requires Holds(cfg, s) && Shaped(cfg, s')
    requires s'.handlers == s.handlers && s'.ring.consumers == s.ring.consumers
    requires Published(s) <= Published(s') <= |cfg.frames| && (s.ring.closed ==> s'.ring.closed)
    requires s'.ring.closed ==> Published(s') == |cfg.frames|
    ensures forall c :: 0 <= c < |cfg.stocks| ==> HandlerHolds(cfg, s', c)
  {
    forall c | 0 <= c < |cfg.stocks| ensures HandlerHolds(cfg, s', c) {
      HandlerUndisturbed(cfg, s, s', c);
    }
  }

  lemma FeedStepHolds(cfg: Config, s: System)
    requires Holds(cfg, s)
    ensures Holds(cfg, StepFeed(s))
  {
    var s' := StepFeed(s);
    FeedStepKeepsRing(cfg, s);
    FeedStepFeedHolds(cfg, s);
    FeedStepLeavesHandlers(s);
    HandlersUndisturbed(cfg, s, s');
  }

  /** Everything one handler's step depends on. */
  ghost predicate Local(frames: seq<Frame>, p: nat, stock: Stock, ring: Ring<Byte>, h: Handler, me: Consumer<Byte>) {
    && (forall i :: 0 <= i < |frames| ==> FrameOk(frames[i]))
    && WellFormedFeed(frames, stock.target, stock.locate, stock.initial)
    && Situated(frames, p, stock, ring.closed, h, me)
    && ring.history == Flatten(frames[..p]) && |ring.history| == ring.write
    && ConsumerHolds(ring, me)
  }

  /** Once past the size bytes, the cached write index covers the whole frame: it is a frame boundary beyond
      the frame's start. */
  lemma CacheCoversFrame(frames: seq<Frame>, p: nat, k: nat, cached: nat)
    requires k < p <= |frames| && IsBoundary(frames, p, cached) && Offset(frames, k) < cached
    ensures Offset(frames, k) + |frames[k]| <= cached <= Offset(frames, p)
  {
    var q: nat :| q <= p && cached == Offset(frames, q);
    if q <= k {
      OffsetMonotone(frames, q, k);
    } else {
      OffsetMonotone(frames, k + 1, q);
      OffsetStep(frames, k);
    }
    OffsetMonotone(frames, q, p);
  }

  /** With a byte beyond the start of frame `k` published, the whole frame is. */
  lemma StartedIsPublished(frames: seq<Frame>, p: nat, k: nat)
    requires k <= p <= |frames| && Offset(frames, k) < |Flatten(frames[..p])|
    ensures k < p
  {
  }

  /** A closed answer at the start of a poll: nothing of a next frame had been published when the index was
      loaded, and nothing at all is missing if the flag was set by then. */
  lemma ResumeOnClosed(frames: seq<Frame>, p: nat, stock: Stock, ring: Ring<Byte>, h: Handler, me: Consumer<Byte>)
    requires Local(frames, p, stock, ring, h, me)
    requires me.pc.Finished? && h.phase.AtSize? && me.pc.outcome.Closed?
    ensures me.cachedWrite == Offset(frames, h.frames)
    ensures me.pc.outcome.flagWasSet ==> h.frames == |frames|
  {
    var k := h.frames;
    if k < p {
      if Offset(frames, k) < me.cachedWrite {
        CacheCoversFrame(frames, p, k, me.cachedWrite);
      }
      OffsetStep(frames, k);
      OffsetMonotone(frames, k + 1, p);
    }
  }

  lemma ResumeAtSize(frames: seq<Frame>, p: nat, stock: Stock, ring: Ring<Byte>, h: Handler, me: Consumer<Byte>)
    requires Local(frames, p, stock, ring, h, me) && me.pc.Finished? && h.phase.AtSize?
    ensures Situated(frames, p, stock, ring.closed, Resume(h, stock.target, me.pc.outcome), me.(pc := Idle))
  {
    if me.pc.outcome.Popped? {
      var k := h.frames;
      StartedIsPublished(frames, p, k);
      FrameInStream(frames, p, k, 0, 2);
      assert me.pc.outcome.items == frames[k][..2];
    } else if me.pc.outcome.Closed? {
      ResumeOnClosed(frames, p, stock, ring, h, me);
    }
  }

  lemma ResumeAtHeader(frames: seq<Frame>, p: nat, stock: Stock, ring: Ring<Byte>, h: Handler, me: Consumer<Byte>)
    requires Local(frames, p, stock, ring, h, me) && me.pc.Finished? && h.phase.AtHeader?
    ensures Situated(frames, p, stock, ring.closed, Resume(h, stock.target, me.pc.outcome), me.(pc := Idle))
  {
    var k := h.frames;
    CacheCoversFrame(frames, p, k, me.cachedWrite);
    FrameInStream(frames, p, k, 2, 13);
    LocateInHeader(me.pc.outcome.items, frames[k]);
    SizeFits(frames[k]);
  }

  lemma LocateInHeader(header: seq<Byte>, f: Frame)
    requires FrameOk(f) && header == f[2..13]
    ensures header[0] == TypeOf(f) && Value(header[1..3]) == LocateOf(f)
  {
    assert header[1] == f[3] && header[2] == f[4];
    assert header[1..3] == [header[1], header[2]] == f[3..5];
  }

  lemma SizeFits(f: Frame)
    requires FrameOk(f)
    ensures (|f| - 2 - HEADER_BYTES) % TWO_TO_64 == |f| - 13 && |f| <= 65537
  {
    assert Limit(2) == 0x1_0000 by { assert Limit(1) == 0x100; }
  }

  /** After its last operation on a frame the handler has handled one frame more. */
  lemma FrameDone(frames: seq<Frame>, p: nat, stock: Stock, h: Handler)
    requires forall i :: 0 <= i < |frames| ==> FrameOk(frames[i])
    requires WellFormedFeed(frames, stock.target, stock.locate, stock.initial)
    requires h.frames < p <= |frames|
    requires Handled(frames[..h.frames], stock.target, stock.initial) == Some(h.core)
    ensures var r := HandleFrame(h.core, stock.target, frames[h.frames]);
            r.Some? && Handled(frames[..h.frames + 1], stock.target, stock.initial) == r
    ensures Offset(frames, h.frames + 1) == Offset(frames, h.frames) + |frames[h.frames]|
  {
    var k := h.frames;
    assert frames[..k + 1][..k] == frames[..k];
    PrefixIsWellFormed(frames, stock.target, stock.locate, stock.initial, k + 1);
    HandlerFollowsFeed(frames[..k + 1], stock.target, stock.locate, stock.initial);
    OffsetStep(frames, k);
  }

  lemma BodyIsTail(f: Frame)
    requires FrameOk(f)
    ensures f[13..|f|] == BodyOf(f)
  {
    assert f[..|f|] == f;
  }

  lemma ResumeAtBody(frames: seq<Frame>, p: nat, stock: Stock, ring: Ring<Byte>, h: Handler, me: Consumer<Byte>)
    requires Local(frames, p, stock, ring, h, me) && me.pc.Finished? && h.phase.AtBody?
    ensures Situated(frames, p, stock, ring.closed, Resume(h, stock.target, me.pc.outcome), me.(pc := Idle))
  {
    var k := h.frames;
    CacheCoversFrame(frames, p, k, me.cachedWrite);
    FrameInStream(frames, p, k, 13, |frames[k]|);
    assert me.read - |me.pc.outcome.items| == Offset(frames, k) + 13 && me.read == Offset(frames, k) + |frames[k]|;
    BodyIsTail(frames[k]);
    assert me.pc.outcome.items == frames[k][13..|frames[k]|];
    FrameDone(frames, p, stock, h);
  }

  lemma ResumeAtSkip(frames: seq<Frame>, p: nat, stock: Stock, ring: Ring<Byte>, h: Handler, me: Consumer<Byte>)
    requires Local(frames, p, stock, ring, h, me) && me.pc.Finished? && h.phase.AtSkip?
    ensures Situated(frames, p, stock, ring.closed, Resume(h, stock.target, me.pc.outcome), me.(pc := Idle))
  {
    CacheCoversFrame(frames, p, h.frames, me.cachedWrite);
    FrameDone(frames, p, stock, h);
  }

  lemma ResumeHolds(frames: seq<Frame>, p: nat, stock: Stock, ring: Ring<Byte>, h: Handler, me: Consumer<Byte>)
    requires Local(frames, p, stock, ring, h, me) && me.pc.Finished?
    ensures Situated(frames, p, stock, ring.closed, Resume(h, stock.target, me.pc.outcome), me.(pc := Idle))
  {
    match h.phase
    case AtSize => ResumeAtSize(frames, p, stock, ring, h, me);
    case AtHeader(_) => ResumeAtHeader(frames, p, stock, ring, h, me);
    case AtBody(_, _) => ResumeAtBody(frames, p, stock, ring, h, me);
    case AtSkip(_) => ResumeAtSkip(frames, p, stock, ring, h, me);
  }

  /** A step inside a queue operation: the write index it may load is a frame boundary. */
  lemma QueueStepHolds(frames: seq<Frame>, p: nat, stock: Stock, ring: Ring<Byte>, h: Handler, me: Consumer<Byte>)
    requires |ring.buffer| > 0 && Local(frames, p, stock, ring, h, me)
    ensures Situated(frames, p, stock, ring.closed, h, StepConsumer(ring, me))
  {
    assert ring.write == Offset(frames, p);
  }

  lemma BeginHolds(frames: seq<Frame>, p: nat, stock: Stock, ring: Ring<Byte>, h: Handler, me: Consumer<Byte>, op: Op)
    requires Local(frames, p, stock, ring, h, me) && me.pc.Idle? && NextOp(h.phase) == Some(op)
    ensures Situated(frames, p, stock, ring.closed, h, me.(pc := StartConsuming(me, op)))
  {
  }

  lemma LocalOf(cfg: Config, s: System, c: nat)
    requires Holds(cfg, s) && c < |cfg.stocks|
    ensures Local(cfg.frames, Published(s), cfg.stocks[c], s.ring, s.handlers[c], s.ring.consumers[c])
  {
    assert HandlerHolds(cfg, s, c);
    assert ConsumerHolds(s.ring, s.ring.consumers[c]);
  }

  /** What the feed's side of the invariant depends on. */
  lemma FeedUndisturbed(cfg: Config, s: System, s': System)
    requires FeedHolds(cfg, s) && s'.feed == s.feed && s'.ring.producer == s.ring.producer
    requires s'.ring.history == s.ring.history && s'.ring.closed == s.ring.closed
    ensures FeedHolds(cfg, s') && Published(s') == Published(s)
  {
  }

  /** Replacing one handler and its consumer by a pair that is well situated keeps the invariant. */
  lemma ReplaceHandler(cfg: Config, s: System, c: nat, h: Handler, me: Consumer<Byte>)
    requires Holds(cfg, s) && c < |cfg.stocks|
    requires Inv(WithConsumer(s.ring, c, me))
    requires Situated(cfg.frames, Published(s), cfg.stocks[c], s.ring.closed, h, me)
    ensures Holds(cfg, System(WithConsumer(s.ring, c, me), s.feed, s.handlers[c := h]))
  {
    var s' := System(WithConsumer(s.ring, c, me), s.feed, s.handlers[c := h]);
    FeedUndisturbed(cfg, s, s');
    forall d | 0 <= d < |cfg.stocks| ensures HandlerHolds(cfg, s', d) {
      if d != c {
        HandlerUndisturbed(cfg, s, s', d);
      }
    }
  }

  /** A handler step replaces that handler and its consumer and nothing else. */
  lemma HandlerStepReplaces(s: System, c: nat, target: seq<Byte>)
    requires |s.ring.buffer| > 0 && c < |s.ring.consumers| == |s.handlers|
    ensures var h, me := s.handlers[c], s.ring.consumers[c];
            StepHandler(s, c, target) ==
              if me.pc.Idle? && NextOp(h.phase).None? then s
              else System(
                WithConsumer(s.ring, c,
                  if me.pc.Idle? then me.(pc := StartConsuming(me, NextOp(h.phase).value))
                  else if me.pc.Finished? then me.(pc := Idle) else StepConsumer(s.ring, me)),
                s.feed,
                s.handlers[c := if me.pc.Finished? then Resume(h, target, me.pc.outcome) else h])
  {
    assert s.handlers[c := s.handlers[c]] == s.handlers;
  }

  /** The ring's part of a handler step keeps the ring's invariant. */
  lemma HandlerStepKeepsRing(cfg: Config, s: System, c: nat)
    requires Holds(cfg, s) && c < |cfg.stocks|
    ensures Inv(StepHandler(s, c, cfg.stocks[c].target).ring)
  {
    match s.ring.consumers[c].pc
    case Idle =>
      if NextOp(s.handlers[c].phase).Some? {
        StepKeepsInv(s.ring, StartOp(c, NextOp(s.handlers[c].phase).value));
      }
    case Finished(_, _) => StepKeepsInv(s.ring, TakeOutcome(c));
    case _ => StepKeepsInv(s.ring, ConsumerStep(c));
  }

  lemma HandlerStepSituated(cfg: Config, s: System, c: nat)
    requires Holds(cfg, s) && c < |cfg.stocks|
    ensures var s' := StepHandler(s, c, cfg.stocks[c].target);
            Situated(cfg.frames, Published(s), cfg.stocks[c], s.ring.closed, s'.handlers[c], s'.ring.consumers[c])
  {
    var p, stock, h, me := Published(s), cfg.stocks[c], s.handlers[c], s.ring.consumers[c];
    LocalOf(cfg, s, c);
    HandlerStepReplaces(s, c, stock.target);
    match me.pc
    case Idle =>
      if NextOp(h.phase).Some? {
        BeginHolds(cfg.frames, p, stock, s.ring, h, me, NextOp(h.phase).value);
      }
    case Finished(_, _) => ResumeHolds(cfg.frames, p, stock, s.ring, h, me);
    case _ => QueueStepHolds(cfg.frames, p, stock, s.ring, h, me);
  }

  lemma HandlerStepHolds(cfg: Config, s: System, c: nat)
    requires Holds(cfg, s) && c < |cfg.stocks|
    ensures Holds(cfg, StepHandler(s, c, cfg.stocks[c].target))
  {
    var s' := StepHandler(s, c, cfg.stocks[c].target);
    HandlerStepReplaces(s, c, cfg.stocks[c].target);
    if s' != s {
      HandlerStepKeepsRing(cfg, s, c);
      HandlerStepSituated(cfg, s, c);
      ReplaceHandler(cfg, s, c, s'.handlers[c], s'.ring.consumers[c]);
    }
  }

  lemma {:induction false} ExecHolds(cfg: Config, s: System, schedule: seq<Thread>)
    requires Holds(cfg, s)
    ensures Holds(cfg, Exec(cfg, s, schedule))
    decreases |schedule|
  {
    if schedule != [] {
      match schedule[0] {
        case FeedThread => FeedStepHolds(cfg, s);
        case HandlerThread(c) => if c < |cfg.stocks| { HandlerStepHolds(cfg, s, c); }
      }
      ExecHolds(cfg, StepThread(cfg, s, schedule[0]), schedule[1..]);
    }
  }
}
