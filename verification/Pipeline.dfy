/** The whole pipeline: a feed handler pushing a file frame by frame into the ring, and one market-data handler
    per stock polling its own consumer, interleaved step by step by an arbitrary scheduler. */
module Pipeline {
  import opened BigEndian
  import opened Bits
  import opened Options
  import opened Framing
  import opened Itch
  import opened HandlerCore
  import opened SpmcProtocol

  /** Where a handler stands inside `poll`, between two queue operations. */
  datatype Phase =
    | AtSize
    | AtHeader(size: nat)
    | AtBody(messageType: Byte, locate: nat)
    | AtSkip(rest: nat)
    | Stopped(flagWasSet: bool)
    | Faulted

  /** `frames` counts the polls that consumed a frame. */
  datatype Handler = Handler(phase: Phase, core: Core, frames: nat)

  /** `pending` is the frame being pushed, `pushed` counts the ones whose push has returned. */
  datatype Feed = Feed(rest: seq<Byte>, pending: Option<Frame>, pushed: nat)

  datatype System = System(ring: Ring<Byte>, feed: Feed, handlers: seq<Handler>)

  datatype Thread = FeedThread | HandlerThread(c: nat)

  /** The queue operation a handler performs next. */
  function NextOp(phase: Phase): Option<Op> {
    match phase
    case AtSize => Some(Pop(SIZE_BYTES))
    case AtHeader(_) => Some(Pop(HEADER_BYTES))
    case AtBody(t, _) => if IsOrderType(t) then Some(Pop(BodySize(t))) else None
    case AtSkip(rest) => Some(Skip(rest))
    case Stopped(_) => None
    case Faulted => None
  }

  /** How a handler goes on. A failed read after the size has been read trips the assertion; the result of a
      skip is ignored. The subtraction from the size is done in 64 bits. */
  function Resume(h: Handler, target: seq<Byte>, outcome: Outcome<Byte>): Handler {
    match h.phase
    case AtSize =>
      (match outcome
       case Popped(bytes) => h.(phase := AtHeader(Value(bytes)))
       case Closed(flagWasSet) => h.(phase := Stopped(flagWasSet))
       case _ => h)
    case AtHeader(size) =>
      if outcome.Popped? && |outcome.items| == HEADER_BYTES then
        var t, locate := outcome.items[0], Value(outcome.items[1..3]);
        h.(phase := if SkipsBody(h.core, t, locate) then AtSkip((size - HEADER_BYTES) % TWO_TO_64)
                    else AtBody(t, locate))
      else h.(phase := Faulted)
    case AtBody(t, locate) =>
      if outcome.Popped? && IsOrderType(t) && |outcome.items| == BodySize(t) then
        var r := Simulate(h.core, target, locate, Parse(t, outcome.items));
        if r.Some? then Handler(AtSize, r.value, h.frames + 1) else h.(phase := Faulted)
      else h.(phase := Faulted)
    case AtSkip(_) => Handler(AtSize, h.core, if outcome.Skipped? then h.frames + 1 else h.frames)
    case _ => h
  }

  function StepFeed(s: System): System
    requires |s.ring.buffer| > 0
  {
    match s.ring.producer.pc
    case Ready =>
      if s.feed.pending.Some? then
        s.(ring := Step(s.ring, StartPush(s.feed.pending.value)))
      else
        (match NextFrame(s.feed.rest)
         case DataFrame(f) =>
           s.(ring := Step(s.ring, StartPush(f)),
              feed := s.feed.(rest := s.feed.rest[|f|..], pending := Some(f)))
         case StreamClosed => s.(ring := Step(s.ring, Close))
         case InvalidFormat => s)
    case Returned(_, response) =>
      s.(ring := Step(s.ring, TakeResponse),
         feed := if response.Success? then s.feed.(pending := None, pushed := s.feed.pushed + 1) else s.feed)
    case _ => s.(ring := Step(s.ring, ProducerStep))
  }

  function StepHandler(s: System, c: nat, target: seq<Byte>): System
    requires |s.ring.buffer| > 0 && c < |s.ring.consumers| == |s.handlers|
  {
    match s.ring.consumers[c].pc
    case Idle =>
      var op := NextOp(s.handlers[c].phase);
      if op.Some? then s.(ring := Step(s.ring, StartOp(c, op.value))) else s
    case Finished(_, outcome) =>
      System(Step(s.ring, TakeOutcome(c)), s.feed, s.handlers[c := Resume(s.handlers[c], target, outcome)])
    case _ => s.(ring := Step(s.ring, ConsumerStep(c)))
  }

  /** What is fixed: the frames of the file and, for each handler, its stock, the stock's locate code and what
      its uninitialised locate field holds. */
  datatype Stock = Stock(target: seq<Byte>, locate: nat, initial: nat)

  datatype Config = Config(frames: seq<Frame>, stocks: seq<Stock>)

  ghost predicate Shaped(cfg: Config, s: System) {
    |s.ring.buffer| > 0 && |s.ring.consumers| == |s.handlers| == |cfg.stocks|
  }

  function StepThread(cfg: Config, s: System, t: Thread): (r: System)
    requires Shaped(cfg, s)
    ensures Shaped(cfg, r) && |r.ring.buffer| == |s.ring.buffer|
  {
    match t
    case FeedThread => StepFeed(s)
    case HandlerThread(c) => if c < |cfg.stocks| then StepHandler(s, c, cfg.stocks[c].target) else s
  }

  /** Running any schedule. */
  ghost function Exec(cfg: Config, s: System, schedule: seq<Thread>): (r: System)
    requires Shaped(cfg, s)
    ensures Shaped(cfg, r) && |r.ring.buffer| == |s.ring.buffer|
    decreases |schedule|
  {
    if schedule == [] then s else Exec(cfg, StepThread(cfg, s, schedule[0]), schedule[1..])
  }

  /** The feed is well formed for every handler and every frame fits into the ring. */
  ghost predicate GoodConfig(cfg: Config, cap: nat) {
    && (forall c :: 0 <= c < |cfg.stocks| ==>
          WellFormedFeed(cfg.frames, cfg.stocks[c].target, cfg.stocks[c].locate, cfg.stocks[c].initial))
    && (forall k :: 0 <= k < |cfg.frames| ==> |cfg.frames[k]| <= cap)
  }

  ghost predicate Start(cfg: Config, s: System) {
    && Shaped(cfg, s) && Init(s.ring)
    && s.feed == Feed(Flatten(cfg.frames), None, 0)
    && forall c :: 0 <= c < |cfg.stocks| ==>
         s.handlers[c] == Handler(AtSize, Core(cfg.stocks[c].initial, map[], map[], map[]), 0)
  }
}
