/** The single-producer, multi-consumer broadcast ring as a system of interleaved steps. A step makes at most
    one access to shared memory: one load or store of an index or the flag, or one slot read or written. */
module SpmcProtocol {
  import opened Bits
  import opened Options

  datatype Response = Success | BufferFull | PayloadTooLarge

  datatype Op = Pop(count: nat) | Skip(count: nat)

  /** `Closed` remembers whether the flag was already set when the write index was loaded. */
  datatype Outcome<T> = Popped(items: seq<T>) | Skipped(count: nat) | Insufficient | Closed(flagWasSet: bool)

  /** Where the producer stands inside `try_push_many`; `at` is the write index it loaded, `low` the minimum
      over the first `scanned` consumers. */
  datatype ProducerPc<T> =
    | Ready
    | Scanning(items: seq<T>, at: nat, scanned: nat, low: Option<nat>)
    | Writing(items: seq<T>, at: nat, written: nat)
    | Returned(items: seq<T>, response: Response)

  /** Where a consumer stands inside a pop or skip; `at` is the read index it loaded. */
  datatype ConsumerPc<T> =
    | Idle
    | LoadingIndex(op: Op, at: nat)
    | LoadingFlag(op: Op, at: nat, flagWasSet: bool)
    | Copying(op: Op, at: nat, got: seq<T>)
    | Finished(op: Op, outcome: Outcome<T>)

  /** What a completed operation took from the stream. */
  datatype Chunk<T> = Taken(items: seq<T>) | Passed(count: nat)

  datatype Producer<T> = Producer(pc: ProducerPc<T>, cachedRead: nat)

  datatype Consumer<T> = Consumer(pc: ConsumerPc<T>, read: nat, cachedWrite: nat, consumed: seq<Chunk<T>>)

  /** `history` is everything ever published; the program keeps only `buffer`. */
  datatype Ring<T> = Ring(
    buffer: seq<T>, write: nat, closed: bool,
    producer: Producer<T>, consumers: seq<Consumer<T>>, history: seq<T>)

  datatype Action<T> =
    | StartPush(items: seq<T>)
    | ProducerStep
    | TakeResponse
    | Close
    | StartOp(c: nat, op: Op)
    | ConsumerStep(c: nat)
    | TakeOutcome(c: nat)

  function Get<T>(buffer: seq<T>, j: nat): T
    requires |buffer| > 0
  {
    buffer[j % |buffer|]
  }

  function Set<T>(buffer: seq<T>, j: nat, x: T): (r: seq<T>)
    requires |buffer| > 0
    ensures |r| == |buffer|
  {
    buffer[j % |buffer| := x]
  }

  function Min(low: Option<nat>, x: nat): nat {
    if low.Some? && low.value <= x then low.value else x
  }

  // ----- the producer -----

  function StartPushing<T>(s: Ring<T>, items: seq<T>): ProducerPc<T> {
    if |items| > |s.buffer| then Returned(items, PayloadTooLarge)
    else if |items| - 1 + s.write - s.producer.cachedRead >= |s.buffer| then Scanning(items, s.write, 0, None)
    else Writing(items, s.write, 0)
  }

  function StepProducer<T>(s: Ring<T>): Ring<T>
    requires |s.buffer| > 0
  {
    match s.producer.pc
    case Scanning(items, at, k, low) =>
      if k < |s.consumers| then
        s.(producer := s.producer.(pc := Scanning(items, at, k + 1, Some(Min(low, s.consumers[k].read)))))
      else
        var first := if low.Some? then low.value else s.producer.cachedRead;
        s.(producer := Producer(
             if |items| - 1 + at - first < |s.buffer| then Writing(items, at, 0) else Returned(items, BufferFull),
             first))
    case Writing(items, at, i) =>
      if i < |items| then
        s.(buffer := Set(s.buffer, at + i, items[i]), producer := s.producer.(pc := Writing(items, at, i + 1)))
      else
        s.(write := at + |items|, history := s.history + items,
           producer := s.producer.(pc := Returned(items, Success)))
    case _ => s
  }

  // ----- a consumer -----

  function NeededSlots(op: Op): nat {
    if op.Pop? then op.count else 0
  }

  function StartConsuming<T>(me: Consumer<T>, op: Op): ConsumerPc<T> {
    if me.cachedWrite - me.read < op.count then LoadingIndex(op, me.read) else Copying(op, me.read, [])
  }

  function StepConsumer<T>(s: Ring<T>, me: Consumer<T>): Consumer<T>
    requires |s.buffer| > 0
  {
    match me.pc
    case LoadingIndex(op, at) =>
      me.(cachedWrite := s.write,
          pc := if s.write - at < op.count then LoadingFlag(op, at, s.closed) else Copying(op, at, []))
    case LoadingFlag(op, at, flagWasSet) =>
      me.(pc := Finished(op, if s.closed then Closed(flagWasSet) else Insufficient))
    case Copying(op, at, got) =>
      if |got| < NeededSlots(op) then
        me.(pc := Copying(op, at, got + [Get(s.buffer, at + |got|)]))
      else
        me.(read := at + op.count,
            pc := Finished(op, if op.Pop? then Popped(got) else Skipped(op.count)),
            consumed := me.consumed + [if op.Pop? then Taken(got) else Passed(op.count)])
    case _ => me
  }

  function WithConsumer<T>(s: Ring<T>, c: nat, me: Consumer<T>): Ring<T>
    requires c < |s.consumers|
  {
    s.(consumers := s.consumers[c := me])
  }

  // ----- the system -----

  /** Only a thread that is between operations starts one, pushes are non-empty, and nothing is pushed after
      the close; an action that does not apply changes nothing. */
  function Step<T>(s: Ring<T>, a: Action<T>): (r: Ring<T>)
    requires |s.buffer| > 0
    ensures |r.buffer| == |s.buffer| && |r.consumers| == |s.consumers|
  {
    match a
    case StartPush(items) =>
      if s.producer.pc.Ready? && !s.closed && items != [] then
        s.(producer := s.producer.(pc := StartPushing(s, items)))
      else s
    case ProducerStep => StepProducer(s)
    case TakeResponse =>
      if s.producer.pc.Returned? then s.(producer := s.producer.(pc := Ready)) else s
    case Close =>
      if s.producer.pc.Ready? then s.(closed := true) else s
    case StartOp(c, op) =>
      if c < |s.consumers| && s.consumers[c].pc.Idle? then
        WithConsumer(s, c, s.consumers[c].(pc := StartConsuming(s.consumers[c], op)))
      else s
    case ConsumerStep(c) =>
      if c < |s.consumers| then WithConsumer(s, c, StepConsumer(s, s.consumers[c])) else s
    case TakeOutcome(c) =>
      if c < |s.consumers| && s.consumers[c].pc.Finished? then
        WithConsumer(s, c, s.consumers[c].(pc := Idle))
      else s
  }

  /** At least one consumer is registered before the first push. */
  ghost predicate Init<T>(s: Ring<T>) {
    && |s.buffer| > 0 && |s.consumers| > 0
    && s.write == 0 && !s.closed && s.history == []
    && s.producer == Producer(Ready, 0)
    && forall c :: 0 <= c < |s.consumers| ==> s.consumers[c] == Consumer(Idle, 0, 0, [])
  }

  ghost function Run<T>(s: Ring<T>, actions: seq<Action<T>>): (r: Ring<T>)
    requires |s.buffer| > 0
    ensures |r.buffer| == |s.buffer| && |r.consumers| == |s.consumers|
    decreases |actions|
  {
    if actions == [] then s else Run(Step(s, actions[0]), actions[1..])
  }

  // ----- the invariant -----

  ghost predicate WindowHolds<T>(s: Ring<T>)
    requires |s.buffer| > 0
  {
    && |s.history| == s.write
    && forall j: nat :: s.producer.cachedRead <= j < s.write ==> Get(s.buffer, j) == s.history[j]
  }

  ghost predicate ScanHolds<T>(s: Ring<T>, scanned: nat, low: Option<nat>) {
    && scanned <= |s.consumers| && (low.Some? <==> scanned > 0)
    && (low.Some? ==> s.producer.cachedRead <= low.value <= s.write)
    && forall c :: 0 <= c < scanned ==> low.Some? && low.value <= s.consumers[c].read
  }

  ghost predicate ProducerHolds<T>(s: Ring<T>)
    requires |s.buffer| > 0
  {
    && s.producer.cachedRead <= s.write <= s.producer.cachedRead + |s.buffer|
    && (s.closed ==> s.producer.pc.Ready?)
    && match s.producer.pc
       case Scanning(items, at, k, low) => 0 < |items| <= |s.buffer| && at == s.write && ScanHolds(s, k, low)
       case Writing(items, at, i) =>
         && i <= |items| && 0 < |items| && at == s.write
         && at + |items| <= s.producer.cachedRead + |s.buffer|
         && forall u: nat :: u < i ==> Get(s.buffer, at + u) == items[u]
       case Returned(items, Success) => |items| <= |s.history| && s.history[|s.history| - |items|..] == items
       case Returned(items, BufferFull) => |items| - 1 + s.write - s.producer.cachedRead >= |s.buffer|
       case Returned(items, PayloadTooLarge) => |items| > |s.buffer|
       case Ready => true
  }

  /** The first `n` published items are the consumed chunks, laid end to end. */
  ghost predicate Tiles<T>(chunks: seq<Chunk<T>>, history: seq<T>, n: nat)
    decreases |chunks|
  {
    if chunks == [] then n == 0
    else
      var last := chunks[|chunks| - 1];
      var size := if last.Taken? then |last.items| else last.count;
      && size <= n <= |history|
      && (last.Taken? ==> last.items == history[n - size..n])
      && Tiles(chunks[..|chunks| - 1], history, n - size)
  }

  ghost predicate OutcomeHolds<T>(s: Ring<T>, me: Consumer<T>, op: Op, outcome: Outcome<T>)
    requires |s.history| == s.write && me.read <= s.write
  {
    match outcome
    case Popped(items) => op == Pop(|items|) && |items| <= me.read && items == s.history[me.read - |items|..me.read]
    case Skipped(n) => op == Skip(n) && n <= me.read
    case Insufficient => me.cachedWrite - me.read < op.count
    case Closed(flagWasSet) =>
      me.cachedWrite - me.read < op.count && s.closed && (flagWasSet ==> me.cachedWrite == s.write)
  }

  ghost predicate ConsumerHolds<T>(s: Ring<T>, me: Consumer<T>)
    requires |s.history| == s.write
  {
    && s.producer.cachedRead <= me.read <= me.cachedWrite <= s.write
    && Tiles(me.consumed, s.history, me.read)
    && match me.pc
       case Idle => true
       case LoadingIndex(op, at) => at == me.read && me.cachedWrite - at < op.count
       case LoadingFlag(op, at, flagWasSet) =>
         && at == me.read && me.cachedWrite - at < op.count
         && (flagWasSet ==> s.closed && me.cachedWrite == s.write)
       case Copying(op, at, got) =>
         && at == me.read && at + op.count <= me.cachedWrite
         && |got| <= NeededSlots(op) && got == s.history[at..at + |got|]
       case Finished(op, outcome) => OutcomeHolds(s, me, op, outcome)
  }

  ghost predicate Inv<T>(s: Ring<T>) {
    && |s.buffer| > 0 && |s.consumers| > 0
    && WindowHolds(s) && ProducerHolds(s)
    && forall c :: 0 <= c < |s.consumers| ==> ConsumerHolds(s, s.consumers[c])
  }

  // ----- every step keeps it -----

  /** Writing the slot of index `j` disturbs no other index of the same window. */
  lemma SetKeepsOthers<T>(buffer: seq<T>, j: nat, x: T, k: nat)
    requires |buffer| > 0
    requires k < j < k + |buffer| || j < k < j + |buffer|
    ensures Get(Set(buffer, j, x), j) == x
    ensures Get(Set(buffer, j, x), k) == Get(buffer, k)
  {
    if k < j {
      DistinctSlots(k, j, |buffer|);
    } else {
      DistinctSlots(j, k, |buffer|);
    }
  }

  lemma InitHolds<T>(s: Ring<T>)
    requires Init(s)
    ensures Inv(s)
  {
  }

  /** What is true of a consumer stays true while others load, copy or finish. */
  lemma ConsumerUndisturbed<T>(s: Ring<T>, s': Ring<T>, me: Consumer<T>)
    requires |s.history| == s.write && ConsumerHolds(s, me)
    requires s'.write == s.write && s'.history == s.history && (s.closed ==> s'.closed)
    requires s'.producer.cachedRead <= me.read
    ensures ConsumerHolds(s', me)
  {
  }

  lemma TilesExtend<T>(chunks: seq<Chunk<T>>, history: seq<T>, more: seq<T>, n: nat)
    requires Tiles(chunks, history, n)
    ensures Tiles(chunks, history + more, n)
    decreases |chunks|
  {
    if chunks != [] {
      var last := chunks[|chunks| - 1];
      var size := if last.Taken? then |last.items| else last.count;
      assert (history + more)[n - size..n] == history[n - size..n];
      TilesExtend(chunks[..|chunks| - 1], history, more, n - size);
    }
  }

  lemma TilesAppend<T>(chunks: seq<Chunk<T>>, history: seq<T>, n: nat, last: Chunk<T>, size: nat)
    requires Tiles(chunks, history, n) && n + size <= |history|
    requires last == Passed(size) || last == Taken(history[n..n + size])
    ensures Tiles(chunks + [last], history, n + size)
  {
    assert (chunks + [last])[..|chunks|] == chunks;
  }

  /** A publication leaves every consumer's view of the past as it was. */
  lemma ConsumerSurvivesPublish<T>(s: Ring<T>, s': Ring<T>, me: Consumer<T>, more: seq<T>)
    requires |s.history| == s.write && ConsumerHolds(s, me) && !s.closed
    requires s'.history == s.history + more && s'.write == s.write + |more|
    requires s'.closed == s.closed && s'.producer.cachedRead == s.producer.cachedRead
    ensures ConsumerHolds(s', me)
  {
    TilesExtend(me.consumed, s.history, more, me.read);
    assert forall i, j :: 0 <= i <= j <= |s.history| ==> (s.history + more)[i..j] == s.history[i..j];
  }

  lemma StartPushKeepsInv<T>(s: Ring<T>, items: seq<T>)
    requires Inv(s)
    ensures Inv(Step(s, StartPush(items)))
  {
    var s' := Step(s, StartPush(items));
    forall c | 0 <= c < |s.consumers| ensures ConsumerHolds(s', s'.consumers[c]) {
      ConsumerUndisturbed(s, s', s.consumers[c]);
    }
  }

  lemma ScanStepKeepsInv<T>(s: Ring<T>)
    requires Inv(s) && s.producer.pc.Scanning?
    ensures Inv(StepProducer(s))
  {
    var s' := StepProducer(s);
    forall c | 0 <= c < |s.consumers| ensures ConsumerHolds(s', s'.consumers[c]) {
      ConsumerUndisturbed(s, s', s.consumers[c]);
    }
  }

  lemma WriteSlotKeepsInv<T>(s: Ring<T>)
    requires Inv(s) && s.producer.pc.Writing? && s.producer.pc.written < |s.producer.pc.items|
    ensures Inv(StepProducer(s))
  {
    var s' := StepProducer(s);
    var Writing(items, at, i) := s.producer.pc;
    forall j: nat | s.producer.cachedRead <= j < s.write
      ensures Get(s'.buffer, j) == s.history[j]
    {
      SetKeepsOthers(s.buffer, at + i, items[i], j);
    }
    forall u: nat | u < i + 1
      ensures Get(s'.buffer, at + u) == items[u]
    {
      if u < i {
        SetKeepsOthers(s.buffer, at + i, items[i], at + u);
      }
    }
    forall c | 0 <= c < |s.consumers| ensures ConsumerHolds(s', s'.consumers[c]) {
      ConsumerUndisturbed(s, s', s.consumers[c]);
    }
  }

  lemma PublishKeepsInv<T>(s: Ring<T>)
    requires Inv(s) && s.producer.pc.Writing? && s.producer.pc.written == |s.producer.pc.items|
    ensures Inv(StepProducer(s))
  {
    var s' := StepProducer(s);
    var Writing(items, at, i) := s.producer.pc;
    forall j: nat | s.producer.cachedRead <= j < s'.write
      ensures Get(s'.buffer, j) == s'.history[j]
    {
      if j >= at {
        assert Get(s.buffer, at + (j - at)) == items[j - at];
      }
    }
    forall c | 0 <= c < |s.consumers| ensures ConsumerHolds(s', s'.consumers[c]) {
      ConsumerSurvivesPublish(s, s', s.consumers[c], items);
    }
  }

  lemma ReleaseKeepsInv<T>(s: Ring<T>, a: Action<T>)
    requires Inv(s) && (a.TakeResponse? || a.Close?)
    ensures Inv(Step(s, a))
  {
    var s' := Step(s, a);
    forall c | 0 <= c < |s.consumers| ensures ConsumerHolds(s', s'.consumers[c]) {
      ConsumerUndisturbed(s, s', s.consumers[c]);
    }
  }

  /** Changing one consumer to a state that satisfies its own conditions keeps the invariant, if its read
      index did not move back. */
  lemma ReplaceConsumer<T>(s: Ring<T>, c: nat, me: Consumer<T>)
    requires Inv(s) && c < |s.consumers| && ConsumerHolds(s, me) && s.consumers[c].read <= me.read
    ensures Inv(WithConsumer(s, c, me))
  {
    var s' := WithConsumer(s, c, me);
    forall d | 0 <= d < |s.consumers| ensures ConsumerHolds(s', s'.consumers[d]) {
      ConsumerUndisturbed(s, s', s'.consumers[d]);
    }
  }

  lemma CopySlotHolds<T>(s: Ring<T>, me: Consumer<T>)
    requires Inv(s) && ConsumerHolds(s, me)
    requires me.pc.Copying? && |me.pc.got| < NeededSlots(me.pc.op)
    ensures ConsumerHolds(s, StepConsumer(s, me))
  {
    var Copying(op, at, got) := me.pc;
    var j := at + |got|;
    assert Get(s.buffer, j) == s.history[j];
    assert s.history[at..j + 1] == s.history[at..j] + [s.history[j]];
  }

  lemma StoreIndexHolds<T>(s: Ring<T>, me: Consumer<T>)
    requires Inv(s) && ConsumerHolds(s, me)
    requires me.pc.Copying? && |me.pc.got| == NeededSlots(me.pc.op)
    ensures ConsumerHolds(s, StepConsumer(s, me))
  {
    var Copying(op, at, got) := me.pc;
    var last := if op.Pop? then Taken(got) else Passed(op.count);
    TilesAppend(me.consumed, s.history, me.read, last, op.count);
  }

  lemma ConsumerStepHolds<T>(s: Ring<T>, me: Consumer<T>)
    requires Inv(s) && ConsumerHolds(s, me)
    ensures ConsumerHolds(s, StepConsumer(s, me))
  {
    if me.pc.Copying? {
      if |me.pc.got| < NeededSlots(me.pc.op) {
        CopySlotHolds(s, me);
      } else {
        StoreIndexHolds(s, me);
      }
    }
  }

  lemma ConsumerStepMonotone<T>(s: Ring<T>, me: Consumer<T>)
    requires Inv(s) && ConsumerHolds(s, me)
    ensures me.read <= StepConsumer(s, me).read
  {
  }

  lemma StepKeepsInv<T>(s: Ring<T>, a: Action<T>)
    requires Inv(s)
    ensures Inv(Step(s, a))
  {
    match a
    case StartPush(items) => StartPushKeepsInv(s, items);
    case ProducerStep =>
      match s.producer.pc {
        case Scanning(_, _, _, _) => ScanStepKeepsInv(s);
        case Writing(items, _, i) => if i < |items| { WriteSlotKeepsInv(s); } else { PublishKeepsInv(s); }
        case _ =>
      }
    case TakeResponse => ReleaseKeepsInv(s, a);
    case Close => ReleaseKeepsInv(s, a);
    case StartOp(c, op) =>
      if c < |s.consumers| && s.consumers[c].pc.Idle? {
        ReplaceConsumer(s, c, s.consumers[c].(pc := StartConsuming(s.consumers[c], op)));
      }
    case ConsumerStep(c) =>
      if c < |s.consumers| {
        ConsumerStepHolds(s, s.consumers[c]);
        ConsumerStepMonotone(s, s.consumers[c]);
        ReplaceConsumer(s, c, StepConsumer(s, s.consumers[c]));
      }
    case TakeOutcome(c) =>
      if c < |s.consumers| && s.consumers[c].pc.Finished? {
        ReplaceConsumer(s, c, s.consumers[c].(pc := Idle));
      }
  }

  lemma {:induction false} RunKeepsInv<T>(s: Ring<T>, actions: seq<Action<T>>)
    requires Inv(s)
    ensures Inv(Run(s, actions))
    decreases |actions|
  {
    if actions != [] {
      StepKeepsInv(s, actions[0]);
      RunKeepsInv(Step(s, actions[0]), actions[1..]);
    }
  }

  // ----- what the invariant means -----

  ghost predicate Reachable<T(!new)>(s: Ring<T>) {
    exists s0: Ring<T>, actions: seq<Action<T>> {:trigger Run(s0, actions)} :: Init(s0) && Run(s0, actions) == s
  }

  lemma ReachableHolds<T(!new)>(s: Ring<T>)
    requires Reachable(s)
    ensures Inv(s)
  {
    var s0: Ring<T>, actions: seq<Action<T>> :| Init(s0) && Run(s0, actions) == s;
    InitHolds(s0);
    RunKeepsInv(s0, actions);
  }

  /** In every reachable state, whatever operations are under way, each slot a consumer has still to read
      holds the item published at its index, and what that consumer has taken and skipped is, chunk by chunk,
      the published prefix up to its read index. */
  lemma BroadcastSafety<T(!new)>(s: Ring<T>, c: nat)
    requires Reachable(s) && c < |s.consumers|
    ensures |s.buffer| > 0 && |s.history| == s.write
    ensures forall j: nat :: s.consumers[c].read <= j < s.write ==> Get(s.buffer, j) == s.history[j]
    ensures Tiles(s.consumers[c].consumed, s.history, s.consumers[c].read)
  {
    ReachableHolds(s);
    assert ConsumerHolds(s, s.consumers[c]);
  }

  function Size<T>(chunk: Chunk<T>): nat {
    if chunk.Taken? then |chunk.items| else chunk.count
  }

  /** How many items the chunks cover. */
  function Span<T>(chunks: seq<Chunk<T>>): nat {
    if chunks == [] then 0 else Span(chunks[..|chunks| - 1]) + Size(chunks[|chunks| - 1])
  }

  lemma {:induction false} TilesCover<T>(chunks: seq<Chunk<T>>, history: seq<T>, n: nat, i: nat)
    requires Tiles(chunks, history, n) && i <= |chunks|
    ensures Span(chunks) == n && (i < |chunks| ==> Span(chunks[..i]) + Size(chunks[i]) <= |history|)
    ensures i < |chunks| && chunks[i].Taken? ==>
              chunks[i].items == history[Span(chunks[..i])..Span(chunks[..i]) + |chunks[i].items|]
    decreases |chunks|
  {
    if chunks != [] {
      var before, last := chunks[..|chunks| - 1], chunks[|chunks| - 1];
      TilesCover(before, history, n - Size(last), if i < |before| then i else 0);
      if i < |before| {
        assert before[..i] == chunks[..i];
      }
    }
  }

  /** Nothing is lost, repeated or reordered: in every reachable state each chunk a consumer has popped is just the
      stretch of the published items that begins where its earlier chunks end, and all its chunks together reach up to
      its read index. */
  lemma ChunksAreTheStream<T(!new)>(s: Ring<T>, c: nat, i: nat)
    requires Reachable(s) && c < |s.consumers| && i < |s.consumers[c].consumed|
    ensures var me := s.consumers[c];
            var from := Span(me.consumed[..i]);
            && Span(me.consumed) == me.read <= |s.history| && from + Size(me.consumed[i]) <= |s.history|
            && (me.consumed[i].Taken? ==> me.consumed[i].items == s.history[from..from + |me.consumed[i].items|])
  {
    ReachableHolds(s);
    assert ConsumerHolds(s, s.consumers[c]);
    TilesCover(s.consumers[c].consumed, s.history, s.consumers[c].read, i);
  }

  /** What a finished operation answers: a pop has the last published items before the new read index, as many as were
      asked for, and a skip has moved the index by the number asked for. */
  lemma AnswersAreTheStream<T(!new)>(s: Ring<T>, c: nat, op: Op, outcome: Outcome<T>)
    requires Reachable(s) && c < |s.consumers| && s.consumers[c].pc == Finished(op, outcome)
    ensures var r := s.consumers[c].read;
            && r <= |s.history| && (outcome.Popped? || outcome.Skipped? ==> op.count <= r)
            && (outcome.Popped? ==> op.Pop? && outcome.items == s.history[r - op.count..r])
            && (outcome.Skipped? ==> op.Skip? && outcome.count == op.count)
  {
    ReachableHolds(s);
    assert ConsumerHolds(s, s.consumers[c]);
  }

  /** A push that has answered "success" has published its items last. */
  lemma SuccessIsPublished<T(!new)>(s: Ring<T>, items: seq<T>)
    requires Reachable(s) && s.producer.pc == Returned(items, Success)
    ensures |items| <= |s.history| == s.write && s.history[s.write - |items|..] == items
  {
    ReachableHolds(s);
  }

  /** The stale copies are harmless: in every reachable state they bracket the true indices, so that no index
      subtraction of the program goes below zero. */
  lemma StaleCachesAreHarmless<T(!new)>(s: Ring<T>, c: nat)
    requires Reachable(s) && c < |s.consumers|
    ensures var me := s.consumers[c];
            s.producer.cachedRead <= me.read <= me.cachedWrite <= s.write <= s.producer.cachedRead + |s.buffer|
    ensures s.producer.pc.Scanning? && s.producer.pc.low.Some? ==>
              s.producer.cachedRead <= s.producer.pc.low.value <= s.write
  {
    ReachableHolds(s);
    assert ConsumerHolds(s, s.consumers[c]);
  }

  /** A "closed" answer means that fewer items than asked for are left, provided the flag was already set when
      the write index was loaded. */
  lemma DrainOnClose<T(!new)>(s: Ring<T>, c: nat, op: Op)
    requires Reachable(s) && c < |s.consumers|
    requires s.consumers[c].pc == Finished(op, Closed(true))
    ensures s.closed && s.write - s.consumers[c].read < op.count
  {
    ReachableHolds(s);
    assert ConsumerHolds(s, s.consumers[c]);
  }

  /** Without that proviso it can be wrong: the producer may publish and close between the two loads. */
  ghost function CloseRace<T>(x: T, c: nat): seq<Action<T>> {
    [StartOp(c, Pop(1)), ConsumerStep(c),
     StartPush([x]), ProducerStep, ProducerStep, TakeResponse, Close,
     ConsumerStep(c)]
  }

  lemma RunCons<T>(s: Ring<T>, a: Action<T>, rest: seq<Action<T>>)
    requires |s.buffer| > 0
    ensures Run(s, [a] + rest) == Run(Step(s, a), rest)
  {
    assert ([a] + rest)[1..] == rest;
  }

  /** An operation that begins after the close learns of it, and knows that the flag was set in time. */
  lemma ClosedInTime<T>(s: Ring<T>, c: nat, n: nat)
    requires Init(s) && c < |s.consumers| && n > 0
    ensures Run(s, [Close, StartOp(c, Pop(n)), ConsumerStep(c), ConsumerStep(c)]).consumers[c].pc ==
            Finished(Pop(n), Closed(true))
  {
    var a: seq<Action<T>> := [Close, StartOp(c, Pop(n)), ConsumerStep(c), ConsumerStep(c)];
    var s1 := Step(s, a[0]);
    var s2 := Step(s1, a[1]);
    var s3 := Step(s2, a[2]);
    assert s2.consumers[c].pc == LoadingIndex(Pop(n), 0);
    assert s3.consumers[c].pc == LoadingFlag(Pop(n), 0, true);
    RunCons(s, a[0], a[1..]);
    RunCons(s1, a[1], a[2..]);
    RunCons(s2, a[2], a[3..]);
    RunCons(s3, a[3], []);
  }

  /** The state between the consumer's two loads. */
  ghost function MidPoll<T>(s: Ring<T>, c: nat): Ring<T>
    requires c < |s.consumers|
  {
    WithConsumer(s, c, Consumer(LoadingFlag(Pop(1), 0, false), 0, 0, []))
  }

  lemma RaceBegins<T>(s: Ring<T>, c: nat)
    requires Init(s) && c < |s.consumers|
    ensures Step(Step(s, StartOp(c, Pop(1))), ConsumerStep(c)) == MidPoll(s, c)
  {
    var s1 := Step(s, StartOp(c, Pop(1)));
    assert s1 == WithConsumer(s, c, Consumer(LoadingIndex(Pop(1), 0), 0, 0, []));
    assert s1.consumers[c := MidPoll(s, c).consumers[c]] == MidPoll(s, c).consumers;
  }

  lemma RaceCloses<T>(s: Ring<T>, x: T)
    requires |s.buffer| > 0 && s.write == 0 && !s.closed && s.producer == Producer(Ready, 0)
    ensures var t := Step(Step(Step(Step(Step(s, StartPush([x])), ProducerStep), ProducerStep), TakeResponse), Close);
            t.closed && t.write == 1 && t.consumers == s.consumers && |t.buffer| == |s.buffer|
  {
    var s1 := Step(s, StartPush([x]));
    assert s1 == s.(producer := Producer(Writing([x], 0, 0), 0));
    var s2 := Step(s1, ProducerStep);
    assert s2.producer == Producer(Writing([x], 0, 1), 0) && s2.write == 0;
  }

  lemma ClosedAnswerCanLeaveItems<T>(s: Ring<T>, x: T, c: nat)
    requires Init(s) && c < |s.consumers|
    ensures var t := Run(s, CloseRace(x, c));
            && t.consumers[c].pc == Finished(Pop(1), Closed(false))
            && t.write - t.consumers[c].read == 1
  {
    var race := CloseRace(x, c);
    RaceBegins(s, c);
    var s2 := MidPoll(s, c);
    RaceCloses(s2, x);
    RunCons(s, race[0], race[1..]);
    RunCons(Step(s, race[0]), race[1], race[2..]);
    var s3 := Step(s2, race[2]);
    var s4 := Step(s3, race[3]);
    var s5 := Step(s4, race[4]);
    var s6 := Step(s5, race[5]);
    var s7 := Step(s6, race[6]);
    RunCons(s2, race[2], race[3..]);
    RunCons(s3, race[3], race[4..]);
    RunCons(s4, race[4], race[5..]);
    RunCons(s5, race[5], race[6..]);
    RunCons(s6, race[6], race[7..]);
    RunCons(s7, race[7], []);
    assert Run(s, race) == Step(s7, ConsumerStep(c));
  }
}
