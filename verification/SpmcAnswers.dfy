/** What the answers of the step-by-step ring mean: no refusal is spurious, although the indices it rests on are
    loaded one after the other while everybody else moves. */
module SpmcAnswers {
  import opened SpmcProtocol

  // ----- the producer -----

  /** Some consumer is too far behind for `items` to fit. */
  ghost predicate LacksRoom<T>(s: Ring<T>, items: seq<T>) {
    exists c :: 0 <= c < |s.consumers| && |items| - 1 + s.write - s.consumers[c].read >= |s.buffer|
  }

  /** Where the minimum of a scan comes from: a consumer that was no further when the scan began. */
  ghost predicate Witnessed<T>(began: Ring<T>, low: nat) {
    exists c :: 0 <= c < |began.consumers| && began.consumers[c].read <= low
  }

  /** `s` is a later state in the push of `items` whose scan began in state `began`. */
  ghost predicate SamePush<T>(began: Ring<T>, s: Ring<T>, items: seq<T>) {
    && |s.buffer| == |began.buffer| && |s.consumers| == |began.consumers|
    && (forall c :: 0 <= c < |s.consumers| ==> began.consumers[c].read <= s.consumers[c].read)
    && match s.producer.pc
       case Scanning(its, at, k, low) =>
         its == items && at == began.write && (low.Some? ==> Witnessed(began, low.value))
       case Writing(its, _, _) => its == items
       case Returned(its, response) =>
         its == items && !response.PayloadTooLarge? && (response.BufferFull? ==> LacksRoom(began, items))
       case Ready => false
  }

  lemma ReadsAdvance<T>(s: Ring<T>, a: Action<T>, c: nat)
    requires Inv(s) && c < |s.consumers|
    ensures s.consumers[c].read <= Step(s, a).consumers[c].read
  {
    assert ConsumerHolds(s, s.consumers[c]);
    ConsumerStepMonotone(s, s.consumers[c]);
  }

  lemma ScanContinues<T>(began: Ring<T>, s: Ring<T>, items: seq<T>)
    requires Inv(s) && SamePush(began, s, items) && s.producer.pc.Scanning?
    ensures SamePush(began, StepProducer(s), items)
  {
    var Scanning(_, at, k, low) := s.producer.pc;
    if k < |s.consumers| {
      assert Witnessed(began, Min(low, s.consumers[k].read));
    } else if |items| - 1 + at - low.value >= |s.buffer| {
      var c :| 0 <= c < |began.consumers| && began.consumers[c].read <= low.value;
      assert |items| - 1 + began.write - began.consumers[c].read >= |began.buffer|;
    }
  }

  lemma PushContinues<T>(began: Ring<T>, s: Ring<T>, items: seq<T>, a: Action<T>)
    requires Inv(s) && SamePush(began, s, items) && !a.TakeResponse?
    ensures SamePush(began, Step(s, a), items)
  {
    forall c | 0 <= c < |s.consumers| ensures began.consumers[c].read <= Step(s, a).consumers[c].read {
      ReadsAdvance(s, a, c);
    }
    if a.ProducerStep? && s.producer.pc.Scanning? {
      ScanContinues(began, s, items);
    }
  }

  lemma {:induction false} PushRuns<T>(began: Ring<T>, s: Ring<T>, items: seq<T>, actions: seq<Action<T>>)
    requires Inv(s) && SamePush(began, s, items) && forall a <- actions :: !a.TakeResponse?
    ensures SamePush(began, Run(s, actions), items)
    decreases |actions|
  {
    if actions != [] {
      PushContinues(began, s, items, actions[0]);
      StepKeepsInv(s, actions[0]);
      PushRuns(began, Step(s, actions[0]), items, actions[1..]);
    }
  }

  /** A push is refused as "buffer full" only if, when its scan began, some consumer was too far behind for it. */
  lemma RefusedPushLackedRoom<T(!new)>(began: Ring<T>, items: seq<T>, actions: seq<Action<T>>)
    requires Reachable(began) && began.producer.pc.Scanning? && began.producer.pc.items == items
    requires began.producer.pc.scanned == 0
    requires forall a <- actions :: !a.TakeResponse?
    requires |began.buffer| > 0 && Run(began, actions).producer.pc == Returned(items, BufferFull)
    ensures LacksRoom(began, items)
  {
    ReachableHolds(began);
    PushRuns(began, began, items, actions);
  }

  // ----- a consumer -----

  /** The operation of consumer `c` after its load of the write index; `refused` is what it will answer. */
  ghost predicate Decided<T>(s: Ring<T>, c: nat, op: Op, refused: bool) {
    c < |s.consumers| &&
    match s.consumers[c].pc
    case LoadingFlag(o, _, _) => o == op && refused
    case Copying(o, _, _) => o == op && !refused
    case Finished(o, outcome) => o == op && (refused <==> outcome.Insufficient? || outcome.Closed?)
    case _ => false
  }

  lemma DecisionStands<T>(s: Ring<T>, c: nat, op: Op, refused: bool, a: Action<T>)
    requires |s.buffer| > 0 && Decided(s, c, op, refused) && a != TakeOutcome(c)
    ensures Decided(Step(s, a), c, op, refused)
  {
  }

  lemma {:induction false} DecisionRuns<T>(s: Ring<T>, c: nat, op: Op, refused: bool, actions: seq<Action<T>>)
    requires |s.buffer| > 0 && Decided(s, c, op, refused) && TakeOutcome(c) !in actions
    ensures Decided(Run(s, actions), c, op, refused)
    decreases |actions|
  {
    if actions != [] {
      DecisionStands(s, c, op, refused, actions[0]);
      DecisionRuns(Step(s, actions[0]), c, op, refused, actions[1..]);
    }
  }

  /** A pop or skip that loads the write index in state `s` is refused, whatever happens afterwards, if and only if
      too little was published in `s`. */
  lemma RefusedIffTooLittle<T(!new)>(s: Ring<T>, c: nat, op: Op, actions: seq<Action<T>>)
    requires Reachable(s) && c < |s.consumers|
    requires s.consumers[c].pc.LoadingIndex? && s.consumers[c].pc.op == op
    requires TakeOutcome(c) !in actions
    ensures |s.buffer| > 0
    ensures var t := Run(Step(s, ConsumerStep(c)), actions);
            t.consumers[c].pc.Finished? ==>
              (t.consumers[c].pc.outcome.Insufficient? || t.consumers[c].pc.outcome.Closed? <==>
                 s.write - s.consumers[c].read < op.count)
  {
    ReachableHolds(s);
    assert ConsumerHolds(s, s.consumers[c]);
    var refused := s.write - s.consumers[c].read < op.count;
    DecisionRuns(Step(s, ConsumerStep(c)), c, op, refused, actions);
  }
}
