# Verification of the ITCH order-book pipeline

The pipeline replays a Nasdaq TotalView-ITCH 5.0 file: a feed handler cuts the file into length-prefixed
frames and pushes them into a lock-free broadcast ring; one market-data handler per stock pops them from its
own consumer, keeps a record per live order in an open-addressing table, and keeps total shares per side and
price in a book. Messages are read into structs by a small serialiser that compiles a type's layout into byte
copies. This project models those parts in Dafny and proves what they promise, separately and together.

## What is modelled, and how

- **Ring, step by step** (`SpmcProtocol.dfy`): a system of interleaved steps, each with at most one shared
  access: one load or store of an index or of the closed flag, or one slot read or written. The scan for the
  smallest read index takes one step per consumer. `history` is everything ever published; the program keeps
  only the buffer. Memory is sequentially consistent and the counters are unbounded numbers.
- **Ring, operation by operation** (`SpmcRing.dfy`): the producer, the consumers and the buffer as classes over
  an array. Every answer is proved to be the one the true indices give, although most calls look only at a
  stale copy. `SpmcAnswers.dfy` says what the answers mean at step granularity.
- **Table** (`Probing.dfy`, `ProbeTable.dfy`, `OpenAddressMap.dfy`, `Rehashing.dfy`, `Repairing.dfy`): the array of
  slots, both probe sequences, tombstones, saturation, the in-place rebuild. `& MASK` is a bitwise AND
  (`Bits.dfy`). `tombstone_` is a wrapping counter that is part of no invariant: every search that passes a
  tombstone decrements it, lookups included.
- **Book and handler** (`OrderBook.dfy`, `Itch.dfy`, `HandlerCore.dfy`, `MarketDataHandler.dfy`): the classes
  change their fields as the program does, and each method is proved against a function of the state. A null
  handle, a missing price level, a saturated table or a tripped assertion is a *fault*. The reference is a
  sequential reader of one stock (`Itch.RecordsAfter`); the reference book is the sum over its records. A poll
  is specified on any bytes at all (`HandlerCore.PollOf`). `ItchWire.dfy` ties all this to the bytes of the
  specification: each message type, length, field and effect is stated with its literal number there.
  `FeedWitnesses.dfy` holds a lawful day with every kind of message, followed frame by frame, and two feeds the
  handler fails.
- **File and feed** (`Framing.dfy`, `FeedHandler.dfy`).
- **Serialiser** (`Layout.dfy`, `Copying.dfy`, `FlatReach.dfy`, `Serializer.dfy`, `Deserializer.dfy`,
  `MessageLayouts.dfy`, `BigEndian.dfy`): types are an inductive schema with offsets and marks; memory and wire
  are bytes. Every reader and writer is proved to perform one list of single-byte copies; the theorems are about
  that list. `LayoutWitnesses.dfy` says what the conditions on a type mean and follows one struct byte by byte.
  A copy beyond the end of a span makes a reader or writer answer `ok == false`.
- **Everything together** (`Pipeline.dfy` and the four `Pipeline*` files): feed and handlers as deterministic
  threads over the step-by-step ring, run under an arbitrary schedule.

## Main results

1. *Schedule independence* (`PipelineTheorems.ScheduleIndependence`): under every interleaving, a handler that
   has consumed k frames has not faulted, holds the records of the sequential reader after the first k frames,
   and its book totals them at every price.
2. *Broadcast safety* and *harmless staleness* of the ring in every reachable state (`SpmcProtocol`).
3. *Termination under fairness* (`PipelineFairness.FairSchedulesFinish`): every schedule in which each thread runs
   often enough, in whatever order, stops every handler; the number of rounds needed is given. From every
   reachable state some schedule also delivers the rest of the feed (`PipelineProgress.CanAlwaysFinish`).
4. The table *refines a map* under either probe sequence; a search fails exactly when every slot is occupied
   and the key is absent. A rebuild of a linearly probed table makes every key findable *if and only if* a count of
   entries and gaps made before it says so (`Repairing.RepairsExactly`).
5. The flat serialiser performs exactly the copies of the field-by-field recursion, in the same order, *if and
   only if* `Layout.FlatOk` holds, and leaves the type's stretch of the wire *if and only if* `FlatReach.Reach`
   exceeds it; reading what was written restores every transferred byte, and neither direction touches any other
   byte.

## Where the code falls short of its promise

- **Close race.** `check_pop_status` loads the write index before the closed flag. A handler can be told
  "closed" although frames are waiting: some schedule stops a handler after k frames if and only if the frames it
  has not consumed then fit into the buffer (`PipelineProgress.StopsShortExactly`). A stopped handler has consumed
  everything if and only if the index it loaded last was the final one (`PipelineTheorems.StoppedHandlerDrained`).
- **Padding inside arrays.** Enumeration spaces array elements by `sizeof` on the wire, while the recursion spaces
  them by `raw_size`, which leaves out padding and skipped members (`Layout.FlatRefinesFields`). Some types then
  have bytes at the wrong wire places (`FlatReach.FlatMisplaces`); others are written and read beyond their stretch
  of the wire (`FlatReach.FlatOverruns`).
- **Learning the locate code.** The handler looks at other messages than plain adds only under the code it has
  cached, and the cache starts uninitialised. An attributed add ('F') that opens its stock is lost
  (`FeedWitnesses.OpeningIsLost`); a modify message under the code the field happens to hold makes it fault
  (`FeedWitnesses.ForeignDeleteFaults`). Over a lawful feed it stays in step with the sequential reader if and only
  if neither occurs (`HandlerCore.InStepExactly`).
- **Frames of a wrong length.** A poll that does not fault keeps to the frame boundaries if and only if the frame
  has a header and, unless its body is skipped, the length of its message type (`HandlerCore.AlignedExactly`); an
  add message with a byte too many throws it off (`FeedWitnesses.LongAddMisaligns`).
- **Executions of too many shares** are not refused: the record wraps around to nearly 2^64 shares, and the book no
  longer agrees with the records (`ItchWire.OverReduction`).
- **Orders of no shares.** They leave a level of zero behind unless the level exists (`OrderBooks.AddAgrees`,
  `OrderBooks.EmptyLevelRemains`).
- **Rebuilding a table with wrapped runs** can leave a key behind an empty slot: six operations on a map of four
  slots do it, under either probe sequence (`OpenAddressing.LoseKey`). The handler's table never rebuilds.
- **The tombstone counter** sinks with every lookup that passes a tombstone, below zero if it must: two lookups
  put off the rebuild of that map (`OpenAddressing.LookupsDelayRebuild`).
- **Late consumers.** A consumer that registers after the first publications is safe if and only if the
  producer's stale minimum is still zero (`SpmcRing.RegisterLate`). Otherwise its first slot has been written
  over already, or a push of the right length, which the stale minimum lets pass, writes over it: its first pop
  gives a later item (`SpmcRing.LoseFirstItem`, and `SpmcRing.LateRun` on four slots).
- **Empty pushes** are refused as "buffer full" exactly when the producer knows that everything has been read
  (`SpmcRing.Producer.TryPushMany`); the program never makes one.
- **Truncated file.** `FeedHandler::poll` answers true for ever and the stream is never closed, exactly if the
  file is not made of whole frames (`Framing.ClosesExactly`, `FeedHandlers.FeedHandler.Poll`).

`Itch.WellFormedFeed` is a lawful feed (`Itch.LawfulFeed`, the rules of sections 1.3 and 1.4 of the Nasdaq
TotalView-ITCH 5.0 specification, with orders of at least one share and at most 2^16 of them live) whose frames
the handler can notice (`Itch.Noticeable`).

## Model

| member | source | states |
|---|---|---|
| PipelineTheorems.ScheduleIndependence | include/market_data/market_data_handler.h:34-58 | under every schedule a handler's records are the sequential reader's after the frames it consumed, its book totals them, and it has not faulted |
| PipelineTheorems.StartExists | bench/replay.cpp:31-44 | every configuration with a stock can be started, with a ring of any size |
| PipelineTheorems.SameFramesSameState | include/market_data/market_data_handler.h:34-58 | two runs under any schedules agree on a handler once it has consumed equally many frames |
| PipelineTheorems.FrameAlignment | include/spmc/producer.h:34-48 | the write index is always the end of a frame, a read index between polls the start of one |
| PipelineTheorems.StoppedHandlerDrained | include/spmc/consumer.h:76-86 | a stopped handler has consumed the whole feed iff its last loaded write index was final; a flag set before that load suffices |
| PipelineInvariant.FeedStepHolds | include/feed/feed_handler.h:21-34 | every step of the feed thread keeps the pipeline invariant |
| PipelineInvariant.HandlerStepHolds | include/market_data/market_data_handler.h:34-107 | every step of a handler thread keeps the pipeline invariant |
| PipelineInvariant.CacheCoversFrame | include/spmc/consumer.h:76-86 | once a byte past the start of a frame is in the cached index, the whole frame is: unsafe reads and skips cannot fail |
| PipelineFairness.FairSchedulesFinish | include/feed/feed_handler.h:21-34 | every schedule that runs each thread in so many rounds, in any order, stops every handler; those whose last load saw the closed flag have consumed the feed |
| PipelineFairness.RoundRobin | include/feed/feed_handler.h:21-34 | running the feed and then each handler in turn is such a round |
| PipelineFairness.SomeThreadIsProductive | include/spmc/consumer.h:76-86 | until all handlers have stopped some thread can get something done: a handler with bytes to read, or the feed once they are all read |
| PipelineFairness.ProductiveStays | include/spmc/producer.h:59-76 | and it stays able to, whatever the other threads do first |
| PipelineFairness.StepWorks | include/spmc/producer.h:34-76 | no step adds to the work left, and every step of such a thread lessens it |
| PipelineTheorems.ProgramBufferSuffices | bench/replay.cpp:31 | 2^20 slots are enough for every well-formed feed |
| PipelineProgress.CanAlwaysFinish | include/feed/feed_handler.h:21-34 | from every reachable state some schedule stops all handlers, those not yet raced having consumed the whole feed |
| PipelineTheorems.WorkOnlyShrinks | include/feed/feed_handler.h:21-34 | unpublished plus unread bytes never grow, and shrink by exactly the bytes a step publishes or takes |
| PipelineTheorems.WorkLeftBound | include/spmc/consumer.h:42-67 | that measure is never negative in a reachable state |
| PipelineProgress.DriveHandler | include/market_data/market_data_handler.h:34-58 | run alone from any reachable state, a handler reads all there is and rests, or stops on a closed stream |
| PipelineProgress.PushOne | include/spmc/producer.h:34-76 | with all consumers at one index and room behind it for the next frame, its push succeeds whatever stale minimum it starts from |
| PipelineProgress.StopsShortExactly | include/spmc/consumer.h:76-86 | some schedule stops a handler after k frames iff the rest of the feed fits into the buffer |
| PipelineProgress.LastFrameCanBeLost | include/spmc/consumer.h:76-86 | for every non-empty feed and handler some schedule stops the handler one frame short |
| SpmcProtocol.StepKeepsInv | include/spmc/producer.h:34-76 | every single load, store, slot access and return keeps the ring invariant |
| SpmcProtocol.BroadcastSafety | include/spmc/consumer.h:42-67 | every unread slot holds the item published at its index, and what was popped and skipped tiles the published prefix, in every reachable state |
| SpmcProtocol.ChunksAreTheStream | include/spmc/consumer.h:42-67 | each chunk a consumer has popped is the stretch of the published items where its earlier chunks end, and all of them reach up to its read index: nothing lost, repeated or reordered |
| SpmcProtocol.AnswersAreTheStream | include/spmc/consumer.h:42-67 | a finished pop answers with the last items before the new read index, as many as asked for |
| SpmcProtocol.SuccessIsPublished | include/spmc/producer.h:34-48 | a push that has answered success has published its items last |
| SpmcProtocol.StaleCachesAreHarmless | include/spmc/producer.h:59-76 | cached minimum <= read <= cached write <= write <= cached minimum + capacity, also in the middle of a scan |
| SpmcProtocol.DrainOnClose | include/spmc/consumer.h:76-86 | a closed answer means fewer items than asked for are left if the flag was set when the index was loaded |
| SpmcProtocol.ClosedInTime | include/spmc/consumer.h:76-86 | an operation begun after the close does get that answer |
| SpmcProtocol.ClosedAnswerCanLeaveItems | include/spmc/consumer.h:76-86 | otherwise an item can be left: a run in which the producer publishes and closes between the two loads |
| SpmcAnswers.RefusedPushLackedRoom | include/spmc/producer.h:59-76 | a push refused as full lacked room behind some consumer when its scan began, although the scan loads the indices at different times |
| SpmcAnswers.RefusedIffTooLittle | include/spmc/consumer.h:76-86 | a pop or skip that loads the write index is refused iff too little was published at that load, whatever happens afterwards |
| SpmcRing.RingBuffer.RegisterNewConsumer | include/spmc/ring_buffer.h:41-44 | appends one control block at index 0, or fails when there is no place; the buffer itself stays sound |
| SpmcRing.RegisterLate | include/spmc/ring_buffer.h:41-44 | a late registration leaves the producer valid, and so the new consumer served like the others, iff the producer's stale minimum is zero |
| SpmcRing.LoseFirstItem | include/spmc/producer.h:59-65 | with a stale minimum above zero, the late consumer's first slot is written over already or by a push that the stale minimum lets pass, and its first pop gives a later item |
| SpmcRing.LateRun | include/spmc/producer.h:34-65 | such a run on four slots |
| SpmcRing.WrittenOver | include/spmc/producer.h:42-44 | the slot of an index that has fallen out of the buffer holds a later item |
| SpmcRing.Producer.GetFirstReadIdx | include/spmc/producer.h:67-76 | returns the smallest read index |
| SpmcRing.Producer.IsValidWriteIdx | include/spmc/producer.h:59-65 | answers from the true read indices, whatever the stale minimum; for the index of an empty push, from the stale one |
| SpmcRing.Producer.TryPushMany | include/spmc/producer.h:34-48 | succeeds iff the items fit behind the slowest consumer, and then appends exactly them to the history the buffer holds; an empty push succeeds iff the stale minimum is behind the write index |
| SpmcRing.Producer.TryPush | include/spmc/producer.h:25-32 | the same for one item |
| SpmcRing.Producer.Close | include/spmc/producer.h:50-52 | sets the flag |
| SpmcRing.Consumer.CheckPopStatus | include/spmc/consumer.h:76-86 | success iff enough is published and unread, by the true write index |
| SpmcRing.Consumer.TryPopMany | include/spmc/consumer.h:42-56 | delivers the next items of the history and advances by exactly them, or changes nothing |
| SpmcRing.Consumer.TryPop | include/spmc/consumer.h:30-40 | the same for one item |
| SpmcRing.Consumer.TrySkipMany | include/spmc/consumer.h:58-67 | advances past the next items, or changes nothing |
| Bits.CapacityTest | include/util/open_address_map.h:47-48 | the capacity test accepts exactly the powers of two |
| Bits.MaskIsMod | include/util/open_address_map.h:165-167 | masking is reduction modulo the capacity |
| Probing.Advance | include/util/open_address_map.h:18-30 | the masked step is the modular one |
| Probing.PositionClosedForm | include/util/open_address_map.h:18-30 | after t steps the probe is t, or t(t+1)/2, slots on |
| Probing.FirstProbesDistinct | include/util/open_address_map.h:25-30 | the first `capacity` slots of either sequence differ |
| Probing.EverySlotVisited | include/util/open_address_map.h:169-204 | either sequence visits every slot within `capacity` probes |
| Probing.FirstReturn | include/util/open_address_map.h:193-203 | it stands on its start again first at attempt 2^k (linear) or 2^(k+1) - 1 (triangular) |
| ProbeTable.InsertKeepsPaths | include/util/open_address_map.h:93-112 | occupying the first free slot of an absent key, tombstones included, leaves no key behind an empty slot |
| ProbeTable.EmptyStopsSearch | include/util/open_address_map.h:183-186 | an empty slot on the path proves the key absent |
| ProbeTable.SearchEnds | include/util/open_address_map.h:178-186 | a search that meets the key or an empty slot has the right answer, and has passed a tombstone iff there is one on its way |
| ProbeTable.SearchCircles | include/util/open_address_map.h:199-203 | after a full circle the key is absent, and without a tombstone the table is full |
| OpenAddressing.OpenAddressMap.Search | include/util/open_address_map.h:169-207 | finds the key's slot, or the first free one if the key is absent, or fails exactly on a full table without the key; decrements the counter iff it passes a tombstone |
| OpenAddressing.OpenAddressMap.Subscript | include/util/open_address_map.h:93-112 | binds the key, to the slot's leftover value if it is new; fails exactly on saturation |
| OpenAddressing.OpenAddressMap.Store | include/util/open_address_map.h:71-72 | assignment through a reference rebinds that key only |
| OpenAddressing.OpenAddressMap.Put | include/util/open_address_map.h:93-112 | `map[key] = value` is map update, or a failure that changes nothing |
| OpenAddressing.OpenAddressMap.Find | include/util/open_address_map.h:114-125 | returns exactly the abstract binding, and fails exactly on a full table without the key |
| OpenAddressing.OpenAddressMap.EraseHandle | include/util/open_address_map.h:127-139 | unbinds the key, leaving tombstone and value, and rebuilds past a quarter of tombstones if asked to; the table stays in order unless it rebuilds, and under linear probing then iff it is repairable |
| OpenAddressing.OpenAddressMap.Erase | include/util/open_address_map.h:141-143 | removal by key, with the same effects |
| OpenAddressing.LoseKey | include/util/open_address_map.h:209-230 | a run of four insertions and two erasures after which a bound key cannot be found, under either probe sequence |
| OpenAddressing.RebuildsExactly | include/util/open_address_map.h:127-132 | a rebuild comes iff it is on and the counter, unless it has wrapped, passes a quarter of the slots |
| OpenAddressing.LookupsDelayRebuild | include/util/open_address_map.h:169-204 | a run in which two lookups wrap the counter below zero, so that the rebuild that is due does not come |
| OpenAddressing.OpenAddressMap.ClearTombstones | include/util/open_address_map.h:215-217 | tombstones become empty, nothing else changes |
| OpenAddressing.OpenAddressMap.Reinsert | include/util/open_address_map.h:219-229 | the unguarded inner loop terminates and puts the entry into the first free slot of its path |
| OpenAddressing.OpenAddressMap.Rehash | include/util/open_address_map.h:209-230 | the in-place loops compute the rebuilt table |
| Rehashing.RehashConserves | include/util/open_address_map.h:209-230 | on any table the multiset of entries is unchanged and no tombstone remains |
| Rehashing.RehashKeepsMap | include/util/open_address_map.h:209-230 | keys stay unique and bindings unchanged |
| Repairing.RepairsExactly | include/util/open_address_map.h:209-230 | under linear probing every key is findable afterwards iff the table is full, or the entries with a home from some slot on outnumber the slots there by as many as wrapped entries outnumber the gaps above any slot |
| Repairing.StaysWrapped | include/util/open_address_map.h:219-229 | how many entries the rebuild leaves below their home slot, counted on the table before it |
| Repairing.RehashRepairs | include/util/open_address_map.h:219-229 | without wrapped entries every key is findable afterwards |
| Rehashing.RebuildMovesNothing | include/util/open_address_map.h:209-230 | under either probe sequence the rebuild does no more than clear the tombstones iff that leaves no gap in front of an entry; every key is then findable |
| Rehashing.RehashWithoutTombstones | include/util/open_address_map.h:219-229 | with nothing to reclaim the rebuild changes nothing |
| Rehashing.RehashLosesWrappedKey | include/util/open_address_map.h:219-229 | a table whose keys are all findable before and not after the rebuild, under either probe sequence |
| OrderBooks.OrderBook.AddOrder | src/book/order_book.cpp:5-7 | adds to one level of one side |
| OrderBooks.OrderBook.RemoveShares | src/book/order_book.cpp:29-34 | subtracts from an existing level and drops it at zero |
| OrderBooks.OrderBook.ExecuteOrder | src/book/order_book.cpp:9-11 | removal from one side, the other untouched |
| OrderBooks.OrderBook.CancelOrder | src/book/order_book.cpp:13-15 | removal from one side, the other untouched |
| OrderBooks.OrderBook.ReplaceOrder | src/book/order_book.cpp:21-27 | removal at the old price, then addition at the new one, also when they are equal |
| OrderBooks.AddAgrees | src/book/order_book.cpp:5-7 | a fresh order keeps every level equal to the sum of its live orders iff it has shares or joins a level |
| OrderBooks.EmptyLevelRemains | src/book/order_book.cpp:5-7 | an order of no shares leaves a level of zero in an empty book |
| OrderBooks.ReduceAgrees | src/book/order_book.cpp:29-34 | taking shares off a live order keeps every level equal to that sum, levels of zero absent |
| OrderBooks.LevelIsThere | src/book/order_book.cpp:29-34 | a live order's level exists and holds its shares: no missing level, no underflow |
| OrderBooks.LevelBound | include/market_data/market_data_handler.h:69-76 | every level stays below 2^48 |
| HandlerCore.SimulateAgrees | include/market_data/market_data_handler.h:109-196 | every legal message has the specified effect on the records and keeps the book equal to their totals |
| HandlerCore.ReplaceIsDeleteThenAdd | include/market_data/market_data_handler.h:164-179 | a replacement is a deletion and an add on the same side |
| ItchWire.TypesAndSizes | include/market_data/messages.h:15-67 | the seven type bytes and the body lengths 25, 29, 20, 25, 12, 8, 24 |
| ItchWire.AddParses | include/market_data/messages.h:15-32 | a body of reference, indicator, shares, stock, price (and attribution), each written big-endian, is read as an add with exactly those fields, a buy iff the indicator is 66 |
| ItchWire.ReduceParses | include/market_data/messages.h:34-54 | likewise for executions and cancellations |
| ItchWire.DeleteParses | include/market_data/messages.h:56-59 | likewise for deletions |
| ItchWire.ReplaceParses | include/market_data/messages.h:61-67 | likewise for replacements: original reference, new reference, shares, price |
| ItchWire.ValueOf8 | include/market_data/big_endian.h:11-16 | the value of eight wire bytes from its two halves |
| ItchWire.FrameOkExactly | include/market_data/messages.h:8-67 | a frame is well formed iff it is prefixed by its length and its type's length is 38, 42, 33, 38, 25, 21 or 37 |
| ItchWire.PollTakesBytes | include/market_data/market_data_handler.h:34-58 | that many bytes a poll takes of each of them, whatever follows |
| ItchWire.PollOnBytes | include/market_data/market_data_handler.h:34-58 | a poll on any bytes, with literal lengths and codes: when it goes on, what it skips, what it takes, when it faults |
| ItchWire.Dispatch | include/market_data/market_data_handler.h:181-196 | and on a frame: which bytes call which operation with the fields at which places, under which code; every other byte changes nothing |
| ItchWire.AgreesMeans | include/market_data/market_data_handler.h:69-76 | what agreement of book and records means, price by price |
| ItchWire.TotalCounts | src/book/order_book.cpp:5-7 | an order counts with its shares at its price on its side and nowhere else |
| ItchWire.AddEffect | include/market_data/market_data_handler.h:109-128 | an add records the order and moves one level of its side by its shares; the other side is unchanged |
| ItchWire.ForeignAddEffect | include/market_data/market_data_handler.h:114 | an add of another stock changes nothing |
| ItchWire.ReduceEffect | include/market_data/market_data_handler.h:130-153 | an execution or cancellation of some or all shares takes just those from the record and from its level |
| ItchWire.OverReduction | include/market_data/market_data_handler.h:135-138 | one of more shares than the order has wraps the record around and breaks the agreement |
| ItchWire.DeleteEffect | include/market_data/market_data_handler.h:155-162 | a deletion takes the record and all its shares |
| ItchWire.ReplaceEffect | include/market_data/market_data_handler.h:164-179 | a replacement erases the original and stores the new order, on the same side, under the new reference |
| ItchWire.FaultingMessages | include/market_data/market_data_handler.h:109-179 | a message for an order that is not live faults, and so does an add to a full table |
| ItchWire.AddGoesOn | include/market_data/market_data_handler.h:109-128 | a lawful feed may add an order iff its reference is not live, it has shares and fewer than 2^16 orders are live; the records then |
| ItchWire.ReduceGoesOn | include/market_data/market_data_handler.h:130-153 | it may execute or cancel any part of a live order, and nothing else; the records then |
| ItchWire.DeleteGoesOn | include/market_data/market_data_handler.h:155-162 | it may delete any live order; the records then |
| ItchWire.ReplaceGoesOn | include/market_data/market_data_handler.h:164-179 | it may replace any live order by one with shares under its own or a fresh reference; the records then |
| ItchWire.OthersGoOn | include/market_data/market_data_handler.h:45-49 | other frames leave the records alone and only must not add an order of the stock |
| HandlerCore.HandlerFollowsFeed | include/market_data/market_data_handler.h:34-58 | after any well-formed feed: no fault, records of the sequential reader, book of their totals, locate code cached |
| HandlerCore.FaultsExactly | include/market_data/market_data_handler.h:109-179 | a message faults iff it adds to a full table or refers to no live order |
| HandlerCore.InStepExactly | include/market_data/market_data_handler.h:45-67 | over a lawful feed the handler stays in step with the sequential reader iff the stock opens with 'A' and no earlier message hits the uninitialised locate code |
| HandlerCore.LastFrameDecides | include/market_data/market_data_handler.h:45-49 | one lawful frame keeps the handler in step iff the header filter can notice it |
| HandlerCore.PollTakesFrame | include/market_data/market_data_handler.h:34-58 | on a well-formed frame a poll has the specified effect and takes exactly that frame |
| HandlerCore.AlignedExactly | include/market_data/market_data_handler.h:34-58 | on any length-prefixed frame a poll that does not fault takes exactly that frame iff it has a header, and its type's length unless its body is skipped |
| FeedWitnesses.OpeningIsLost | include/market_data/market_data_handler.h:45-49 | a lawful feed that opens a stock with an attributed add: the reader has the order, the handler nothing |
| FeedWitnesses.ForeignDeleteFaults | include/market_data/market_data_handler.h:67 | a feed lawful for two stocks, an order of one added and deleted: the handler of the other, whose uninitialised field happens to hold the first one's code, faults |
| FeedWitnesses.LongAddMisaligns | include/market_data/market_data_handler.h:34-58 | an add message with one byte too many: the poll leaves that byte in the queue |
| FeedWitnesses.DayOfTheStock | include/market_data/market_data_handler.h:109-179 | a lawful day of a buy, a sell, an execution, a cancellation, a replacement and a deletion: records and levels after each frame |
| MarketData.MarketDataHandler.Poll | include/market_data/market_data_handler.h:34-58 | on any bytes in the queue: what is read, taken, skipped or found missing, and the effect on records, book and locate code |
| MarketData.AlignedPoll | include/market_data/market_data_handler.h:34-58 | at the start of a frame, on every branch, a poll consumes exactly that frame with the specified effect, or nothing if none is there |
| MarketData.MarketDataHandler.TryReadSize | include/market_data/market_data_handler.h:81-93 | the big-endian size if two bytes are there, else the reason |
| MarketData.MarketDataHandler.ReadFromQueueUnsafe | include/market_data/market_data_handler.h:95-107 | the next bytes; the assertion fails iff too few are there |
| MarketData.MarketDataHandler.SimulateMessage | include/market_data/market_data_handler.h:181-196 | reads a body and applies its message; a type outside the seven is skipped with nothing read |
| MarketData.MarketDataHandler.AddOrder | include/market_data/market_data_handler.h:109-128 | the class state changes as the specification function says, and fails when it does |
| MarketData.MarketDataHandler.ExecuteOrder | include/market_data/market_data_handler.h:130-141 | record, book, then erasure: the specified reduction |
| MarketData.MarketDataHandler.CancelOrder | include/market_data/market_data_handler.h:143-153 | erasure before the book is told, from the slot's leftover: the same reduction |
| MarketData.MarketDataHandler.DeleteOrder | include/market_data/market_data_handler.h:155-162 | the specified deletion |
| MarketData.MarketDataHandler.ReplaceOrder | include/market_data/market_data_handler.h:164-179 | erase, insert, book: the specified replacement |
| MarketData.SaturatedIffFull | include/market_data/market_data_handler.h:76 | the table is saturated iff it holds as many orders as slots |
| Framing.FileSource.Next | src/feed/file_source.cpp:29-44 | frames given out plus the unread span always make up the file; each frame is prefixed by its length |
| Framing.SplitInvertsFlatten | src/feed/file_source.cpp:29-44 | a file of prefixed frames is split back into them and then reports closed |
| Framing.SplitConserves | src/feed/file_source.cpp:29-44 | for any file the frames and the leftover make it up |
| Framing.ClosesExactly | src/feed/file_source.cpp:29-44 | the source reports a closed stream in the end iff the file is made of whole prefixed frames, and otherwise "invalid format" for ever |
| Framing.BodiesRoundTrip | src/feed/file_source.cpp:33-43 | any bodies under 2^16 bytes come back in order |
| FeedHandlers.FeedHandler.Poll | include/feed/feed_handler.h:21-34 | publishes the next frame whole, however the consumers read on while it retries; false iff the file is used up, and then the history is the file; a truncated frame changes nothing |
| FeedHandlers.FeedHandler.Publish | include/feed/feed_handler.h:22-25 | the retry loop publishes exactly the frame and keeps producer and ring in order |
| FeedHandlers.FeedHandler.Destroy | include/feed/feed_handler.h:17-19 | closes the stream |
| BigEndian.BigEndianReadsWireValue | include/market_data/big_endian.h:11-16 | native load and conversion give the base-256 value, on either machine |
| BigEndian.SwapReversesBytes | include/stse/detail/serialize.hpp:39-47 | reversing bytes in memory is byteswap on the value |
| Layout.SizeOf | include/stse/detail/layout.hpp:17-32 | the running total is the raw size |
| Layout.CompressLayout | include/stse/detail/layout.hpp:97-111 | the same byte copies in the same order, no two neighbours fusible |
| Layout.EnumerateObject | include/stse/detail/layout.hpp:80-95 | appends exactly the ranges of the type |
| Layout.EnumerateArray | include/stse/detail/layout.hpp:47-61 | appends the ranges of the elements, `sizeof` apart on both sides |
| Layout.EnumerateAggregate | include/stse/detail/layout.hpp:63-78 | appends the ranges of the members, ignored ones leaving wire gaps |
| Layout.BuildSequence | include/stse/detail/layout.hpp:114-120 | an unfusible list of ranges with the copies of the enumeration |
| Layout.FlatRefinesFields | include/stse/detail/layout.hpp:38-95 | flat copies equal the field-by-field copies, in order, iff array elements with anything to transfer are dense |
| FlatReach.SameMemory | include/stse/detail/layout.hpp:38-95 | whatever the type, the flat layout takes the same memory bytes in the same order as the recursion |
| FlatReach.FlatStaysBelow | include/stse/detail/layout.hpp:47-61 | the flat copies stay below a limit on the wire iff the reach of the type does |
| FlatReach.FlatMisplaces | include/stse/detail/layout.hpp:47-61 | a type whose flat copies stay in its stretch but differ from the recursion's |
| FlatReach.FlatOverruns | include/stse/detail/layout.hpp:47-61 | a type whose flat copies leave its stretch |
| Copying.CopiesAreLive | include/stse/detail/deserialize.hpp:68-84 | exactly the bytes of members neither ignored nor skipped are transferred |
| Copying.RoundTrip | include/stse/stse.hpp:29-38 | reading what was written restores every transferred byte and leaves the others, in either byte order |
| Copying.WrittenAreLive | include/stse/detail/serialize.hpp:65-81 | exactly the wire places of members neither ignored nor skipped are filled |
| Copying.WireLiveInside | include/stse/stse.hpp:48-59 | those places lie in the value's stretch |
| Copying.WriteKeepsRest | include/stse/detail/serialize.hpp:65-81 | writing touches no other wire byte, the gaps of ignored members included |
| Copying.ReadKeepsRest | include/stse/detail/deserialize.hpp:68-84 | reading from any wire bytes touches no byte of ignored or skipped members and no padding |
| Copying.BigEndianScalarValue | include/stse/detail/serialize.hpp:29-52 | a scalar serialised as big-endian has its own value on the wire |
| Copying.MemberRead | include/stse/detail/deserialize.hpp:68-84 | each member of a disjoint aggregate receives the wire bytes at its place, wherever it lies in memory |
| LayoutWitnesses.FitsExactly | include/stse/detail/layout.hpp:63-78 | a type fits iff every member lies within its aggregate |
| LayoutWitnesses.DisjointExactly | include/stse/detail/layout.hpp:63-78 | a type is disjoint iff no two transferred members overlap |
| LayoutWitnesses.SampleWritten | include/stse/detail/serialize.hpp:65-81 | the wire bytes of one struct with plain, ignored and skipped members, in either byte order |
| LayoutWitnesses.SampleRead | include/stse/detail/deserialize.hpp:68-84 | and its memory after reading |
| Copying.Memcpy | include/stse/detail/memory.hpp:8-16 | copies a range and nothing else |
| Serializer.SerializeScalar | include/stse/detail/serialize.hpp:29-52 | native or reversed bytes |
| Serializer.SerializeFields | include/stse/detail/serialize.hpp:106-121 | the field-by-field copies |
| Serializer.SerializeStaticContainer | include/stse/detail/serialize.hpp:54-63 | the copies of the elements in order, dense on the wire |
| Serializer.SerializeAggregate | include/stse/detail/serialize.hpp:65-81 | the copies of the members, ignored ones passed over |
| Serializer.SerializeFlat | include/stse/detail/serialize.hpp:83-104 | one memcpy per range performs the ranges' byte copies, or leaves the destination iff one of the copies does |
| Serializer.Serialize | include/stse/detail/serialize.hpp:124-143 | for any type: the flat path leaves the destination iff the type reaches beyond it, and otherwise performs the flat copies; on suitable types both paths write what the recursion specifies; the advance is the raw size |
| Deserializer.DeserializeScalar | include/stse/detail/deserialize.hpp:29-55 | native or reversed bytes |
| Deserializer.DeserializeFields | include/stse/detail/deserialize.hpp:109-124 | the field-by-field copies |
| Deserializer.DeserializeStaticContainer | include/stse/detail/deserialize.hpp:57-66 | the copies of the elements in order |
| Deserializer.DeserializeAggregate | include/stse/detail/deserialize.hpp:68-84 | the copies of the members, ignored ones passed over |
| Deserializer.DeserializeFlat | include/stse/detail/deserialize.hpp:86-106 | one memcpy per range performs the ranges' byte copies, or leaves the source iff one of the copies does |
| Deserializer.Deserialize | include/stse/detail/deserialize.hpp:126-145 | for any type: the flat path leaves the source iff the type reaches beyond it, and otherwise performs the flat copies; on suitable types both paths read what the recursion specifies; the raw size is consumed |
| MessageLayouts.MessageShape | include/market_data/messages.h:15-67 | every message struct has the wire size of its body and suits the flat copies |
| MessageLayouts.ReadsAsParsed | include/market_data/messages.h:15-67 | reading a body into its struct and converting the fields gives the message of the specification |
| MessageLayouts.HeaderReads | include/market_data/messages.h:8-13 | the header fields the handler uses |

## Left out

- Repairing.RepairsExactly: is about linear probing. For the triangular sequence it is stated exactly when the rebuild moves nothing (`Rehashing.RebuildMovesNothing`), and a run that loses a key is given; which moves keep all keys findable is not.
- SpmcProtocol.StepKeepsInv: the step-by-step ring has at least one consumer, all registered before the first push, and no empty pushes; the operations on the classes allow for late consumers and empty pushes.
- FeedHandlers.FeedHandler.Poll: supposes that after so many attempts the consumers have caught up, without which the program retries for ever; under a fair schedule they do, which is part of the step-by-step pipeline. A frame larger than the buffer, on which it would also retry for ever, is left out.
- Serializer.Serialize: says nothing about the bytes once a copy has left the destination, which the language leaves undefined; `Deserializer.Deserialize` likewise.
- Index counters beyond 2^64, and the acquire/release details of the memory model.
- Opening, mapping and closing the file, pinning threads to cores, creating threads, printing.
- Latency recording and its buffers, the instrumentation of the table, the message counter.
- Reflection and concepts of the serialiser, members of base classes, the schema text, the compile-time evaluation path, several objects in one call.
- `make_ticker` and the conversion of timestamps.
- `OrderBook::delete_order`, which the handler does not call.
