# Consolidated book: verified model

Dafny models of five parts of the market-data service, with proofs about every run of each:

- `MPSCQueue`, the bounded lock-free queue between many producers and one consumer. `RingIndex`
  has the index arithmetic, `MpscProtocol` the transition system with one transition per atomic
  operation, `MpscInvariant` its inductive invariant, `MpscTheorems` what follows from it,
  `MpscProgress` the cost of all producers' operations together, and
  `MpscQueues` the object with its two counters and two arrays, where push and pop are the loops of
  the original and any operations of other threads may happen before each of their own.
- `HashIDManager`, the duplicate detector with bounded memory. `HashDetector` has what it remembers
  after a stream and the comparison with a detector that never forgets, `HashIdManagers` the object.
- `CandleManager`, incremental OHLCV candles. `CandleSpec` has the incremental and the batch
  definition, `CandleManagers` the object.
- `ReadNextJsonObject`, the line framer, in `JsonFraming`.
- `BaseProvider`, the reconnection loop, in `Reconnection`.

`Arithmetic` and `Options` hold what several of these share: remainders and powers of two, and the
optional value.

The queue's steps interleave one atomic operation at a time (sequentially consistent) with any
number of producers, any schedule, spurious compare-exchange failures, and arbitrary contents left
in a cell by moving its value out. Logs of claims, published positions, finished pushes and popped
values are part of the state, so that statements about order and loss can be made; no transition
reads them. `MpscQueues.MpscQueue.Interfere` has an empty body on purpose: its callers see only its
contract, which allows any run of the other threads.

Where the code differs from its comments, or has a limit a reader may not expect, the model follows
the code:

- `Pop` returns nullopt exactly when the head is unpublished (`PopEmptyMeansUnpublished`), which is
  not only when the queue is empty: on every ring of at least two
  cells a value can be queued at that moment, claimed and
  not yet published (`EmptyWithAValueQueued`).
- The static assertion on the queue's capacity admits 1, and the ring then loses values
  (`OneCellLosesValues`); it also admits 0, which has no cell to index. The protocol is correct for
  the admitted capacities from 2 on, and for no other (`CapacityMustBeAtLeastTwo`).
- The hash set is described as holding at most `MAX_HASH_SIZE` ids. After a call it holds at most
  `capacity + MAX_HASH_SIZE - 1` (`MemoryBound`), a stream of new ids reaches that size for every
  capacity (`MemoryBoundIsReached`), and the described size is kept on all streams if and only if
  the capacity is 1 (`DocumentedSizeExactlyWhen`).
- A ring larger than `MAX_HASH_SIZE` leaks its zero fill into the set (`LeakedZeroIsNoticed`); the
  documented promise holds for exactly the other sizes (`PromiseNeedsSmallRing`).
- Init clears as many bytes as the ring has entries, so a second call clears only the first eighth
  of the ring. For every capacity some stream leaves an id there after it (`SecondInitKeepsAnId`);
  the last accepted ids and their slots say exactly when none is left
  (`SecondInitClearsExactlyWhen`).
- The average price of a candle lies between low and high at all prices if and only if no quantity
  is negative or there is a single trade (`AverageInRangeExactlyWhen`).
- The reconnect counter is never reset, so the attempt limit counts drops over the provider's whole
  lifetime, through every stop and start (`Reconnection.BaseProvider.LifetimeWaits`).
- When the limit is passed nothing joins the worker. A later start, which assigns to its handle, ends
  the program exactly then, and every other start of a stopped provider begins a worker
  (`Reconnection.BaseProvider.Start`). Destroying the provider ends the program exactly then as well,
  without any later start (`Reconnection.BaseProvider.Destroy`). `RunThenStart` and `RunThenDestroy`
  run into both, and `LimitPassedExactlyWhen` says which connections lead there.
- The capped doubling of the delays is computed in 64 bits. The delays never exceed the cap or the
  doubling (`DelayIsAtMost`), but with some constants they shrink (`OverflowShortensTheDelay`).

## Model

| member | source | states |
|---|---|---|
| RingIndex.CapacityCheckIsPowerOfTwo | server/consolidate_candle_manager/message_queue.h:23 | the compile-time bit test accepts exactly the powers of two |
| RingIndex.MaskIsRemainder | server/consolidate_candle_manager/message_queue.h:43 | masking with one less than a power of two is the remainder, for every position |
| RingIndex.SlotIsRemainder | server/consolidate_candle_manager/message_queue.h:70 | for every admitted capacity a position's cell is its remainder modulo the capacity |
| RingIndex.SlotDistinct | server/consolidate_candle_manager/message_queue.h:70 | any `Capacity` consecutive positions use distinct cells |
| RingIndex.SlotSurvivesWrap | server/consolidate_candle_manager/message_queue.h:43 | a position counter that wraps at 2^64 still selects the same cell |
| RingIndex.SignedDiffIsTrueDiff | server/consolidate_candle_manager/message_queue.h:72 | the signed difference of two wrapped counters is the true difference while they are less than 2^63 apart |
| MpscInvariant.InitialInv | server/consolidate_candle_manager/message_queue.h:26-30 | the constructor establishes the invariant |
| MpscInvariant.StepInv | server/consolidate_candle_manager/message_queue.h:40-90 | every atomic operation of every thread keeps the invariant: counters within a lap, each cell's sequence p or p + 1 as its position is published or not, published values in place, each unpublished claim held by its claimer |
| MpscInvariant.ReachableInv | server/consolidate_candle_manager/message_queue.h:26-90 | the invariant holds in every state of every schedule |
| MpscInvariant.CellSeen | server/consolidate_candle_manager/message_queue.h:71-83 | what a producer with a possibly stale position can find in its cell: equal only if the position is free and in the current lap, behind exactly when the ring is full, ahead only if the position was claimed |
| MpscInvariant.OtherHolder | server/consolidate_candle_manager/message_queue.h:75-88 | two producers never hold the same position or the same cell |
| MpscTheorems.RefinesFifo | server/consolidate_candle_manager/message_queue.h:32-90 | over every schedule the operations are a legal history of a plain bounded FIFO, ending in the queue's contents; what pop delivers is what the FIFO dequeues |
| MpscTheorems.ClaimEnqueues | server/consolidate_candle_manager/message_queue.h:73-76 | a successful compare-exchange is the moment of enqueueing, and there was room |
| MpscTheorems.ReleaseDequeues | server/consolidate_candle_manager/message_queue.h:50-53 | handing the cell back removes the head, and the value being returned is that head |
| MpscTheorems.OtherStepsStutter | server/consolidate_candle_manager/message_queue.h:40-90 | no other operation changes the abstract queue |
| MpscTheorems.ClaimedIsDeliveredThenQueued | server/consolidate_candle_manager/message_queue.h:40-90 | values claimed so far are those delivered followed by those queued: nothing lost, duplicated or reordered; never more than `Capacity` are queued |
| MpscTheorems.ClaimsStayWithinALap | server/consolidate_candle_manager/message_queue.h:50-53 | in every run the claim counter is at most `Capacity` ahead of the dequeue counter, and one more only between the consumer's two stores |
| MpscTheorems.ProducerOrderKept | server/consolidate_candle_manager/message_queue.h:32-55 | what pop returned is a prefix of the claims, and each producer's part of it a prefix of that producer's own pushes that have returned |
| MpscTheorems.RealTimeOrderKept | server/consolidate_candle_manager/message_queue.h:32-55 | in any run, what was claimed by some moment comes out before anything claimed later, and a producer between calls then has all its returned pushes among it, so a push that returned before another began comes out first |
| MpscTheorems.PushRefusesOnlyWhenFull | server/consolidate_candle_manager/message_queue.h:71-80 | push returns false exactly when its position is one lap ahead of the released cells, and then exactly `Capacity` claims are unreleased, even for a position loaded earlier |
| MpscTheorems.PopEmptyMeansUnpublished | server/consolidate_candle_manager/message_queue.h:42-49 | pop returns nullopt exactly when the head is unpublished: nothing queued or its producer is mid-push; the sequence is never ahead of the expected one |
| MpscTheorems.PopEmptyWhenQuiet | server/consolidate_candle_manager/message_queue.h:42-49 | with no push in progress nullopt means an empty queue, both ways |
| MpscTheorems.EmptyWithAValueQueued | server/consolidate_candle_manager/message_queue.h:42-49 | on every ring of at least two cells a run of five operations ends where pop is about to return nullopt while a value is queued |
| MpscTheorems.CellsAreExclusive | server/consolidate_candle_manager/message_queue.h:50-53 | between claim and publication no other producer and not the consumer is in that cell |
| MpscTheorems.PublishedValueIsStable | server/consolidate_candle_manager/message_queue.h:71-88 | a published value stays in its cell under every operation until the consumer takes it |
| MpscTheorems.RetryMeansProgress | server/consolidate_candle_manager/message_queue.h:75-83 | going round the loop means a larger position, won by other producers, or a spurious failure |
| MpscTheorems.LoopIterationsArePaidFor | server/consolidate_candle_manager/message_queue.h:69-84 | in every run, the loop iterations of a call, the one about to begin included, are at most one more than the claims of others during the call plus the spurious failures |
| MpscTheorems.RefusedCallIsPaidFor | server/consolidate_candle_manager/message_queue.h:69-80 | the same bound, over all claims since the call began, for a call about to return false; the queue is then full |
| MpscProgress.CallRecordsItsLoop | server/consolidate_candle_manager/message_queue.h:66-84 | the loop record these bounds speak of counts exactly the sequence loads and the spurious failures of the call, whatever happens in between |
| MpscTheorems.UncontendedPush | server/consolidate_candle_manager/message_queue.h:66-90 | from any reachable state a push left alone enqueues if there is room and is refused otherwise, in five operations |
| MpscTheorems.PushNeverWaits | server/consolidate_candle_manager/message_queue.h:66-90 | a push left alone finishes within six operations from any reachable point of its loop, whatever other threads were doing |
| MpscTheorems.UncontendedPop | server/consolidate_candle_manager/message_queue.h:40-55 | a pop left alone takes the head if it is published and changes nothing otherwise |
| MpscTheorems.PopsDeliver | server/consolidate_candle_manager/message_queue.h:40-55 | with no push in progress, n pops return the first n queued values in order and leave the others, for every n up to the number queued |
| MpscTheorems.PopsDeliverEverything | server/consolidate_candle_manager/message_queue.h:40-55 | as many pops as there are queued values leave the queue empty, and then everything ever claimed has come out, in order |
| MpscTheorems.PushBranchOnWords | server/consolidate_candle_manager/message_queue.h:70-83 | on 64-bit words push takes the branch of the unbounded model, unless it slept through 2^63 - Capacity claims |
| MpscTheorems.CompareExchangeOnWords | server/consolidate_candle_manager/message_queue.h:75 | on 64-bit words the compare-exchange matches exactly when the unbounded counters are equal, unless the producer slept through 2^64 claims |
| MpscTheorems.PopBranchOnWords | server/consolidate_candle_manager/message_queue.h:43-49 | on 64-bit words pop makes the test of the unbounded model, however far the counters have run |
| MpscTheorems.OneCellLosesValues | server/consolidate_candle_manager/message_queue.h:23 | with capacity 1 two pushes of any producer return true and pop finds nothing |
| MpscTheorems.CapacityMustBeAtLeastTwo | server/consolidate_candle_manager/message_queue.h:23 | of the admitted nonzero capacities exactly those from 2 on keep claims within the ring in every run |
| MpscProgress.RunIsPaidFor | server/consolidate_candle_manager/message_queue.h:66-90 | from any reachable state and under any schedule of n producers, the operations of all producers are paid for: five by each call, two by each spurious failure, two of each other producer by each claim |
| MpscProgress.SomePushGetsThrough | server/consolidate_candle_manager/message_queue.h:66-90 | lock-freedom: more operations than that, with six for each producer under way, mean that some push has claimed |
| MpscProgress.AllOperationsArePaidFor | server/consolidate_candle_manager/message_queue.h:66-90 | over any run, n producers take at most 2n + 3 operations per call and two per spurious failure, and claim at most once per call |
| MpscProgress.TallyCounts | server/consolidate_candle_manager/message_queue.h:66-90 | the tally these bounds speak of is the number of moments of the run at which a call begins, a producer operates, a compare-exchange fails spuriously |
| MpscQueues.OthersFrame | server/consolidate_candle_manager/message_queue.h:32-55 | no run of other threads touches a thread's registers or its record of finished calls |
| MpscQueues.MpscQueue.constructor | server/consolidate_candle_manager/message_queue.h:26-30 | the filled arrays are an initial state of the protocol |
| MpscQueues.MpscQueue.Attempt | server/consolidate_candle_manager/message_queue.h:69-84 | one turn of the loop under interference: won, refused at a moment when the ring was full, or again with progress |
| MpscQueues.MpscQueue.Push | server/consolidate_candle_manager/message_queue.h:66-90 | under arbitrary interference the in-place push ends, is recorded exactly once if it returns true and not at all otherwise, and names a moment at which the ring was full if it returns false |
| MpscQueues.MpscQueue.Pop | server/consolidate_candle_manager/message_queue.h:40-55 | under arbitrary interference the in-place pop returns the next value in claim order, or nothing and names a moment at which the head was unpublished |
| HashDetector.FeedTracks | md_provider/provider/hash_manager.cpp:20-59 | after n acceptances the counter is n mod max, the k-th accepted id is in slot (k + 1) mod capacity, and the set is exactly the window of last accepted ids |
| HashDetector.FeedSnoc | md_provider/provider/hash_manager.cpp:48-59 | one more call answers duplicate exactly on the members of that window |
| HashDetector.RingIsLast | md_provider/provider/hash_manager.cpp:34-38 | the ring holds exactly the last `capacity` accepted ids, and zero as long as it was never filled |
| HashDetector.MemoryBound | md_provider/provider/hash_manager.cpp:20-29 | after every call at most capacity + max - 1 ids are in memory |
| HashDetector.MemoryBoundIsReached | md_provider/provider/hash_manager.cpp:20-29 | for every capacity and reset size a stream of new ids brings the memory to exactly that bound |
| HashDetector.DocumentedSizeExactlyWhen | md_provider/provider/hash_manager.cpp:20-29 | at most max ids are in memory on all streams if and only if the ring has one slot |
| HashDetector.EqualAcceptancesAreFarApart | md_provider/provider/hash_manager.cpp:48-59 | an id is accepted again only after at least `capacity` other acceptances |
| HashDetector.RingIsDistinct | md_provider/provider/hash_manager.cpp:34-38 | a filled ring holds pairwise distinct ids |
| HashDetector.AgreesExactlyWhenInTime | md_provider/provider/hash_manager.cpp:20-59 | for all streams and all sizes: the answers are those of a detector that never forgets if and only if every repeat comes within the counted window and no new id is the leaked zero |
| HashDetector.NoResetIsNoticed | md_provider/provider/hash_manager.cpp:3-18 | if repeats come while fewer than `capacity` other ids are new, no reset changes any answer |
| HashDetector.LeakedZeroIsNoticed | md_provider/provider/hash_manager.cpp:40-44 | with a ring larger than the reset size a well-behaved stream gets a wrong answer for id 0 |
| HashDetector.PromiseNeedsSmallRing | md_provider/provider/hash_manager.cpp:20-59 | the promise for all well-behaved streams holds if and only if the ring is no larger than the reset size |
| HashDetector.RefilledEntries | md_provider/provider/hash_manager.cpp:40-44 | entry by entry, a call of any size zeroes the first eighth and appended entries, takes the low bytes of the one it cuts, and keeps all others |
| HashDetector.SecondInitClearsExactlyWhen | md_provider/provider/hash_manager.cpp:40-44 | after any stream, a second call of any size leaves a ring of zeros if and only if each of the last accepted ids is zero, or its slot is cut off or cleared, or its slot is the one the fill cuts and the id is small |
| HashDetector.SecondInitKeepsAnId | md_provider/provider/hash_manager.cpp:40-44 | for every capacity and reset size there is a stream after which a second call of the same size keeps an id in the ring |
| HashIdManagers.HashIdManager.Init | md_provider/provider/hash_manager.cpp:40-44 | in any state: the ring is resized, its first `size` bytes are cleared, set and counters stay; a first call starts the detector |
| HashIdManagers.HashIdManager.UpdateBackUp | md_provider/provider/hash_manager.cpp:34-38 | the in-place ring update is the specified one |
| HashIdManagers.HashIdManager.CheckBackUp | md_provider/provider/hash_manager.cpp:20-29 | the in-place count, and the reset that keeps the ring's ids, are the specified ones |
| HashIdManagers.HashIdManager.UpdateHash | md_provider/provider/hash_manager.cpp:48-59 | the in-place call answers new exactly outside the window of the accepted history and extends the stream's answers by that |
| CandleSpec.ShortcutIsSoundExactlyWhen | candle_manager/src/candle_manager.cpp:40-44 | skipping the update on an unchanged price is harmless if and only if an equal close lies between low and high |
| CandleSpec.UpdatedFields | candle_manager/src/candle_manager.cpp:39-47 | any candle's update adds the trade's quantity and price times quantity, closes at its price, and moves high and low only as far as the price asks |
| CandleSpec.FoldedIsBatch | candle_manager/src/candle_manager.cpp:39-64 | trade-by-trade updating with the shortcut gives first, highest, lowest, last price, total quantity and total notional |
| CandleSpec.BatchFields | candle_manager/src/candle_manager.cpp:50-64 | of an instrument's trades the candle has the first price, the last price, attained bounds, the first trade's exchange, and a window start that is the multiple of the interval at or just before the first event |
| CandleSpec.ToInstrumentId | types/exchange.h:60-69 | each of the three known ids is given to exactly its own name |
| CandleSpec.VolumesAddUp | candle_manager/src/candle_manager.cpp:45-46 | volumes add up over any split of the trades |
| CandleSpec.VolumesOfOne | candle_manager/src/candle_manager.cpp:61-62 | one trade's volumes are its quantity and its price times quantity |
| CandleSpec.HighestPrice | candle_manager/src/candle_manager.cpp:41 | the high is the greatest price, and it is one of the prices |
| CandleSpec.LowestPrice | candle_manager/src/candle_manager.cpp:42 | the low is the least price, and it is one of the prices |
| CandleSpec.HandledIsBatch | candle_manager/src/candle_manager.cpp:29-36 | after one more trade every instrument's candle is again the batch result over its own trades, and only traded instruments have one |
| CandleSpec.TradesOfConcat | candle_manager/src/candle_manager.cpp:29-36 | an instrument's own trades are those with its name, in stream order |
| CandleSpec.InterleavingIsIrrelevant | candle_manager/src/candle_manager.cpp:9-36 | streams with the same trades per instrument give the same candles, instrument by instrument and as a whole |
| CandleSpec.OpenAndCloseInRange | candle_manager/src/candle_manager.cpp:39-64 | open and close lie between low and high |
| CandleSpec.AveragePriceInRange | candle_manager/src/candle_manager.cpp:45-46 | with non-negative quantities low * base <= quote <= high * base |
| CandleSpec.AverageInRangeExactlyWhen | candle_manager/src/candle_manager.cpp:45-46 | trades with given quantities keep the average between low and high at all prices if and only if no quantity is negative or there is one trade |
| CandleSpec.OrderOnlyMattersForOpenAndClose | candle_manager/src/candle_manager.cpp:39-64 | permuting an instrument's trades leaves high, low and both volumes unchanged |
| CandleManagers.CandleManager.UpdateCandle | candle_manager/src/candle_manager.cpp:39-47 | the stepwise update is the specified one, for a consistent candle the one without the shortcut, and adds the quantity and price times quantity |
| CandleManagers.CandleManager.CreateCandle | candle_manager/src/candle_manager.cpp:50-64 | the first trade's candle is the batch result over that trade, with its quantity, price times quantity, and the window that holds its event |
| CandleManagers.CandleManager.CandleOf | candle_manager/src/candle_manager.cpp:29-36 | at any time exactly the traded instruments have a candle, the batch result over their own trades |
| CandleManagers.CandleManager.HandleTrade | candle_manager/src/candle_manager.cpp:29-36 | the map stays the batch result of all trades so far; other instruments' candles are untouched |
| CandleManagers.CandleManager.HandleMessage | candle_manager/src/candle_manager.cpp:9-16 | a message contributes its trades in order and an unparsable one nothing, so grouping into messages is irrelevant |
| CandleManagers.CandleManager.GetCandlesSnapshot | candle_manager/src/candle_manager.cpp:67-73 | the snapshot has each instrument's candle exactly once, in some order |
| JsonFraming.NextFrameIsShortest | utils/utilities.h:21-43 | a read returns the shortest whole-line text from the first brace on whose braces balance, and none exactly if there is no such text |
| JsonFraming.NetCounts | utils/utilities.h:32-37 | the net count is the number of opening less the number of closing braces |
| JsonFraming.ReadCutsTheText | utils/utilities.h:15-44 | a frame is the text from the first brace to the first line end with equal numbers of both braces, its last line terminated, and the rest is left |
| JsonFraming.NoFrameExactlyWhen | utils/utilities.h:21-43 | a read finds nothing if and only if no line end after the first brace has equal numbers of both |
| JsonFraming.ReadsBackOne | utils/utilities.h:21-43 | after any brace-free text a framed text is returned unchanged and what follows it is left |
| JsonFraming.SurvivesExactlyWhenFramed | utils/utilities.h:32-41 | a brace-delimited, line-terminated text is returned unchanged in every context if and only if its braces first balance at its last line end |
| JsonFraming.ReadingUndoesPrinting | utils/utilities.h:15-44 | repeated reads of printed frames with brace-free text between them give those frames in order and then none |
| JsonFraming.FrameIsFramed | utils/utilities.h:25-43 | every frame returned, whatever the text, starts with a brace, ends a line, and balances there for the first time |
| JsonFraming.RereadingChangesNothing | utils/utilities.h:15-44 | reading any text, printing its frames and reading again gives the same frames |
| JsonFraming.InputStream.GetLine | utils/utilities.h:21 | the next line without its terminator; fails only at the end |
| JsonFraming.CountBraces | utils/utilities.h:32-37 | the loop adds the number of a line's opening less that of its closing braces |
| JsonFraming.ReadNextJsonObject | utils/utilities.h:15-44 | the reading loop returns the next frame of the remaining text and leaves the text after it, for every text |
| Reconnection.DelayIsIdealExactlyWhen | md_provider/provider/base_provider.cpp:102-105 | the 64-bit delay is the capped doubling if and only if the product fits in a word or wraps to at least the cap |
| Reconnection.DelaysGrowExactlyWhen | md_provider/provider/base_provider.cpp:102-105 | for all constants the delays are non-decreasing if and only if no wrap among them is harmful |
| Reconnection.DoubledIsProduct | md_provider/provider/base_provider.cpp:103 | the repeated doubling of the delays is the code's product with a shifted one |
| Reconnection.DelayIsAtMost | md_provider/provider/base_provider.cpp:102-105 | for all constants a delay exceeds neither the cap nor the unwrapped doubling |
| Reconnection.DelaysGrow | md_provider/provider/base_provider.cpp:102-105 | a delay without harmful wrap is at least every earlier one, whatever those were |
| Reconnection.OverflowShortensTheDelay | md_provider/provider/base_provider.cpp:102-105 | constants for which the second delay is shorter than the first |
| Reconnection.ScheduleAt | md_provider/provider/base_provider.cpp:93-105 | the k-th wait is the delay computed for reconnection k + 1 |
| Reconnection.DoublingsAreFirst | md_provider/provider/base_provider.cpp:102-105 | the waits below the cap come before all others, as many as the closed form counts |
| Reconnection.ScheduleTotal | md_provider/provider/base_provider.cpp:101-110 | for all constants the first n delays add up to at most the closed form, and to exactly it if and only if no wrap among them is harmful |
| Reconnection.ShippedTotal | md_provider/provider/base_provider.h:48-50 | with the shipped constants the total is 303000 ms |
| Reconnection.ShippedWaits | md_provider/provider/base_provider.h:48-50 | with the shipped constants the ten waits are 1, 2, 4, 8, 16 and 32 seconds, and then one minute four times |
| Reconnection.RunIsBounded | md_provider/provider/base_provider.cpp:50-111 | every run makes at most limit + 1 attempts less the earlier drops, and its waits continue the schedule where the previous run stopped |
| Reconnection.RunEndsAt | md_provider/provider/base_provider.cpp:50-111 | a run goes on through lost connections until a stop or past the limit, and counts every connection but one stopped while connected or before the backoff; a stop during the backoff comes after the count |
| Reconnection.LosingEveryConnection | md_provider/provider/base_provider.cpp:50-111 | if every connection is lost, exactly limit + 1 attempts are made and the whole schedule is waited |
| Reconnection.LimitPassedExactlyWhen | md_provider/provider/base_provider.cpp:50-99 | a run passes the limit if and only if no connection up to the limit's last reconnection meets a stop, and the next does not end in a stop before its drop is counted |
| Reconnection.RunThenStart | md_provider/provider/base_provider.cpp:20-99 | a start after a provider's first run ends the program exactly if that run passed the limit, as it does when every connection is lost |
| Reconnection.RunThenDestroy | md_provider/provider/base_provider.cpp:16-99 | destroying a provider after its first run ends the program exactly if that run passed the limit, as it does when every connection is lost |
| Reconnection.BaseProvider.Start | md_provider/provider/base_provider.cpp:20-30 | ignored exactly while running; ends the program exactly if the provider is stopped and the limit was passed; in all other cases a worker begins |
| Reconnection.BaseProvider.Stop | md_provider/provider/base_provider.cpp:32-48 | the worker is joined exactly if the provider was still running |
| Reconnection.BaseProvider.Destroy | md_provider/provider/base_provider.cpp:16-18 | the destructor ends the program exactly if the limit was passed |
| Reconnection.BaseProvider.HandleReconnection | md_provider/provider/base_provider.cpp:90-111 | does nothing when stopped, otherwise counts and either stops or waits the lesser of the cap and the initial delay shifted by the earlier drops, in 64 bits |
| Reconnection.BaseProvider.Run | md_provider/provider/base_provider.cpp:50-88 | the loop ends with the outcome of the run, whatever each connection meets |
| Reconnection.BaseProvider.LifetimeWaits | md_provider/provider/base_provider.cpp:90-111 | for all constants, over any number of starts and stops the number of waits is at most the limit and their sum at most the closed form |

## Left out

- Memory orderings weaker than sequential consistency, cache alignment and the lvalue/rvalue overloads of the queue.
- MpscQueues.MpscQueue.Push: a producer asleep for a full lap of the 64-bit counter is not modelled; positions are unbounded and `PushBranchOnWords` gives the range in which words behave alike. `limit` and `spurious` bound the interference one call meets, for any bounds, because without bounds the loop need not end.
- MpscTheorems.CapacityMustBeAtLeastTwo: capacity 0 is not covered, because the original then indexes an array with no cells.
- Overflow of the signed subtraction in the queue's comparisons is taken as two's complement.
- HashIdManagers.HashIdManager.UpdateHash: a call before Init, or after a size of 0, divides by zero in the original and is excluded. The answers are proved for streams after a single Init.
- HashIdManagers.HashIdManager.Init: ids are taken as little-endian 64-bit words, which decides which part of an entry a fill that ends inside it clears.
- The widths of ids, of the detector's counters and of the brace depth; ids are only compared, and the counters stay below their bounds.
- Floating-point rounding and NaN in candles; prices and quantities are real numbers.
- A candle interval of 0, for which the original divides by zero.
- Candle windows that close: the original never sets a window end.
- Parsing of exchange messages, instrument lists and configuration; HandleMessage starts from the parsed trades.
- Reconnection.BaseProvider.Run: a connection that never ends is not an attempt that returns; sockets, threads, logging and real sleeping are events and a log of waits. Attempt limits above 64 would shift by more than the word and are excluded.
- `ConsolidateCandleManager` and the pipe it reads from; their parts are not in the repository.
