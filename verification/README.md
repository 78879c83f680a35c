# Verified model of the market-data pipeline

A Dafny 4.11 model of the C++ market-data client: WebSocket frames enter a lock-free single-producer/single-consumer
ring, consumer threads drain the rings into one shared last-price store, a sharder spreads tokens over connections and
keeps them subscribed, and small helpers compute TOTP codes and request targets. Every statement below is proved for
all inputs, all runs or all interleavings it ranges over. `dafny verify dfyconfig.toml` checks the project.

| file | models |
|---|---|
| `SpscRing.dfy` | `try_push` and `try_pop` of two threads, interleaved at every load, slot access and store, with stale loads |
| `IngestQueue.dfy` | `next_pow2`, the 64-bit index arithmetic, and the ring class as one thread sees it |
| `Pipeline.dfy` | many bounded FIFOs and consumer threads over one store, with stops and restarts |
| `RingPipeline.dfy` | the same with the ring itself in every lane, and the projection of its runs to `Pipeline.dfy` |
| `Progress.dfy` | what can still be done from every point of every run: restart, drain, stop, push and deliver one more |
| `Consumer.dfy`, `LtpStore.dfy`, `Parser.dfy` | the drain loop, the store, frame parsing on a JSON tree |
| `WebSocketClient.dfy` | the mutually recursive connection loop against a flat automaton and its trace language |
| `Sharder.dfy`, `SubscriptionManager.dfy`, `Chunking.dfy` | sharding, subscription batches, reconciliation |
| `Wiring.dfy` | the callbacks between connection, ring and subscriptions; from the socket to the store |
| `Sessions.dfy` | which sessions of a connection are handed their subscriptions |
| `Base32.dfy`, `Totp.dfy` | Base32 with a 32-bit accumulator, HOTP, time windows |
| `HttpClient.dfy` | percent-encoding, query strings, https URL splitting |
| `Bits.dfy`, `Wrappers.dfy` | machine words, bitwise operators, option and result types |

How the model stands to the code:

- An atomic counter of the ring is the list of all values stored to it. A thread's load of the other thread's counter
  may return any store from the last one that thread has seen onwards, so correctness does not rest on fresh values.
  The position in that list is the unbounded count; the stored values are only ever kept modulo 2^64. Each store
  carries how many slot accesses its thread had made and how far it had seen the other counter (release), each load of
  it makes these known (acquire), and each
  slot records its last accesses, so an unordered pair of accesses to one slot would show.
- A slot that has been moved from may hold any string afterwards, as the C++ library allows.
- Iterating over a hash set is picking an arbitrary remaining element, so results hold for every iteration order.
- The network, and the moment `stop` clears `running`, are a tape read by the connection loop.
- HMAC, JSON text parsing, number conversion and price values are arbitrary functions or opaque values.

Results that differ from what the names or comments of the code suggest:

- `IngestQueue::size()` is bounded by the capacity only on the producer or the consumer thread. On a third thread it is
  sure to be in range exactly while nothing has been popped (`SpscRing.ObserverSize`): what such a thread computes is in
  range unless the tail passed the head between its two loads, and then it wraps (`SpscRing.ObservedSize`).
  `SpscRing.ObserverSizeCanWrap` gives a run on which it is 2^64 - 1.
- `try_push` may report "full" on a ring that has room, even on an empty one, when its view of the consumer is stale:
  `SpscRing.StaleRejection` gives a run for every capacity and every amount of room, and `SpscRing.ResultsAreExact` says
  exactly what both results mean. A ring offered no more frames than it has slots rejects none
  (`RingPipeline.NoDropsWithinCapacity`).
- With 10 digits the HOTP modulus wraps to 1410065408; `Totp.HotpMeetsRfc4226` gives the exact condition under which
  the code still agrees with RFC 4226, `Totp.TenDigitsCanDisagree` a generator whose code does not.
- After a stop during a session `connected` stays true: it is true at the end of a run exactly when the latest notice is
  "connected" (`WebSocketClient.WebSocketClient.Run`). A restart then makes its first attempt with the flag still set
  (`WebSocketClient.WebSocketClient.Restart`), and if that attempt fails the flag is cleared while the latest notice is
  still "connected", until "reconnecting" is announced (`WebSocketClient.WebSocketClient.ConnectOnce`).
- The first connection of a run, when it succeeds at once, is never followed by the resubscribe hook
  (`WebSocketClient.TraceShape`). Its session is handed only the payloads that `start` sends while it lasts: it is
  subscribed exactly when all of them are (`Sessions.SubscribedSessions`), and not at all when they are sent before the
  connection stands (`Sessions.FirstSessionCanBeUnsubscribed`).
- `next_pow2` returns 0 for arguments above 2^63 (`IngestQueue.NextPow2`); the ring constructed for such a capacity has no
  slots and a mask of all ones, which the assertion in the constructor catches in debug builds.

## Model

| member | source | states |
|---|---|---|
| SpscRing.StepKeepsInv | src/ingest_queue.cpp:20-41 | the ring invariant survives every step of either thread, whichever store a load of the other counter returned |
| SpscRing.ReachableInv | src/ingest_queue.cpp:15-41 | the invariant holds after every run of the constructed queue, for every interleaving |
| SpscRing.FifoOnEveryRun | src/ingest_queue.cpp:20-41 | frames popped so far, followed by those memory still holds between the two counters, are the frames successfully pushed, in order, and at most capacity are in the ring |
| SpscRing.RefinesFifo | src/ingest_queue.cpp:20-41 | each ring step is a step of a bounded FIFO: the head store appends to a queue that is not full, the tail store takes the front, nothing else changes it |
| SpscRing.FullTestIsExact | src/ingest_queue.cpp:21-23 | the equality-only test on wrapped words decides the unbounded comparison, because pushes never exceed the seen pops by more than the capacity |
| SpscRing.EmptyTestIsExact | src/ingest_queue.cpp:35-37 | the test on a possibly stale head is true exactly when no further push has been seen |
| SpscRing.SlotAccessesAreOrdered | src/ingest_queue.cpp:22-25 | before a slot is written the last move out of it, that of the frame one capacity earlier, is known to the producer, and before it is moved out the write of the very frame being popped is known to the consumer: release and acquire order all slot accesses |
| SpscRing.PendingAccessesAreDisjoint | src/ingest_queue.cpp:24-38 | a pending write and a pending move never target one slot |
| SpscRing.ResultsAreExact | src/ingest_queue.cpp:23-37 | a push is rejected exactly when the ring is full counting the pops the producer has seen, a pop is refused exactly when the consumer has seen no push; with fresh views these are full and empty; an accepted push finds room |
| SpscRing.SoloPush | src/ingest_queue.cpp:20-27 | an uninterleaved push that sees the newest tail succeeds whenever there is room and appends its frame |
| SpscRing.SoloPop | src/ingest_queue.cpp:34-41 | an uninterleaved pop that sees the newest head takes the oldest frame whenever there is one |
| SpscRing.ProducerSize | src/ingest_queue.cpp:43-47 | on the producer thread size() is at most the capacity and never under-reports |
| SpscRing.ConsumerSize | src/ingest_queue.cpp:43-47 | on the consumer thread size() is at most the capacity and never over-reports |
| SpscRing.ObservedSize | src/ingest_queue.cpp:43-47 | the acquire load of a head bounds how old the tail loaded next can be, so size() is the exact distance, at most the capacity, unless the tail passed the head between the loads; then it wraps |
| SpscRing.ObserverSize | src/ingest_queue.cpp:43-47 | on any other thread size() is sure to be within the capacity exactly while nothing has been popped; for runs of any length |
| SpscRing.ObserverSizeCanWrap | src/ingest_queue.cpp:43-47 | a concrete run on which a third thread obtains 2^64 - 1 |
| SpscRing.StaleRejection | src/ingest_queue.cpp:20-23 | for every capacity and every n up to it, a run after which a push is rejected though n slots are free |
| SpscRing.StaleRefusal | src/ingest_queue.cpp:34-37 | for every capacity and every n up to it, a run after which a pop is refused though n frames are waiting |
| IngestQueue.NextPow2 | src/ingest_queue.cpp:5-13 | the least power of two that is at least the argument and at least 8, for arguments up to 2^63; 0 above |
| IngestQueue.Smear | src/ingest_queue.cpp:10-11 | the doubling-shift loop turns every digit below the leading one into a one |
| Bits.IsPowerOfTwoCorrect | src/ingest_queue.cpp:5 | the bit test holds of exactly the powers of two |
| IngestQueue.SlotOfCounter | src/ingest_queue.cpp:24-38 | masking the wrapped counter gives the unbounded counter modulo the capacity, across wrap-around |
| IngestQueue.DistanceIsExact | src/ingest_queue.cpp:23-46 | the wrapped difference of counters at most the capacity apart is their true difference |
| IngestQueue.DistinctSlots | src/ingest_queue.cpp:24-38 | from any 64-bit position, fewer than capacity consecutive counters occupy distinct slots |
| IngestQueue.IngestQueue.constructor | src/ingest_queue.cpp:15-18 | up to 2^63 an empty ring whose slot count is the least admissible power of two; above, a vector of no slots and a mask of all ones |
| IngestQueue.IngestQueue.TryPush | src/ingest_queue.cpp:20-27 | appends exactly when the ring is not full, and leaves the contents alone otherwise |
| IngestQueue.IngestQueue.TryPop | src/ingest_queue.cpp:34-41 | removes and returns the oldest frame, or nothing exactly when the ring is empty |
| IngestQueue.IngestQueue.Size | src/ingest_queue.cpp:43-47 | the number of queued frames, at most the capacity |
| IngestQueue.IngestQueue.Empty | src/ingest_queue.cpp:49-51 | true exactly when nothing is queued |
| IngestQueue.IngestQueue.Full | src/ingest_queue.cpp:53-55 | true exactly when capacity frames are queued |
| IngestQueue.IngestQueue.Clear | src/ingest_queue.cpp:57-62 | empties the ring and every slot |
| Pipeline.LaneStepKeepsInv | src/consumer.cpp:10-33 | every step of a lane (push, start, stop, join, flag read, pop, parse, upsert, sink call) keeps the conservation invariant |
| Pipeline.Conservation | src/consumer.cpp:10-33 | across stops and restarts, offered = dropped + queued + popped; popped then queued frames are the frames taken, in order; upserts and sink calls are the parsed popped frames, in order, once each; a stopped consumer holds nothing back |
| Pipeline.OffersAreThePushes | src/sharder.cpp:116-118 | the offers a lane accounts for are exactly the pushes of the run, dropped ones included, in order |
| Pipeline.LaneQueueIsTheRing | src/sharder.cpp:114-120 | a lane's queue follows the ring step for step, rejections included, wherever the consumer stands when the producer acts |
| Pipeline.StoreIsFold | src/ltp_store.cpp:5-8 | whether or not lanes share tokens, the store is the last-writer-wins fold of an interleaving of the lanes' accepted frames, the one the schedule gives |
| Pipeline.SingleConsumerStore | src/consumer.cpp:21-33 | with one consumer the store is the fold of the frames it has handled, parsed, in order |
| Pipeline.StoreIsUnionOfLanes | src/consumer.cpp:21-33 | with disjoint token sets the store is, at every point of every run, the union of the lanes' own folds |
| Pipeline.ScheduleDoesNotMatter | src/consumer.cpp:21-33 | two drained runs whose rings took the same frames end with the same store, whatever the thread schedules |
| Pipeline.ReadsFollowLaneOrder | src/ltp_store.cpp:10-15 | a read of a token finds the last value its lane has written for it, or none exactly when there is none; of two reads the later finds the same or a later position of the lane's order, so positions chain over any number of reads |
| Pipeline.ShardedLanesAreDisjoint | src/sharder.cpp:70-120 | a duplicate-free list cut by the sharder gives disjoint lanes when each socket delivers its own tokens |
| RingPipeline.LaneStepRefines | src/consumer.cpp:21-33 | a load, slot access or store inside try_push or try_pop, or a consumer step, is one step of the FIFO pipeline or none, at any point of the other thread |
| RingPipeline.RefinesPipeline | src/sharder.cpp:93-120 | every run of producers, rings and consumers, for every interleaving and all stale loads, is a run of the FIFO pipeline with the same offers, pops, upserts, sink calls and store |
| RingPipeline.RingConservation | src/consumer.cpp:21-33 | at every point of every such run the frames offered are those dropped, those in ring memory and those popped, in order, and the popped ones are parsed, stored and sunk in order, once |
| RingPipeline.RingStoreIsUnionOfLanes | src/consumer.cpp:21-33 | with disjoint tokens the store holds for each lane's tokens the fold of the frames that lane handled |
| RingPipeline.RingScheduleDoesNotMatter | src/consumer.cpp:21-33 | two drained runs whose rings took the same frames end with the same store, whatever the interleavings and the staleness of loads |
| RingPipeline.RingReadsFollowLaneOrder | src/ltp_store.cpp:10-15 | the same for reads at any two points of a run of the rings |
| RingPipeline.NoDropsWithinCapacity | src/sharder.cpp:116-118 | a lane offered no more frames than its ring has slots drops none under any schedule |
| RingPipeline.ShardedRingsAreDisjoint | src/sharder.cpp:70-120 | rings that carry only their own worker's tokens carry disjoint sets when the sharder cut a duplicate-free list |
| Progress.EverythingCanBeDelivered | src/consumer.cpp:10-33 | from every point of every run, with consumers never started, running, stopped or mid-frame, the run can go on without a push until every frame taken is popped, parsed, stored and sunk, in order, once |
| Progress.StopIsPrompt | src/consumer.cpp:16-23 | after a stop is requested and until the next start a consumer takes at most one more frame |
| Progress.RingsCanBeDelivered | src/ingest_queue.cpp:20-41 | the same for the rings, from every point inside a push or pop and after any stale loads: the pushes under way finish, taken unless the ring is full, every ring empties and everything taken is stored |
| Progress.AnotherFrameCanBeDelivered | src/sharder.cpp:93-120 | from every point of every run any further frame can be pushed into the ring of any lane, taken, and delivered as the lane's last |
| LtpStore.LastWriterWins | src/ltp_store.cpp:5-8 | after any writes a token maps to the value of its last write, or to what it mapped to before |
| LtpStore.LtpStore.Upsert | src/ltp_store.cpp:5-8 | overwrites the entry of the value's token and no other |
| LtpStore.LtpStore.Get | src/ltp_store.cpp:10-15 | the stored value of a token, or nothing exactly when there is none |
| LtpStore.LtpStore.Snapshot | src/ltp_store.cpp:17-20 | a copy of all entries |
| Consumer.Consumer.Iterate | src/consumer.cpp:24-31 | one loop pass: the oldest frame, if any, is rejected, or stored and handed to the sink |
| Consumer.Consumer.Run | src/consumer.cpp:21-33 | the oldest frames, one per pass until the flag first reads false, are taken while there are any; the store becomes the fold of those the parser accepts and the sink gets them in order |
| Consumer.AcceptedTokens | src/consumer.cpp:28-29 | the accepted values are exactly the parses of the frames taken |
| Parser.GetAny | src/parser.cpp:12-49 | the value of the earliest key that is present and readable, or none when no key is |
| Parser.FirstReadableIsFirst | src/parser.cpp:12-49 | the reference function for key priority has that meaning |
| Parser.WrappersAreTransparent | src/parser.cpp:70-76 | an object is found unchanged through a "data" object, a "data" array and arrays of these; bare or first in an array exactly when it has no "data" object or non-empty "data" array of its own |
| Parser.Parse | src/parser.cpp:65-113 | the statement-by-statement parser computes the reference parse, whose meaning on the JSON tree is Parser.ParseMeaning |
| Parser.ParsedFields | src/parser.cpp:91-112 | accepted exactly when a token key and a price key are readable; each field comes from the earliest readable key of its list (Parser.ParseMeaning says what readable is) |
| Parser.ParseMeaning | src/parser.cpp:12-113 | for every library, prefix and wrapper: a frame gives a token, price and time exactly when the first of token, symbol, tradingsymbol, instrument_token, tokenID that holds a text or number names it, the first of the price keys that holds a number or numeric text gives the price, and the first readable timestamp gives the time, in seconds below 10^12 and milliseconds from there |
| Parser.OthersAreRejected | src/parser.cpp:65-70 | text that is no JSON, a scalar, an empty array and an array that does not start with an object are rejected |
| Parser.PlainFrame | src/parser.cpp:91-112 | an object with a textual token and a price is filed under that token at that price, at the epoch |
| Parser.SubscribedNameParsesToToken | src/parser.cpp:103-106 | a frame about prefix + t is filed under t, for every prefix and token |
| Parser.SecondsAndMillisecondsAgree | src/parser.cpp:53-60 | a second count and its millisecond form are the same instant exactly in a stated range and at zero |
| WebSocketClient.WebSocketClient.Run | src/websocket_client.cpp:152-160 | on every tape and after whatever earlier runs left behind, the recursive code appends exactly the events of the flat automaton, and at the end `connected` is true exactly when the latest notice is "connected" |
| WebSocketClient.WebSocketClient.Restart | src/websocket_client.cpp:193-203 | a run after a stop makes its first attempt with `connected` still set exactly when the latest notice so far is "connected", and then emits what a first run would |
| WebSocketClient.WebSocketClient.ReadLoop | src/websocket_client.cpp:114-135 | continues a session as the automaton does; at each loop head `connected` agrees with the latest notice |
| WebSocketClient.WebSocketClient.ReconnectLoop | src/websocket_client.cpp:139-150 | continues an outage as the automaton does; at each loop head `connected` agrees with the latest notice |
| WebSocketClient.WebSocketClient.ConnectOnce | src/websocket_client.cpp:64-111 | announces the attempt with the flag as it was, consumes one outcome and sets the flag to it; flag and latest notice then agree exactly unless it failed after a "connected" notice |
| WebSocketClient.WebSocketClient.Emit | src/websocket_client.cpp:44-47 | every notice, message and hook call happens with `connected` set exactly when the latest notice, its own included, is "connected" ("connecting" leaves both as they are); required of every caller |
| WebSocketClient.WebSocketClient.SendText | src/websocket_client.cpp:205-212 | succeeds exactly when the flag is set and the write goes through |
| WebSocketClient.TracesAreTheLanguage | src/websocket_client.cpp:64-160 | the traces of the client over all tapes are exactly the language of a transition system given by its transition function |
| WebSocketClient.TraceShape | src/websocket_client.cpp:64-160 | "connected" directly follows "connecting", nothing follows "closed", two "reconnecting" have a "connected" between, messages come only inside a session, sleeps only after a failed attempt of an outage, and the hook follows exactly the reconnect loop's connections |
| WebSocketClient.LanguageIsShaped | src/websocket_client.cpp:64-160 | the same of every trace in the language, whatever produced it |
| WebSocketClient.SleepsAreBackoffs | src/websocket_client.cpp:139-148 | the k-th sleep of an outage lasts min(initial * 2^k, max), the first the initial value, for settings that are not negative |
| WebSocketClient.OneResubscribePerReconnect | src/websocket_client.cpp:139-147 | a connection made by the reconnect loop gets one resubscribe call, directly after "connected" |
| WebSocketClient.MessagesInOrder | src/websocket_client.cpp:114-135 | across reconnects the messages delivered are exactly those among the outcomes its reads returned, in order, each once |
| WebSocketClient.BackoffDoubles | src/websocket_client.cpp:140-148 | the doubling update computes min(initial * 2^k, max) for the next k |
| WebSocketClient.DoublingFits | src/websocket_client.cpp:147-148 | doubling a sleep stays within 64 bits when twice the initial value and twice the maximum do |
| Chunking.MakeChunks | src/sharder.cpp:50-62 | the one chunking of the list into pieces of the limit, with no index wrap and no oversized reservation, for every limit and every list shorter than 2^63 |
| Chunking.ChunkingUnique | src/subscription_manager.cpp:141-155 | a list and a limit determine the pieces |
| Chunking.ChunkCount | src/sharder.cpp:55 | the number of pieces is the number of items over the limit, rounded up |
| SubscriptionManager.SubscriptionManager.constructor | src/subscription_manager.cpp:11-18 | empty sets; the batch size given, or 100 for 0 |
| SubscriptionManager.SubscriptionManager.Add | src/subscription_manager.cpp:20-23 | adds one desired token; the manager stays valid exactly when the set stays below 2^63 tokens |
| SubscriptionManager.SubscriptionManager.AddMany | src/subscription_manager.cpp:25-28 | adds exactly the listed tokens; the manager stays valid exactly when the set stays below 2^63 tokens |
| SubscriptionManager.SubscriptionManager.Remove | src/subscription_manager.cpp:30-33 | removes one desired token |
| SubscriptionManager.SubscriptionManager.ClearDesired | src/subscription_manager.cpp:35-38 | empties the desired set, not the active one |
| SubscriptionManager.SubscriptionManager.SetBatchSize | src/subscription_manager.cpp:45-48 | the batch size becomes the argument, or 100 for 0 |
| SubscriptionManager.SubscriptionManager.BuildSubscribeBatches | src/subscription_manager.cpp:55-66 | payloads naming every token desired but not active once, formatted, in full batches but the last, with mode "ltp", "quote" or "full" |
| SubscriptionManager.SubscriptionManager.BuildUnsubscribeBatches | src/subscription_manager.cpp:68-79 | payloads naming every token active but not desired once, formatted, in full batches but the last, with mode "ltp", "quote" or "full" |
| SubscriptionManager.SubscriptionManager.MarkSubscribed | src/subscription_manager.cpp:81-84 | the active set gains exactly the acknowledged tokens; the manager stays valid exactly when the set stays below 2^63 tokens |
| SubscriptionManager.SubscriptionManager.MarkUnsubscribed | src/subscription_manager.cpp:86-89 | the active set loses exactly the acknowledged tokens |
| SubscriptionManager.Difference | src/subscription_manager.cpp:106-118 | lists the set difference without repetition, for any iteration order |
| SubscriptionManager.AckProgress | src/subscription_manager.cpp:81-89 | an acknowledgement lowers the distance by the distinct pending tokens it names and raises it by those it unsettles |
| SubscriptionManager.SettledIffEqual | src/subscription_manager.cpp:55-79 | both builders list nothing exactly when active equals desired, the lists measure the distance, and they are disjoint |
| SubscriptionManager.SnapshotAcksConverge | src/subscription_manager.cpp:55-89 | acknowledging tokens of one snapshot, in any order, split or repeated, lowers the distance by the distinct tokens, and reaches active = desired exactly when all are acknowledged |
| Sharder.RunningWorkers | src/sharder.cpp:176-233 | after any calls: running exactly while there are workers; max(1, ceil(n/max)) of them, max being the option or 800 for 0, none over it, concatenating to the list at the last start; a start leaves it running, a stop without workers, only set_tokens changes the pending list |
| Sharder.ShardsDisjoint | src/sharder.cpp:50-62 | no token of a duplicate-free list goes to two workers |
| Sharder.Sharder.SetTokens | src/sharder.cpp:176-185 | replaces the pending list and leaves running workers alone |
| Sharder.Sharder.Start | src/sharder.cpp:187-212 | does nothing when running; otherwise builds the workers of the pending list and offers every worker's tokens, each name the prefix followed by the token |
| Sharder.Sharder.Stop | src/sharder.cpp:214-229 | drops all workers when running |
| Sharder.Sharder.BuildWorkers | src/sharder.cpp:70-134 | one worker per shard, at least one, each wired to a manager desiring exactly its tokens |
| Sharder.Sharder.WireWorker | src/sharder.cpp:81-91 | a worker with a manager of its own that desires exactly the shard's tokens and formats each as the prefix followed by the token |
| Sharder.Sharder.SendInitialSubscribes | src/sharder.cpp:136-145 | offers every worker its whole token set, each name the prefix followed by the token |
| Sharder.Sharder.Resubscribe | src/sharder.cpp:122-130 | every call of the hook offers the worker's entire desired set again, prefix before each token, since nothing in this wiring marks a token active |
| Sharder.OfferSubscribes | src/sharder.cpp:81-91 | the payloads offered name, in order, the prefix followed by each token, every token once, in batches of the option given (100 for 0) but the last, with action "subscribe" and mode "ltp" |
| Sharder.StartOffersEveryToken | src/sharder.cpp:136-145 | for any list, limits and iteration order the names offered, prefix removed, are exactly the tokens set, once each without duplicates; every payload is within the batch size |
| Sharder.OfferedAreListed | src/sharder.cpp:86-91 | removing the prefix as the parser does recovers the tokens behind the payloads |
| Wiring.RunCallbacks | src/sharder.cpp:114-130 | over any trace of a connection, with pops between: every message is offered to the ring once, in order, frames popped and queued are those taken, and every hook call offers the worker's whole token set |
| Wiring.ReconnectsCoverTheWorker | src/websocket_client.cpp:139-147 | every connection made by the reconnect loop is followed at once by a hook call whose payloads name exactly the worker's tokens |
| Wiring.FedRingsAreDisjoint | src/sharder.cpp:70-120 | rings fed by such clients carry disjoint token sets, so every result about disjoint lanes holds of them |
| Wiring.SocketToStore | src/sharder.cpp:93-120 | for workers cut from a duplicate-free list whose server sends each only its own tokens: at every point of every run the frames offered to a lane are the first messages its client read and reads find the last value filed; without drops the values filed are those of the first messages, and of all of them once offered and drained; messages that fit the ring are never dropped |
| Sessions.SubscribedSessions | src/sharder.cpp:136-145 | a session is handed the worker's whole token set exactly when it is not the first, or the first attempt failed, or every payload sent at start was sent while it lasted |
| Sessions.FirstSessionCanBeUnsubscribed | src/websocket_client.cpp:205-212 | a run whose only session is handed no token, because the payloads of start were sent before it began |
| Base32.Decode | src/totp.cpp:24-53 | decoding with the unmasked 32-bit accumulator equals decoding the unbounded bit string, floor(5m/8) bytes for m symbols; which texts decode to what is Base32.SpelledTextDecodes and Base32.AcceptedTexts |
| Base32.PushSymbolResidue | src/totp.cpp:43 | in its low 32 bits the accumulator gains the symbol, whatever the shift discards |
| Base32.TakeByteIsFirstEight | src/totp.cpp:45-48 | the byte taken is the first eight pending bits and the rest stay pending |
| Base32.DecodeInvertsEncode | src/totp.cpp:24-53 | any text that normalises to the RFC 4648 letters of a byte string decodes to it |
| Base32.EncodedTextDecodes | src/totp.cpp:24-53 | the padded output of the RFC 4648 encoder decodes to the bytes |
| Base32.SpelledTextDecodes | src/totp.cpp:24-53 | the RFC 4648 letters of a byte string, each in upper or lower case, with spaces, tabs, line and form feeds, vertical tabs, carriage returns and '=' anywhere, decode to the bytes |
| Base32.AcceptedTexts | src/totp.cpp:28-42 | a text is refused exactly when it has a character other than A-Z, a-z, 2-7, '=' and the six white-space characters |
| Base32.LettersAreTheAlphabet | src/totp.cpp:14-22 | symbol v is written as character v of A-Z, 2-7 |
| Base32.RespellingsDecodeAlike | src/totp.cpp:25-32 | texts that differ in case, padding and whitespace, character by character, decode alike |
| Totp.Create | src/totp.cpp:78-93 | the three errors in their order, and a valid generator otherwise |
| Totp.CounterBytes | src/totp.cpp:111-116 | the eight bytes are the big-endian form of the counter |
| Totp.CounterRoundTrip | src/totp.cpp:111-116 | the eight bytes determine the 64-bit counter |
| Totp.DynamicTruncation | src/totp.cpp:128-134 | 31 bits of the big-endian number at the offset in the last nibble, every index in range |
| Totp.TruncatedBytes | src/totp.cpp:128-134 | the value is (m[o] mod 128) 2^24 + m[o+1] 2^16 + m[o+2] 2^8 + m[o+3] where o is the low nibble of the last byte |
| Totp.LeftPadInt | src/totp.cpp:64-72 | exactly the requested number of digits, denoting the value modulo the 32-bit modulus |
| Totp.Hotp | src/totp.cpp:106-137 | the code string of the truncated HMAC of the counter |
| Totp.HotpMeetsRfc4226 | src/totp.cpp:64-72 | always the requested length; value modulo 10^digits exactly when digits < 10 or the value is below 1410065408 |
| Totp.HotpFromBytes | src/totp.cpp:106-137 | for 6 to 9 digits the code is the decimal text, of that many digits, of that number modulo the power of ten, from the HMAC of the eight counter bytes, most significant first |
| Totp.Rfc4226Count0 | src/totp.cpp:106-137 | a generator whose HMAC of count 0 is the one in Appendix D of RFC 4226 gives 755224 |
| Totp.TenDigitsCanDisagree | src/totp.cpp:64-72 | a ten-digit generator whose code denotes 728996735 where the value modulo 10^10 is 2139062143 |
| Totp.DigitsDetermined | src/totp.cpp:69-71 | digit strings of one length that denote one number are equal |
| Totp.TimeCounterIsFloor | src/totp.cpp:99-104 | truncating to seconds and dividing gives the whole periods since the epoch, 0 before it |
| Totp.CountersWithinWindow | src/totp.cpp:99-104 | instants at most k periods apart have counters at most k apart |
| Totp.Verify | src/totp.cpp:148-160 | accepts exactly the codes of the non-negative counters within the window |
| Totp.AcceptsNearbyCodes | src/totp.cpp:139-160 | a code generated at most k periods away is accepted, before the epoch and within a second included |
| HttpClient.UrlEncode | src/http_client.cpp:35-43 | the percent-encoding of the text |
| HttpClient.EncodedOctet | src/http_client.cpp:38-41 | A-Z, a-z, 0-9, '-', '.', '_' and '~' stand for themselves, any other octet is '%' and two upper-case hexadecimal digits |
| HttpClient.DecodeInvertsEncode | src/http_client.cpp:35-43 | percent-decoding by RFC 3986 undoes it for every text |
| HttpClient.BuildQueryString | src/http_client.cpp:57-65 | the encoded pairs in ascending key order |
| HttpClient.AscendingIsTheMap | src/http_client.cpp:60 | that order lists the map's entries, all of them |
| HttpClient.AscendingOrder | src/http_client.cpp:60 | each entry of the map once, keys ascending by their first differing octet, a proper prefix first |
| HttpClient.ParseInvertsJoin | src/http_client.cpp:57-65 | splitting on the delimiters and decoding gives the pairs back, in order |
| HttpClient.ParseHttpsUrl | src/http_client.cpp:67-97 | an error exactly when the URL does not start with "https://"; host, port and target otherwise |
| HttpClient.UrlReassembles | src/http_client.cpp:75-87 | host, port and path put together are the URL, with port "443" and path "/" exactly where it has none |
| HttpClient.QueryRoundTrip | src/http_client.cpp:89-94 | what is added after the path is '?', or '&' when the path has a '?' already, and a text that reads back as exactly the map; nothing for an empty map |
| HttpClient.DistinctMapsDistinctTargets | src/http_client.cpp:89-96 | two maps give one target exactly when they are equal |

## Left out

- Sockets, TLS, DNS, the handshakes and HTTP transfer: replaced by arbitrary outcomes on the tape.
- Writes that fail inside `send_text`: Sessions says which payloads pass its guard, not which arrive.
- Subscriptions after a `stop` and a new `start` on one client: the sharder builds new workers instead.
- `SubscriptionManager::set_mode`, `set_token_formatter` and the two snapshots: assignments and copies; configuration does not change while batches are built, which in C++ would be unsynchronised.
- Payload text: a payload is a record of action, mode and names; `dump()` is the JSON library's.
- JSON text parsing, double conversion and unsigned integers above 2^63 - 1: arbitrary library functions of the parser.
- Overflow of the nanosecond clock for timestamps past the year 2262: instants are unbounded milliseconds.
- HMAC internals and the error path of a failing HMAC call: any function with the digest length.
- Totp.Verify: excludes a window of INT_MAX, where the loop counter of the code overflows.
- Pipeline.Conservation: allows a push to be dropped and a pop to find nothing at any time; with the rings in place both happen only as SpscRing.ResultsAreExact says (RingPipeline.RingConservation, RingPipeline.NoDropsWithinCapacity).
- Starting a consumer while another thread is inside its `stop`, and `WebSocketClient::start` called twice before its thread sets `running`: both assign to a running thread object, which ends the program.
- Callbacks that throw, and callbacks that are not set: hooks are the points where a set callback runs.
- The overload of `try_push` that copies its argument first.
- `clear` while a producer or consumer runs: the code allows it only when both are paused, so it appears in the class but not among the interleaved steps.
- Locale-dependent character classes: `isspace`, `toupper` and `isalnum` are those of the C locale.
- The order in which `start` and `stop` of the sharder visit consumers and connections: their effects are on separate workers.
- Header merging, access tokens and TLS options of `Sharder`, and `Auth`, `Config` and `Logger`: shallow.
