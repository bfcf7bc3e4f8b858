# Settlement-to-delivery pipeline of the VOID protocol, verified

A payment packet is signed on a satellite, admitted by the gateway, settled in batches by an escrow contract,
observed by a block watcher, turned into exactly one signed receipt frame, logged, and drained over LoRa by a
bouncer that transmits first and acknowledges afterwards. This project models that path and the wire formats it
moves, and proves what holds over every run, every interleaving and every restart.

| file | what it models |
|---|---|
| `Words`, `Crc32` | machine words as bounded integers; CRC-32 (IEEE 802.3 section 3.2.9) as a loop, as a byte register, as a machine over single bits and as a polynomial remainder |
| `Layout`, `Frames`, `Builders`, `FrameBuilders` | packet bodies as field tables, headers, the generated parser and its routing, the three builders as functions and as cursor code over a buffer |
| `ReceiptStore`, `StoreRuns` | the append-only log with its map and order list, every outcome of a line write, all runs |
| `Escrow`, `Submitter`, `Watcher`, `Processor` | the contract, the lock-protected batcher with its timers, the block cursor, one receipt per event |
| `Pipeline`, `Restarts`, `QueueOrder`, `LogWrites`, `WatcherFeeds`, `BouncerTick` | all of the above with the bouncer as one step machine: concurrent Handle sections, lost and late acknowledgements, crashes, replay from block 0; what a reboot does to receipts, order and log; that the watcher's polls and the bouncer's ticks are runs of that machine |
| `EgressHex`, `EgressJson`, `EgressRoundTrip`, `TruncatedText` | hex and decimal text, the bounded JSON scanner, the printer it undoes, and what it makes of cut-off and escaped text |
| `Orchestrator`, `EgressPage`, `Drain` | the bouncer's tick, the two egress endpoints and the page text, draining the queue end to end |
| `Ingest`, `DamagedFrames`, `Security`, `EndToEnd` | the acceptance gates, what they do with damaged frames, the satellite's session and epoch guard, one payment followed to its receipt |

Conventions. Imperative code is a class or a method over arrays and is proved equal to a specification function;
the lemmas speak about those functions and about every run of them. A file write has five outcomes: done, nothing
landed, landed but reported as failed, landed without its newline, cut short. Network, clock, randomness and
failures are parameters. Ed25519, the stream cipher and key agreement are uninterpreted functions of which only
"a signature by a seed verifies under its public key over the same message" and lengths are used. The rendering
of an address (EIP-55) is a parameter of which 42 alphanumeric characters are assumed.

## What the proofs found

- The JSON scanner takes a string value that equals a key name for the key. `LookupIsMeaning` says exactly when
  it still reads the field; `ShadowedRecordRefused` is a valid record it refuses. No record the gateway prints is
  affected (`PageReadsBack`).
- libsodium's `crypto_stream_chacha20_xor` has an 8-byte nonce; the protocol documents assume the 12-byte IETF form.
  Of the 12 bytes the code derives, which never repeat within a boot (`NoncesDistinct`), the cipher therefore reads
  the satellite and the low 32 bits of the epoch. `StreamSharedExactlyWhen` says exactly when two payments get the
  same key stream, `StreamsDistinct` that none do within 2^32 ms (49.7 days), and `StreamReused` is a run that does.
- The epoch guard lives in memory only and starts at 0. `RebootSafeExactlyWhen` gives the exact condition a restored
  guard has to meet.
- A handshake packet is refused by the gateway's parser in either tier: its length field counts the header
  (`HandshakeUnparsed`). In the SNLP tier its signature leaves the last 8 key bytes out (`HandshakeScope`).
- `tick` counts an acknowledgement answered with any status, although its comment speaks of records dispatched:
  `CountIsDispatchedExactlyWhen` and, for answers that are the gateway's own, `HonestCount` say when the two agree;
  `CountedButNotDispatched` shows that they need not.
- One corrupted byte of an ACK frame never passes the checksum (`AckDamage`), and of a D frame only in the tail
  (`DeliveryDamage`), but a corrupted length or magic byte makes the parser read the frame as another packet with
  another gate, or none. `DamagedAckAcceptedExactlyWhen` and `DamagedDeliveryAcceptedExactlyWhen` list the
  corruptions ingest accepts, for all frames, places and bytes.
- A CCSDS header whose first two words spell the sync word is read as an SNLP frame; `ParseUndoesPrint` is an if
  and only if, `SyncHeaderMisread` is such a packet, and `UnsegmentedIsNoSync` shows sequence flags 11 exclude it.
- An append that returned success survives a reload exactly when the log was readable and ended in a newline
  before it (`AppendDurable`, and `AppendLost` for one that does not); once unreadable the log stays so
  (`UnreadableForever`), and `LoadsExactlyWhen` says which sequences of writes leave it readable.
- Appends that land but are reported as failed can reorder the queue at the next reboot (`RebootReorders`).
  `OrderSafeExactlyWhen` is the exact condition: the queue keeps its order over all runs, reboots included, if and
  only if appends cannot both succeed and land unreported. Marks and every other failed write are harmless to it.
- A key agreement that fails during an active session leaves the session active (`FailedAgreementKept`);
  `AgreedExactlyWhen` says when no payment goes out under a key that was never agreed.
- A timer callback that fired before its timer was stopped still takes the lock later and hands over whatever waits
  then, before that batch's own time (`CallbackMeaning`); nothing is lost or doubled by it (`Submitter.RunInv`).
- The lifetime of a session ends it only when someone asks: `AcceptedExactlyWhen` and `ActiveExactlyWhile` say, from the
  calls alone, when payments pass and how long a session is reported active.
- A response that was cut off is never misread (`CutNeverMisread`).
- The code wins over its comments in these places too: the signed region of a payment is 112 bytes in the CCSDS tier
  and 120 in the SNLP tier, not 104 and 112; the parser routes 122-byte bodies on the magic byte, not on the type
  bit, so the magic check in the ingest handler never decides (`GuardedAcceptedExactlyWhen`).

## Model

| member | source | states |
|---|---|---|
| `Pipeline.WorldInvAlways` | gateway/internal/core/receipt/processor.go:68-120 | for every interleaving of chain events, deliveries, concurrent Handle sections, fetches, transmissions, late or repeated acknowledgements, crashes and reboots the joint invariant of chain, log, cache, jobs, page and air holds |
| `WatcherFeeds.PollsFeedPipeline` | gateway/internal/core/chain/watcher.go:171-192 | for every history of polls, cut into boots anywhere and from block 0 in each, one pipeline run with a crash and a boot at every cut delivers in each boot exactly the events the watcher handed over in it, in order, each to a Handle call |
| `WatcherFeeds.ContractLogs` | contracts/src/Escrow.sol:93-118 | the logs of any sequence of settleBatch calls decode to the recorded intents, and their nonces never repeat |
| `WatcherFeeds.ContractFeedsPipeline` | gateway/internal/core/chain/watcher.go:109-192 | so polls of the contract's chain feed the pipeline without further assumptions |
| `BouncerTick.TickIsRun` | ground-station/include/egress_orchestrator.h:80-151 | for every reachable state, all outcomes and any subset of acknowledgements arriving with any write outcome, the fetch and the image of the tick's own calls, in their order, are a pipeline run that puts on the air exactly the frames sent |
| `BouncerTick.PostFollowsItsFrame` | ground-station/include/egress_orchestrator.h:127-136 | in the tick's calls every acknowledgement comes right behind its own frame, which went out |
| `BouncerTick.TickInterleaved` | ground-station/include/egress_orchestrator.h:80-151 | the same air when the chain and the gateway do anything at all, crashes and reboots included, between any two calls of the tick |
| `Pipeline.OneRecordPerEvent` | gateway/internal/core/receipt/store.go:163-181 | every recorded receipt belongs to exactly one event on the chain and is the only record of it |
| `Pipeline.ExactlyOneEach` | gateway/internal/core/receipt/processor.go:68-120 | after any restarts and replays from block 0, a gateway that has caught up holds exactly one record for each event and nothing else |
| `Pipeline.DispatchedWasAired` | ground-station/include/egress_orchestrator.h:127-149 | a record is DISPATCHED only if its exact frame went through a successful transmission; that the code acknowledges in this order is `BouncerTick.TickIsRun` |
| `Pipeline.AiredFrames` | ground-station/include/egress_orchestrator.h:107-132 | every transmitted frame is the built frame of one chain event, and no key is ever transmitted with two different frames |
| `Pipeline.StillOffered` | gateway/internal/core/receipt/store.go:213-235 | while the gateway is up, every recorded receipt not DISPATCHED is PENDING, stands in the order list, and is on the page when fewer than ten pending ones precede it |
| `Restarts.ReceiptsSurvive` | gateway/internal/core/receipt/store.go:85-141 | after a crash the gateway comes back exactly when its log loads, and then has every receipt it had, with the same body, pending again unless its frame went out |
| `LogWrites.ComesBackExactlyWhen` | gateway/internal/core/receipt/store.go:107-141 | after any run a crashed gateway comes back if and only if no line write of the run was cut and nothing was written behind an unended one |
| `Pipeline.NoOvertaking` | gateway/internal/core/receipt/store.go:213-235 | no step but a boot moves the places in the queue or adds pending receipts in front of one |
| `QueueOrder.OrderSafeExactlyWhen` | gateway/internal/core/receipt/store.go:107-181 | over all runs, reboots included and whatever happens to marks, no receipt is ever overtaken if and only if appends cannot both succeed and land while reported as failed (or never happen, for want of a 32-byte seed); cut, unterminated and missing lines do not matter |
| `QueueOrder.NoOvertakingEver` | gateway/internal/core/receipt/store.go:107-235 | under that condition no step of a run moves a place in the queue or puts a pending receipt in front of one |
| `Restarts.RebootChangesNothing` | gateway/internal/core/receipt/store.go:107-141 | when every line write lands whole or not at all, a reboot leaves cache and log as they were |
| `Restarts.RebootReorders` | gateway/internal/core/receipt/store.go:260-265 | for any two events a run, with one append landed but reported as failed, after which a reboot swaps their receipts |
| `Pipeline.DispatchedForGood` | gateway/internal/core/receipt/store.go:188-207 | no step, reload included, makes a dispatched receipt pending or offers it again |
| `Pipeline.SectionsMakeHandle` | gateway/internal/core/receipt/processor.go:68-120 | the three atomic sections run without interference are one Handle call |
| `Processor.Processor.Handle` | gateway/internal/core/receipt/processor.go:68-120 | store, sequence counter and result after Handle: replay changes nothing, otherwise one count is taken, the frame built and the record appended |
| `EndToEnd.HandleMeaning` | gateway/internal/core/receipt/processor.go:68-120 | one Handle call for every state and write outcome: a repeat changes nothing; a fresh event takes a count and, with a 32-byte seed and a successful write, is recorded last, pending, in a record that tells of it, and nothing else changes |
| `EndToEnd.RecordTells` | gateway/internal/core/receipt/processor.go:86-109 | the record read back: nonce and amount as decimals, transaction hash and frame as hex, satellite, wallet, block, asset 1, block time in ms (exact below 2^63, else up to 2^64); the frame is a valid receipt with the block time in ms (exact below 2^64), the nonce's low word, status 1 and a signature over its bytes 14 to 39 |
| `EndToEnd.EveryRecordTells` | gateway/internal/core/receipt/processor.go:68-120 | over every run of the pipeline every record, pending or dispatched, tells in this way of one event on the chain |
| `Processor.SequenceCounts` | gateway/internal/core/receipt/processor.go:76-82 | over any event sequence the k-th fresh receipt carries sequence count k mod 16384 (CCSDS 133.0-B-2 section 4.1.3) and repeats consume none |
| `Pipeline.CountsInTurn` | gateway/internal/core/receipt/processor.go:76-82 | over every interleaving of concurrent calls the n-th count taken since the last boot is n mod 16384 |
| `Processor.KeyIdentifies` | gateway/internal/core/receipt/processor.go:69-72 | distinct (nonce, transaction hash) pairs never share a dedup key |
| `ReceiptStore.Store.NewStore` | gateway/internal/core/receipt/store.go:85-103 | opening fails exactly when some line does not parse; otherwise the cache is the replay of the log |
| `ReceiptStore.Store.LoadRecords` | gateway/internal/core/receipt/store.go:107-141 | the scan builds map and order list as the replay of all rows, the last unterminated one included |
| `ReceiptStore.ReplayKeys` | gateway/internal/core/receipt/store.go:107-150 | the keys a reopened store answers for are exactly those of some row of its log, each filed under its own key |
| `ReceiptStore.Store.Append` | gateway/internal/core/receipt/store.go:163-181 | new log and cache for each write outcome; duplicates write nothing; a failed write leaves the cache alone |
| `ReceiptStore.Store.MarkDispatched` | gateway/internal/core/receipt/store.go:188-207 | new log and cache for each write outcome; unknown keys are an error, a repeat is a success without a write |
| `ReceiptStore.Store.PendingRecords` | gateway/internal/core/receipt/store.go:213-235 | the first `limit` pending records in order-list order |
| `ReceiptStore.PendingExactly` | gateway/internal/core/receipt/store.go:213-235 | place by place: the records at the first pending places of the order list, ascending; a pending place is left out only when the limit is reached, and comes later |
| `StoreRuns.RowsAfterWrite` | gateway/internal/core/receipt/store.go:253-267 | a line write, whatever its outcome, leaves the readable rows alone, adds its row at the end, or makes the log unreadable; and when it does which |
| `ReceiptStore.DedupKeyInjective` | gateway/internal/core/receipt/store.go:269-271 | keys are distinct for payment ids without the separator |
| `ReceiptStore.DedupKeyCollision` | gateway/internal/core/receipt/store.go:269-271 | with the separator inside an id two pairs collide |
| `ReceiptStore.ReplayIsLatest` | gateway/internal/core/receipt/store.go:107-141 | a reload keeps the last row of each key |
| `ReceiptStore.OrderIsFirstAppend` | gateway/internal/core/receipt/store.go:107-141 | the order list after a reload names the rows that were first with their key, in log order |
| `ReceiptStore.OrderDistinct` | gateway/internal/core/receipt/store.go:107-141 | the order list names every cached key exactly once |
| `StoreRuns.CacheIsReplay` | gateway/internal/core/receipt/store.go:163-207 | under all-or-nothing writes every run keeps map and order list equal to the replay of the log, so reopening changes nothing |
| `StoreRuns.InvRun` | gateway/internal/core/receipt/store.go:163-207 | under any write outcome the log is at most ahead of the cache by rows of the same body |
| `StoreRuns.NoPendingAfterDispatched` | gateway/internal/core/receipt/store.go:188-207 | in no reachable log does a PENDING row for a key follow a DISPATCHED one |
| `StoreRuns.FrozenForGood` | gateway/internal/core/receipt/store.go:107-207 | over every run and reload a served record keeps its body, and a dispatched one stays dispatched |
| `StoreRuns.AppendDurable` | gateway/internal/core/receipt/store.go:163-181 | when an acknowledged append survives a reload, as an if and only if |
| `StoreRuns.UnreadableForever` | gateway/internal/core/receipt/store.go:119-122 | a log that does not load never loads again, whatever is appended |
| `LogWrites.LoadsExactlyWhen` | gateway/internal/core/receipt/store.go:107-141 | the same condition for the log after any run of the store |
| `StoreRuns.AppendLost` | gateway/internal/core/receipt/store.go:163-181 | for any two records, a cut line followed by a successful append: the append reported success and the log does not load |
| `StoreRuns.LandedReorders` | gateway/internal/core/receipt/store.go:260-265 | a write that landed but was reported as failed swaps two records at the next reload |
| `Escrow.Contract.SettleBatch` | contracts/src/Escrow.sol:93-118 | success exactly for 1 to 10 USDC intents with wallets and fresh, pairwise distinct nonces; a revert blames the first fault of the first faulty intent and changes nothing |
| `Escrow.SettleMeaning` | contracts/src/Escrow.sol:105-117 | an accepted batch adds one event per intent, in order, with its satellite, amount, nonce and wallet, and under each nonce a PENDING entry with the intent's fields; every other entry stays |
| `Escrow.BlameIsFirstFault` | contracts/src/Escrow.sol:93-104 | a batch of 1 to 10 intents has exactly one answer: the fault of its first faulty intent, asset before wallet before nonce, or acceptance |
| `Escrow.EventIsIntent` | contracts/src/Escrow.sol:93-118 | over every run each event announces, field by field, an intent of a batch that was accepted |
| `Escrow.IntentIsAnnounced` | contracts/src/Escrow.sol:93-118 | and each intent of an accepted batch is stored with its fields and announced by exactly one event |
| `Escrow.RunInv` | contracts/src/Escrow.sol:93-118 | after any calls, event nonces are pairwise distinct, are exactly the PENDING keys, and match their stored entries |
| `Escrow.Permanent` | contracts/src/Escrow.sol:63-118 | events only grow and a stored entry never changes |
| `Escrow.AppliedOnce` | contracts/src/Escrow.sol:102-104 | a batch, or any other sharing a nonce with it, is not accepted again whatever ran in between |
| `Escrow.Submit` | gateway/internal/core/chain/submitter.go:178-202 | for every pattern of errors and landings of the two tries, the batch is applied once as a whole or not at all, the former exactly if a try that was made lands and the contract accepts |
| `Submitter.BufferedSubmitter.Enqueue` | gateway/internal/core/chain/submitter.go:92-112 | the new state and the batch handed over when this entry fills it |
| `Submitter.BufferedSubmitter.Flush` | gateway/internal/core/chain/submitter.go:118-131 | returns the whole buffer and its length and leaves it empty without a timer; once closed it returns 0 and changes nothing |
| `Submitter.BufferedSubmitter.Stop` | gateway/internal/core/chain/submitter.go:136-144 | closes and hands over the rest |
| `Submitter.BufferedSubmitter.StealLocked` | gateway/internal/core/chain/submitter.go:150-158 | takes the buffer and disarms its timer |
| `Submitter.BufferedSubmitter.OnTimer` | gateway/internal/core/chain/submitter.go:163-172 | a current or stale callback hands over the buffer, or nothing if it is empty or closed |
| `Submitter.RunInv` | gateway/internal/core/chain/submitter.go:92-172 | in every interleaving the batches in order followed by the buffer are the accepted intents, batch sizes are 1 to the limit, the buffer stays below it, and a waiting entry has a running or calling timer |
| `Submitter.EnqueueMeaning` | gateway/internal/core/chain/submitter.go:92-112 | from every reachable state: nothing once closed; otherwise the entry is accepted last, the first of a batch starts a new timer, and the entry that makes exactly the limit hands over the whole batch ending in it, with no timer left |
| `Submitter.FlushMeaning` | gateway/internal/core/chain/submitter.go:118-131 | from every reachable open state all waiting entries become one batch, buffer and timer are gone, and everything accepted has been handed over; closed, nothing changes |
| `Submitter.StopMeaning` | gateway/internal/core/chain/submitter.go:136-144 | the same, and closed |
| `Submitter.CallbackMeaning` | gateway/internal/core/chain/submitter.go:163-172 | the same for any callback that takes the lock, also one of a timer stopped after it fired, which takes a later batch early |
| `Submitter.TimerDrains` | gateway/internal/core/chain/submitter.go:163-172 | a waiting entry is at most its own timer's callback away from being handed over |
| `Submitter.StoppedIsDrained` | gateway/internal/core/chain/submitter.go:136-144 | after Stop everything accepted has been handed over and nothing more is accepted |
| `Watcher.Watcher.Poll` | gateway/internal/core/chain/watcher.go:109-165 | when a poll errs, where the cursor moves, and the decoded, time-stamped events it returns |
| `Watcher.Watcher.Run` | gateway/internal/core/chain/watcher.go:171-192 | the handler gets exactly the events of the successful polls; the first failed poll ends the run and hands over nothing |
| `Watcher.PollCovers` | gateway/internal/core/chain/watcher.go:109-165 | one poll delivers the logs between old and new cursor and a clean one leaves none at or below the height it saw |
| `Watcher.CleanExactlyWhen` | gateway/internal/core/chain/watcher.go:114-157 | a poll succeeds if and only if the height comes and, unless the cursor is past it, the filter answers and every log between cursor and height has four topics, 32 data bytes and a header that comes |
| `Watcher.CursorStands` | gateway/internal/core/chain/watcher.go:158-163 | the cursor moves only to just behind a block with a log, and past every log of the blocks a clean poll saw |
| `Watcher.DeliversAllBelowCursor` | gateway/internal/core/chain/watcher.go:109-192 | on a growing chain all successful polls together deliver the logs below the cursor, once each, in order, with their block times |
| `Watcher.DeliveredExactly` | gateway/internal/core/chain/watcher.go:109-235 | log by log over every history: the events handed over are, in ascending position, exactly the logs from the first block to the cursor, each with the fields of its topics and data and the time of its block |
| `Watcher.DecodeUndoesEmit` | gateway/internal/core/chain/watcher.go:205-235 | decoding the log of a contract event gives back its fields |
| `Watcher.NonceIdentifies` | gateway/internal/core/chain/client.go:94-99 | the nonce is below 2^96, is injective in satellite and epoch, and its low 64 bits are the epoch |
| `EgressJson.SkipWsAt` | ground-station/src/egress_json.cpp:36-43 | stops at the first non-blank inside the range |
| `EgressJson.ExtractString` | ground-station/src/egress_json.cpp:49-76 | copies the string into its bucket or fails on overflow or a missing quote |
| `EgressJson.FindAndExtractKey` | ground-station/src/egress_json.cpp:80-119 | finds the first token equal to the key within the range and extracts its string value |
| `EgressJson.FindObjectEnd` | ground-station/src/egress_json.cpp:125-143 | the end of the object, strings skipped and braces counted |
| `EgressJson.ParsePendingResponse` | ground-station/src/egress_json.cpp:147-210 | count and bucket contents for every input text, reading only inside it and writing only inside the buckets |
| `TruncatedText.CutNeverMisread` | ground-station/src/egress_json.cpp:147-210 | if any prefix of a text is accepted, the whole is accepted with the same records, so a response cut off anywhere is refused or read right |
| `TruncatedText.EscapedIsRead` | ground-station/src/egress_json.cpp:49-143 | the escaped text of any string is read as the string, passed over as a whole, and hides its braces from the object's end |
| `EgressRoundTrip.LookupIsMeaning` | ground-station/src/egress_json.cpp:93-103 | the scanner reads a member's meaning exactly when no earlier string value equals its key name |
| `EgressRoundTrip.ScannerUndoesPrinter` | ground-station/src/egress_json.cpp:147-210 | for any printed array of flat objects, any whitespace, order and extra fields, the scan gives the fields of the first min(n, max) objects |
| `EgressRoundTrip.ExtractAllAt` | ground-station/src/egress_json.cpp:166-206 | record i is what object i alone gives, and their number is min(n, max) |
| `EgressRoundTrip.ExtractExactly` | ground-station/src/egress_json.cpp:179-187 | an object gives a record exactly when its three fields are found as strings of at most 95, 79 and 239 characters |
| `EgressRoundTrip.ShadowedRecordRefused` | ground-station/src/egress_json.cpp:93-103 | a valid record the scanner refuses |
| `EgressHex.HexDecode` | ground-station/src/egress_hex.cpp:28-43 | succeeds exactly for an even number of hex digits that fit, and writes the bytes they denote |
| `EgressHex.DecodeUndoesEncode` | ground-station/src/egress_hex.cpp:19-43 | decoding the gateway's lower-case hex gives back the bytes |
| `EgressHex.DecodesExactly` | ground-station/src/egress_hex.cpp:19-43 | a text decodes to given bytes if and only if it is their encoding up to the case of its letters |
| `EgressHex.DecimalRoundTrip` | gateway/internal/core/receipt/processor.go:99-109 | a number is read back from its decimal digits |
| `EgressHex.DecimalWidths` | gateway/internal/core/receipt/processor.go:99-109 | a uint256 has at most 78 decimal digits, a uint64 at most 20, a uint32 at most 10 |
| `Orchestrator.Tick` | ground-station/include/egress_orchestrator.h:80-151 | the imperative tick with its scanner, decoder and buckets computes the trace the next rows are about, for every response and every failure pattern |
| `Orchestrator.TickAnswers` | ground-station/include/egress_orchestrator.h:80-151 | for every response and outcome: -1 exactly when the request or the scan failed, and then, as for a status other than 200, no call is made; otherwise exactly the frames that decode are tried in order, each that goes out is posted at once, and the number is that of the answered posts |
| `Orchestrator.FrameInExactly` | ground-station/include/egress_orchestrator.h:111-128 | a field decodes exactly if its text up to the first NUL is the hex of 112 bytes in either case |
| `Drain.TickMeaning` | ground-station/include/egress_orchestrator.h:107-149 | on any page of processor-built records and under any failures, the frames sent are those of the records whose transmission succeeds, in page order, with one acknowledgement each, and the number returned counts the answered ones |
| `BouncerTick.CountIsDispatchedExactlyWhen` | ground-station/include/egress_orchestrator.h:134-149 | the counted receipts are the newly dispatched ones if and only if, for every transmitted record, getting an answer and being marked at the gateway coincide |
| `BouncerTick.HonestCount` | ground-station/include/egress_orchestrator.h:134-149 | when every answer is the gateway's own status, the number is off by the refusals it counts and the silent successes it misses, and the counted receipts are the newly dispatched ones if and only if every answer is 200 and no unanswered request was written |
| `BouncerTick.CountedButNotDispatched` | ground-station/include/egress_orchestrator.h:142-147 | a page where the gateway answers 500: the tick returns 1 and nothing was dispatched |
| `EgressPage.EgressHandlers.HandleEgressPending` | gateway/internal/api/handlers/egress.go:51-62 | 503 without a store, otherwise 200 and the first ten pending records |
| `EgressPage.EgressHandlers.HandleEgressAck` | gateway/internal/api/handlers/egress.go:76-103 | 503, 400 and the store's answer, with nothing changed on 503 and 400 |
| `EgressPage.AckMeaning` | gateway/internal/api/handlers/egress.go:90-102 | 200 exactly when the record is now dispatched, 404 exactly for unknown keys, and 200 repeats without a write |
| `EgressPage.GenuineIsRendered` | gateway/internal/core/receipt/processor.go:99-109 | every record the processor can have built has these characters and lengths |
| `EgressPage.PageReadsBack` | gateway/internal/core/receipt/store.go:28-39 | the bouncer scans exactly the three fields of each record of any page the gateway prints |
| `EgressPage.MembersIdentify` | gateway/internal/core/receipt/store.go:28-39 | the printed members of a record determine all its fields |
| `EgressPage.NamesInOrder` | gateway/internal/core/receipt/store.go:28-39 | the JSON names in struct order, a blank status left out |
| `EgressPage.PageFits` | ground-station/include/egress_orchestrator.h:155 | ten records print to at most 7111 of 8192 bytes and every field fits its bucket |
| `Drain.TickSendsPage` | ground-station/include/egress_orchestrator.h:80-151 | a page of processor-built records is transmitted and acknowledged in full and in order |
| `Drain.RoundsDrain` | ground-station/include/egress_orchestrator.h:80-151 | after r good ticks exactly the first 10 r pending receipts are off the queue and their frames have been sent in first-append order, once each |
| `Drain.EmptyAfterCeiling` | ground-station/include/egress_orchestrator.h:80-151 | n pending receipts take exactly ceil(n / 10) good ticks |
| `Drain.ReachableIsQueue` | gateway/internal/core/receipt/store.go:213-235 | every reachable pipeline state can be drained in this way |
| `Crc32.Crc32Ieee` | ground-station/src/ack_builder.cpp:63-74 | the loop with the negated mask computes the checksum that `Crc32.CrcIsRemainder` is about |
| `Crc32.CalculateCrc` | satellite-firmware/src/void_protocol.cpp:117-128 | the loop with the conditional mask computes the same CRC |
| `Crc32.CrcIsRemainder` | ground-station/src/ack_builder.cpp:63-74 | for every byte string the checksum is the standard's: send bytes low bit first, complement the first 32 bits, append 32 zeros, divide by x^32 + ... + 1, complement the remainder (IEEE 802.3 section 3.2.9) |
| `Crc32.MaskFormsAgree` | void-core/src/packet_d_builder.cpp:66-77 | both mask forms are one bit step |
| `Crc32.StepInjective` | ground-station/src/ack_builder.cpp:67-71 | a bit step loses nothing |
| `Crc32.BurstDetected` | gateway/internal/void_protocol/crc.go:49-62 | strings of any length that differ only within 32 consecutive bits have different checksums |
| `Crc32.FourBytesDetected` | gateway/internal/void_protocol/crc.go:49-62 | so do strings that differ only within four consecutive bytes |
| `Layout.ParsePrinted` | gateway/internal/void_protocol/protocol/void_protocol.go:506-1433 | reading written fields gives them back, for every table and whatever follows |
| `Layout.PrintParsed` | gateway/internal/void_protocol/protocol/void_protocol.go:506-1433 | writing read fields gives back the bytes |
| `Layout.TablesFill` | gateway/internal/void_protocol/protocol/void_protocol.go:506-1433 | the field offsets of the eight bodies; each table accounts for its whole body |
| `Layout.HeartbeatReads` | gateway/internal/void_protocol/protocol/void_protocol.go:506-568 | any 34 bytes read as these values; latitude, longitude and temperature are two's complement, negative exactly with the top bit |
| `Frames.UnsegmentedIsNoSync` | gateway/internal/void_protocol/protocol/ccsds_primary_header.go:146-154 | sequence flags 11 rule out the sync word |
| `Frames.ParseUndoesPrint` | gateway/internal/void_protocol/protocol/void_protocol.go:70-239 | parsing a printed packet gives it back exactly when a CCSDS header does not spell the sync word |
| `Frames.SyncHeaderMisread` | gateway/internal/void_protocol/protocol/void_protocol.go:70-95 | a well-formed CCSDS packet that is not read back |
| `Frames.PrintUndoesParse` | gateway/internal/void_protocol/protocol/void_protocol.go:70-239 | printing a parsed packet gives back the bytes it was parsed from |
| `Frames.ReadCcsdsHeader` | gateway/internal/void_protocol/protocol/ccsds_primary_header.go:58-79 | three big-endian words, or an error when bytes run out |
| `Frames.ReadSnlpHeader` | gateway/internal/void_protocol/protocol/snlp_header.go:59-88 | succeeds exactly with 14 bytes, the sync word and a zero pad |
| `Frames.ReadFields` | gateway/internal/void_protocol/protocol/void_protocol.go:506-568 | the fields of a body in order, or an error on missing bytes or a wrong magic byte |
| `Frames.VoidProtocol.Read` | gateway/internal/void_protocol/protocol/void_protocol.go:70-239 | the stream parser succeeds exactly where the parse function does, with its result |
| `Frames.VoidProtocol.ReadRouted` | gateway/internal/void_protocol/protocol/void_protocol.go:414-440 | routing on length and, for 122 bytes, on the magic byte |
| `Frames.VoidProtocol.IsSnlp` | gateway/internal/void_protocol/protocol/void_protocol.go:337-348 | an error exactly on the first call with fewer than four bytes; every call remembers and returns the sync word test, false after such an error |
| `Frames.VoidProtocol.BodyLength` | gateway/internal/void_protocol/protocol/void_protocol.go:247-272 | the remembered answer is the wrapped length field |
| `Frames.LengthWraps` | gateway/internal/void_protocol/protocol/ccsds_primary_header.go:96-103 | a length field of 0xFFFF makes every frame parse as one with an empty body of no known kind |
| `Frames.HeaderBits` | gateway/internal/void_protocol/protocol/ccsds_primary_header.go:81-180 | the accessors' fields are within their widths and together make up the two words |
| `Builders.OneByteDamage` | gateway/internal/void_protocol/crc.go:49-62 | one corrupted byte is noticed exactly when it is not behind the checksum |
| `Builders.BurstDamage` | gateway/internal/void_protocol/crc.go:49-62 | every burst of up to 32 bits in the covered region is noticed |
| `Builders.AckDamage` | ground-station/src/ack_builder.cpp:78-111 | any corrupted byte of an ACK frame fails the checksum gate |
| `Builders.DeliveryDamage` | void-core/src/packet_d_builder.cpp:81-111 | a corrupted byte of a D frame passes exactly in the 6-byte tail |
| `Builders.AckFrameGood` | ground-station/src/ack_builder.cpp:78-111 | an ACK frame parses back to its inputs as SNLP version 0 and passes the gate 4 bytes from its end |
| `Builders.DFrameGood` | void-core/src/packet_d_builder.cpp:81-111 | a D frame does, 10 bytes from its end |
| `Builders.AckFrameFields` | ground-station/src/ack_builder.cpp:78-111 | the parsed ACK frame has each input under its own field, the constants in theirs, and the checksum of its first 132 bytes |
| `Builders.DFrameFields` | void-core/src/packet_d_builder.cpp:81-111 | the same for D and its first 126 bytes |
| `Builders.CFrameGood` | gateway/internal/core/receipt/builder.go:83-113 | a receipt frame returns its inputs, APID and count masked to 11 and 14 bits, its signature verifies and its checksum stands 8 bytes from the end |
| `Builders.CFrameFields` | gateway/internal/core/receipt/builder.go:83-113 | the same for the receipt, with the signature of its own bytes 14 to 39 and the checksum of its first 104 |
| `Builders.CSigScopeInFrame` | gateway/internal/core/receipt/builder.go:103-106 | the signed bytes are bytes 14 to 39 of the frame |
| `FrameBuilders.WriteU64LE` | void-core/src/packet_d_builder.cpp:45-49 | the loop writes the eight low bytes, least significant first, and nothing else |
| `FrameBuilders.BuildAck` | ground-station/src/ack_builder.cpp:78-111 | the cursor code fills exactly the printed ACK packet, or refuses a small buffer untouched |
| `FrameBuilders.BuildDelivery` | void-core/src/packet_d_builder.cpp:81-111 | the same for D, whose tail is left as cleared |
| `FrameBuilders.BuildReceipt` | gateway/internal/core/receipt/builder.go:83-113 | an error exactly for a seed that is not 32 bytes, otherwise a new array holding the printed receipt |
| `FrameBuilders.WriteSnlpHeader` | gateway/internal/core/receipt/builder.go:120-144 | the 14 header bytes for tier, type, APID, count and length |
| `Ingest.Handler.IngestPacket` | gateway/internal/api/handlers/ingest.go:297-367 | the response status and the one intent the submitter may take in |
| `Ingest.Handler.HandlePayloadBody` | gateway/internal/api/handlers/ingest.go:118-295 | status and intent for each body type |
| `Ingest.Handler.EnqueueSettlementIntent` | gateway/internal/api/handlers/ingest.go:65-99 | enqueues the intent exactly for a known satellite with a wallet |
| `Ingest.EnqueuedExactlyWhen` | gateway/internal/api/handlers/ingest.go:133-181 | an intent arises exactly from a version-0 payment of a known satellite with a wallet whose signature verifies over all but the last 72 bytes, and it is this intent |
| `Ingest.SignatureScope` | gateway/internal/api/handlers/ingest.go:157-160 | for exact-length frames of either tier that scope is the header and the 106 body bytes before the signature |
| `Ingest.GuardedAcceptedExactlyWhen` | gateway/internal/api/handlers/ingest.go:213-290 | a D or ACK frame is accepted exactly when version and checksum agree at its own offset |
| `Ingest.StatusExactlyWhen` | gateway/internal/api/handlers/ingest.go:297-367 | the status of every response: 200 if and only if the frame parses with version 0 as a known body and meets the gate of its kind (signature, checksum or none), 401 exactly for a receipt that fails its gate, 400 otherwise |
| `Ingest.BuiltReceiptAccepted` | gateway/internal/api/handlers/ingest.go:186-206 | a receipt the builder makes is accepted when satellite 100 is registered with the public key of its seed |
| `Ingest.BuiltFramesAccepted` | gateway/internal/api/handlers/ingest.go:213-290 | so is every ACK and D frame the builders make |
| `DamagedFrames.DamagedAckAcceptedExactlyWhen` | gateway/internal/api/handlers/ingest.go:118-295 | for every ACK frame, place and wrong byte, ingest accepts the damaged frame exactly when the byte turns its length into that of a heartbeat, invoice or handshake, or of a receipt whose signature verifies, or its magic into that of a delivery whose checksum agrees |
| `DamagedFrames.DamagedDeliveryAcceptedExactlyWhen` | gateway/internal/api/handlers/ingest.go:118-295 | the same for every D frame, with the magic of an ACK, and with the 6-byte tail, which nothing covers |
| `Security.SecurityManager.PrepareHandshake` | void-core/src/security_manager.cpp:84-124 | the session state after starting a handshake, and the packet: header, lifetime, time, key, and a signature over its first 48 bytes; sync word and pad stay as they were |
| `Security.HandshakeScope` | void-core/src/security_manager.cpp:113-117 | the signature verifies; it covers all bytes before it exactly in the CCSDS tier |
| `Security.HandshakeFields` | void-core/src/security_manager.cpp:93-124 | the packet read back with the fields of a PacketH body, and its header: a command by APID 178, unsegmented, whose length field is that of the whole packet |
| `Security.HandshakeUnparsed` | void-core/src/security_manager.cpp:100-106 | the gateway's parser refuses every handshake packet of either tier, because the length written is that of the whole packet |
| `Security.SecurityManager.ProcessHandshakeResponse` | void-core/src/security_manager.cpp:127-149 | a successful agreement activates the session from any prior state |
| `Security.SecurityManager.EncryptPacketB` | void-core/src/security_manager.cpp:166-221 | accepted exactly when payload, session, GPS and epoch allow; a rejected call changes neither guard nor packet; an accepted one encrypts under the 8 nonce bytes the cipher reads, signs, and raises the guard |
| `Security.SecurityManager.EncryptPacketBPlaintext` | void-core/src/security_manager.cpp:169-182 | the plaintext build fills and signs the same region |
| `Security.SecurityManager.IsSessionActive` | void-core/src/security_manager.cpp:224-232 | expiry with its 64-bit and 32-bit wraps, wiping the session and its key |
| `Security.AcceptedExactlyWhen` | void-core/src/security_manager.cpp:166-221 | over every call sequence of a boot, told from the calls alone: a payment is accepted if and only if it has at most 62 bytes, the last GPS report was valid, a key agreement succeeded with no wipe, new handshake or check outside the lifetime since, and its epoch exceeds the restored guard and all accepted before; it goes out under the key of the last agreement; a rejected one changes nothing |
| `Security.ActiveExactlyWhile` | void-core/src/security_manager.cpp:224-232 | an open session of ttl seconds is active up to and including start + 1000 * ttl ms |
| `Security.SignedKeeps` | void-core/src/security_manager.cpp:166-221 | filling and signing a payment changes payload and signature and no other field |
| `Security.EpochsRise` | void-core/src/security_manager.cpp:186-218 | over every call sequence after a boot, accepted epochs rise strictly above the restored guard, which stands at the last of them |
| `Security.AgreedExactlyWhen` | void-core/src/security_manager.cpp:134-136 | over every call sequence of a boot, all accepted payments were made under an agreed key if and only if none is accepted between a failed key agreement and the next successful one |
| `Security.FailedAgreementKept` | void-core/src/security_manager.cpp:134-136 | a run in which one is |
| `Security.NoncesDistinct` | void-core/src/security_manager.cpp:190-193 | the 12 bytes the code derives are pairwise distinct within one boot |
| `Security.StreamSharedExactlyWhen` | void-core/src/security_manager.cpp:195-198 | two accepted payments of one boot share the cipher's nonce exactly when their satellite is the same and their epochs lie a multiple of 2^32 ms apart, and its key stream exactly when also the session key is the same |
| `Security.StreamsDistinct` | void-core/src/security_manager.cpp:195-198 | so none do while the accepted epochs of the boot span less than 2^32 ms |
| `Security.StreamReused` | void-core/src/security_manager.cpp:195-198 | a run in which two do, within one session |
| `Security.RebootSafeExactlyWhen` | void-core/src/security_manager.cpp:25-38 | from a boot with a restored guard no stamp accepted earlier is ever accepted again if and only if the guard is at least the last earlier epoch |
| `Security.RebootForgets` | void-core/src/security_manager.cpp:25-38 | the code restores 0, so some later call sequence repeats one |
| `Security.SignedFrameVerifies` | void-core/src/security_manager.cpp:201-209 | the signature verifies over the frame without its last 72 bytes |
| `EndToEnd.PaymentIsEnqueued` | gateway/internal/api/handlers/ingest.go:133-181 | the signed payment of a registered satellite becomes an intent under the nonce of its satellite and epoch |
| `EndToEnd.ReceiptCarriesNonce` | gateway/internal/core/receipt/processor.go:87-94 | every receipt frame is valid and carries the low 64 bits of the event's nonce |
| `EndToEnd.ReceiptAnswersPayment` | gateway/internal/core/receipt/processor.go:87-109 | the receipt for a payment carries the payment's own epoch |
| `EndToEnd.EveryTransmissionIsAReceipt` | ground-station/include/egress_orchestrator.h:107-132 | in every run each transmitted frame decodes to the valid receipt of one event on the chain |

## Left out

- Sockets, HTTP framing, serial lines, command line, display and logging: requests are outcomes.
- The on-disk JSON text of the log: the log is a sequence of records and malformed lines; `Close` is not modelled.
- Go's encoding/json is modelled for the page text only, and only for values that need no escape.
- Ed25519, X25519, ChaCha20, BLAKE2b, Keccak and the ABI encoder: uninterpreted functions, with topic and data words modelled for the one event.
- Table-driven CRC of the Go standard library: taken to be the same function as the bit-serial loop.
- Null arguments of the C++ entry points: references are non-null, except for the store and the submitter, whose absence is modelled.
- Floating-point body fields are opaque bytes.
- `TotalPacketLength` and the logging-only use of parsed fields.
- Frames.ReadFields: the eight generated body readers are one loop over their field tables.
- Processor.Processor.Handle: runs alone; its interleavings are the sections in Pipeline.
- Pipeline.NoOvertaking: excludes the boot step, for which `QueueOrder.OrderSafeExactlyWhen` has the exact condition.
- Drain.EmptyAfterCeiling: assumes that no receipt arrives, and that every transmission, request and write succeeds, during the ticks counted.
- Persisting the epoch guard across reboots: the source leaves it open.
- Radio drivers of buyer and seller firmware, the demo registry contents, duty-cycle documents.
