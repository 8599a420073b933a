# Verified model of the shared-memory failover runtime

This project models, in Dafny 4.11, the parts of the runtime whose correctness is hardest to see from
the code: a lock-free ring shared by any number of producers and consumers, the ownership records that
fence a deposed producer off, the repair made when a standby takes over, the checksums, the
supervisor's crash recovery, the output witness, the monitor's health machine, and the event log.

`dafny verify dfyconfig.toml` checks everything.

Concurrent code is modelled twice. A transition system (`RingProtocol`, `OwnershipProtocol`,
`IntegrityWord`) has one step per load, compare-and-swap, payload write or store, run by any number of
threads in any interleaving, and carries a history of claims that no step reads; its theorems are about
every reachable state. `TakeoverRace` puts the first two side by side, with the rollback of a transfer load by
load between them. A class or method (`RingBuffer`, `SharedRegion`, `Takeover`) runs the same loops
over 64-bit words as one process does; `RingRecovery` ties the two together. Everything that changes its
own fields or an array in the source is a class or a method here, proved against a function of the old
state, and the theorems are about that function: `Supervisor` and `SupervisorSafety`, `Health` and
`HealthTraces`, `OutputWitness`, `WorkLoop`, `LogReader` and `LogContinuity` are organised that way.

| file | subject |
|---|---|
| Words.dfy, Options.dfy | 64-bit words, masks, positions and slots; optional values |
| Crc32c.dfy, Crc32cVectors.dfy | CRC-32C: bit by bit, by table, bijectivity, burst detection; its polynomial and check value |
| RingProtocol.dfy | the ring as a transition system, and the invariant every step keeps |
| RingTheorems.dfy, RingFifo.dfy | exclusive ownership and refusals; the ring as a FIFO log |
| RingBuffer.dfy, RingRecovery.dfy | the sequential calls, reconstruction and verification; their link to the protocol |
| OwnershipProtocol.dfy | the ownership seqlock |
| Takeover.dfy, TakeoverRuns.dfy | the repair of an abandoned claim; runs across it, and runs it cannot mend |
| TakeoverRace.dfy, JammedRing.dfy, TakeoverRaceRuns.dfy | the rollback racing the new owner; a ring that takes no record any more; runs that end in one |
| IntegrityWord.dfy, SharedRegion.dfy | the converging checksum word; the region as one object |
| WorkLoop.dfy, Workload.dfy, Worker.dfy | a hot worker's loop and computation; acknowledgement and promotion scan |
| OutputWitness.dfy | the supervisor's drain |
| Supervisor.dfy, SupervisorSafety.dfy, SupervisorLosses.dfy, SupervisorPasses.dfy | crash recovery; what holds over every run of it; when it loses a ring or refuses; what a pass leaves of every child |
| Health.dfy, HealthTraces.dfy | the health machine and poll loop; what alert traces mean |
| LogFormat.dfy, LogText.dfy, LogTears.dfy, LogReader.dfy, LogContinuity.dfy, LogWriters.dfy | the event log: fields, text, torn lines, reading, sequence numbers, writers |

Where the code is narrower than its own documentation, the model follows the code:

- The consistency check compares wrapped 64-bit positions. It decides the intended condition for every slot
  content exactly if `head + n` does not exceed 2^64 (`RingBuffer.DecidesExactly`); past that, every window
  has slot contents that it accepts wrongly (`RingBuffer.WrappedWindowAccepted`).
- The check made before a transfer fails on any claim in flight, so a ring that passes it needs no rollback
  (`Takeover.AcceptedNeedsNoRollback`): recovery of a producer that died between claim and commit is refused
  (`SupervisorLosses.RecoveryRefused`). The supervisor alone changes no ring when it promotes. But the transfer
  publishes the new epoch before it rolls back, and the new owner may claim a position in between. Then
  whatever the rollback takes back is a live claim or a record already committed, never an abandoned one
  (`TakeoverRace.OnlyLiveClaims`, `TakeoverRace.TakesBackExactly`, `TakeoverRace.WhatIsGivenBack`). Unless another
  producer stands ready for that very position, the ring accepts no further record once it is committed
  (`JammedRing.GivenBackJams`, `JammedRing.LateCommitJams`, `JammedRing.JammedForever`): a push neither succeeds
  nor gives up, but starts over. `TakeoverRaceRuns.LiveClaimGivenBack` and `TakeoverRaceRuns.RecordGivenBack` are
  such runs, from a quiescent ring.
- The rollback of a takeover removes at most one claim. `Takeover.RollbackRepairs` says exactly which states
  it repairs, `TakeoverRuns.OlderClaimStays` reaches one that it does not; `Takeover.LiveClaimBreaks` and
  `TakeoverRuns.LiveClaimDoesBreak` show why the producer of the newest claim must be dead.
- Every promotion names generation 1. `SupervisorSafety.TakeoverNeedsFirstStandby` and
  `Worker.OnlyFirstStandbyIsPromoted` say exactly when a promotion reaches a running process.
- Only crashed workers are restarted. Once the first standby has exited cleanly no ring is ever transferred
  (`SupervisorPasses.StandbyGoneForGood`, with a run in `SupervisorPasses.NobodyTakesOver`).
- The degraded marks are kept by physical worker, not by ring, and a recovery looks at the first ring recorded
  for the crashed worker only. After a ring has moved the standby is recorded for two, of which exactly one is
  ever announced (`SupervisorLosses.OneOfTwoAnnounced`). `SupervisorLosses.LostSilently` says, for every ring of
  a crashed worker, when it is passed over. If the standby's home was announced first it is the ring that moved
  (`SupervisorLosses.RingLostOnARun`: the standby crashes, then worker 0, then the restarted standby), otherwise
  it is the home (`SupervisorLosses.HomeLostOnARun`: worker 0 crashes, then the first standby).
- An epoch change clears the stall latch silently and leaves the reported state as it was
  (`HealthTraces.StaleStall`, with a run in `HealthTraces.StaleStallHappens`); a status that is neither running
  nor idle resets nothing and keeps the state (`HealthTraces.UnclassifiedKeepsState`).
- A crash does not clear the note that idleness was announced: a worker that was idle, crashed, and is alive and
  idle again before it was ever running stays reported as crashed (`HealthTraces.IdleReportedCrashed`, with a run
  in `HealthTraces.IdleReportedCrashedHappens`).
- Blank and malformed log lines do not advance the reader's watermark, so resuming at the watermark is exact
  only without them (`LogReader.EventLogReader.Seek`); after two blank lines it resumes in the middle of a
  record (`LogReader.BlankLinesMislead`).
- A log record whose durability barrier fails is in the file although the append reports failure, and its
  number is used again (`LogWriters.FileShowsNoGaps` counts the gaps that this causes). A write cut short
  leaves its bytes in the file although the header says that a failed append writes nothing.
- Opening a log tolerates a torn last line, but the next append does not mend it: an acknowledged record is
  then glued to the torn one and is not in the log (`LogWriters.AppendedToTorn`). If the cut fell directly
  behind the key of the schema, the timestamp or the sequence number, or within the level's quotes, no writer can
  open the log again, and only then (`LogWriters.CutsThatLock`); after other cuts the log may show the failed
  record under the number of the acknowledged one, without a gap (`LogWriters.CutHidesRecord`).
- Extra fields are formatted as a C string: a record shows them up to their first NUL (`LogFormat.UpToNul`).
- A poison request is consumed even when the push it meets is refused (`WorkLoop.RefusedRequestIsWasted`).

## Model

| member | source | states |
|---|---|---|
| Words.MaskIsMod | shared-memory/include/safety_crit/shared_memory/ring_buffer.hpp:116-121 | for exactly the slot counts the ring admits, masking with n - 1 is reduction modulo n |
| Words.IndexDistinct | shared-memory/include/safety_crit/shared_memory/ring_buffer.hpp:34-45 | within one lap no slot serves two positions |
| Words.IndexNextLap | shared-memory/include/safety_crit/shared_memory/ring_buffer.hpp:54-66 | position p + n is served by the slot that serves p |
| Crc32c.MakeCrcTable | shared-memory/src/integrity.cpp:22-32 | each of the 256 entries is eight steps of the bitwise division of its index |
| Crc32c.TableLookup | shared-memory/src/integrity.cpp:37-42 | one lookup does the work of eight bit steps |
| Crc32c.TableStep | shared-memory/src/integrity.cpp:37-42 | the table loop computes the bitwise reflected Castagnoli update of every byte string from every state |
| Crc32c.ComputeCrc | shared-memory/src/integrity.cpp:79-85 | the one-shot table form is the bitwise CRC-32C, the empty string included |
| Crc32c.BitwiseUpdateAppend | shared-memory/src/integrity.cpp:63-73 | updating with two pieces in turn is updating with their concatenation |
| Crc32c.BitStepBijective | shared-memory/src/integrity.cpp:22-32 | a bit step permutes the 32-bit states; the inverse is given |
| Crc32c.UpdateInjective | shared-memory/src/integrity.cpp:63-73 | for any data, distinct states stay distinct |
| Crc32c.UpdateByWord | shared-memory/src/integrity.cpp:37-42 | up to four bytes act on the state as their little-endian word does |
| Crc32c.CrcDetectsBurst | shared-memory/include/safety_crit/shared_memory/ring_buffer.hpp:211-216 | any change confined to four consecutive bytes changes the checksum |
| Crc32cVectors.Divisor | shared-memory/src/integrity.cpp:16-17 | the divisor is the Castagnoli polynomial: a bit for each of its exponents, reflected |
| Crc32cVectors.CheckValue | shared-memory/src/integrity.cpp:22-42 | the checksum of the nine bytes "123456789" is 0xE3069283 |
| RingProtocol.StepKeeps | shared-memory/include/safety_crit/shared_memory/ring_buffer.hpp:195-243 | every step of every thread, and every damage to a committed slot that a checksum detects, keeps the ring's invariant |
| RingProtocol.RunKeeps | shared-memory/include/safety_crit/shared_memory/ring_buffer.hpp:34-72 | so does every run, of any length and interleaving, positions below 2^63 |
| RingProtocol.ClaimPushKeeps | shared-memory/include/safety_crit/shared_memory/ring_buffer.hpp:426-431 | a claim on tail keeps the invariant |
| RingProtocol.CommitKeeps | shared-memory/include/safety_crit/shared_memory/ring_buffer.hpp:430-437 | a commit store keeps the invariant |
| RingProtocol.ClaimPopKeeps | shared-memory/include/safety_crit/shared_memory/ring_buffer.hpp:206-210 | a claim on head keeps the invariant |
| RingProtocol.DeliverKeeps | shared-memory/include/safety_crit/shared_memory/ring_buffer.hpp:230-234 | a release that delivers keeps the invariant |
| RingProtocol.DiscardKeeps | shared-memory/include/safety_crit/shared_memory/ring_buffer.hpp:216-229 | a release that skips a corrupt slot keeps the invariant |
| RingTheorems.Safety | shared-memory/include/safety_crit/shared_memory/ring_buffer.hpp:34-72 | 0 <= tail - head <= n, one claimant per position, no two owners of one slot's bytes, every sequence the marker of its phase |
| RingTheorems.OwnersApart | shared-memory/include/safety_crit/shared_memory/ring_buffer.hpp:61-68 | two threads that own positions own different slots |
| RingTheorems.PushRefusal | shared-memory/include/safety_crit/shared_memory/ring_buffer.hpp:439-446 | however stale its load of tail, a push gives up exactly when it looks at the current tail and tail - n is not released |
| RingTheorems.PopRefusal | shared-memory/include/safety_crit/shared_memory/ring_buffer.hpp:235-242 | a pop gives up exactly when it looks at the current head and that position is not committed |
| RingFifo.StepRefinesFifo | shared-memory/include/safety_crit/shared_memory/ring_buffer.hpp:47-60 | every step is a step of a bounded first-in first-out log |
| RingFifo.Conservation | shared-memory/include/safety_crit/shared_memory/ring_buffer.hpp:195-243 | head = delivered + corruption count + consumers still in flight |
| RingFifo.DeliveredIsPushed | shared-memory/include/safety_crit/shared_memory/ring_buffer.hpp:195-243 | over every run, the value delivered for a position has exactly the length that its call asked for and agrees with the value pushed there byte by byte; only poisoned or damaged positions are skipped |
| RingFifo.WantsAreCalls | shared-memory/include/safety_crit/shared_memory/ring_buffer.hpp:195-205 | what the history says a consumer asked for is the size of its latest call in the run |
| RingFifo.OrderOfCalls | shared-memory/include/safety_crit/shared_memory/ring_buffer.hpp:413-448 | a producer's values stand in the log in the order of its calls, a consumer's positions increase |
| RingFifo.FifoPerProducer | shared-memory/include/safety_crit/shared_memory/ring_buffer.hpp:47-60 | each consumer gets each producer's values in the order they were pushed, each in the length asked for and byte by byte as sent |
| RingBuffer.LockFreeRingBuffer.Initialize | shared-memory/include/safety_crit/shared_memory/ring_buffer.hpp:147-166 | leaves an empty quiescent ring, payload bytes untouched |
| RingBuffer.LockFreeRingBuffer.TryPush | shared-memory/include/safety_crit/shared_memory/ring_buffer.hpp:413-448 | succeeds exactly when there is room, whatever spurious failures, and leaves the specified memory |
| RingBuffer.LockFreeRingBuffer.TryPop | shared-memory/include/safety_crit/shared_memory/ring_buffer.hpp:195-243 | delivers the oldest record if good, skips and counts it if not, refuses exactly when empty |
| RingBuffer.PushedQuiet | shared-memory/include/safety_crit/shared_memory/ring_buffer.hpp:425-437 | a push appends one record and leaves the ring quiescent |
| RingBuffer.PushedRecord | shared-memory/include/safety_crit/shared_memory/ring_buffer.hpp:430-437 | that record is the value over the front of the slot's bytes, the rest unchanged, and its checksum is good exactly if it is not poisoned |
| RingBuffer.PoppedQuiet | shared-memory/include/safety_crit/shared_memory/ring_buffer.hpp:206-233 | a pop removes the oldest record and leaves the ring quiescent |
| RingBuffer.DecodeCounter | shared-memory/include/safety_crit/shared_memory/ring_buffer.hpp:299-310 | mask and lap arithmetic decode every 64-bit counter to its slot's two positions, or refuse |
| RingBuffer.LockFreeRingBuffer.DeriveState | shared-memory/include/safety_crit/shared_memory/ring_buffer.hpp:294-321 | the minima over all slots; any malformed counter refuses and leaves the output |
| RingBuffer.LockFreeRingBuffer.VerifyConsistent | shared-memory/include/safety_crit/shared_memory/ring_buffer.hpp:349-384 | for arbitrary 64-bit contents: accepts exactly the windows of at most one lap whose every slot shows its position's marker, whenever head + n does not exceed 2^64 |
| RingBuffer.DecidesExactly | shared-memory/include/safety_crit/shared_memory/ring_buffer.hpp:349-384 | the check decides that for every slot content if and only if head + n does not exceed 2^64 |
| RingBuffer.WrappedWindowAccepted | shared-memory/include/safety_crit/shared_memory/ring_buffer.hpp:373-383 | every window with head + n past 2^64 has slot contents that it accepts though they do not show the window |
| RingBuffer.SlotAgreement | shared-memory/include/safety_crit/shared_memory/ring_buffer.hpp:362-382 | for a window position below 2^64 the wrapped comparison of its slot holds exactly when the slot shows its marker |
| RingBuffer.MaskedDifference | shared-memory/include/safety_crit/shared_memory/ring_buffer.hpp:373-377 | masking a wrapped difference is the difference modulo n |
| RingRecovery.ConsistentWhenUnclaimed | shared-memory/include/safety_crit/shared_memory/ring_buffer.hpp:323-349 | on a snapshot of a reachable ring the check accepts exactly when no claim is in flight |
| RingRecovery.AcceptedIsReachable | shared-memory/include/safety_crit/shared_memory/ring_buffer.hpp:323-349 | whatever ends and counters it accepts, some run of pushes and pops from initialization reaches them |
| RingRecovery.ReachableDecodes | shared-memory/include/safety_crit/shared_memory/ring_buffer.hpp:294-306 | reconstruction never refuses a reachable ring |
| RingRecovery.DerivedExactly | shared-memory/include/safety_crit/shared_memory/ring_buffer.hpp:270-321 | it returns the least of head and the positions being consumed, and of tail and the positions being produced |
| RingRecovery.PushAlone | shared-memory/include/safety_crit/shared_memory/ring_buffer.hpp:413-448 | the protocol's steps run by one thread alone do what the sequential push is specified to do |
| RingRecovery.PopAlone | shared-memory/include/safety_crit/shared_memory/ring_buffer.hpp:195-243 | the protocol's steps run by one consumer alone do what the sequential pop is specified to do, and hand over exactly the bytes asked for of the oldest record, or count it if its checksum fails |
| OwnershipProtocol.StepKeeps | shared-memory/src/shared_region.cpp:117-187 | every step of readers, workers and transfers keeps the record's invariant |
| OwnershipProtocol.OneOwnerPerEpoch | shared-memory/src/shared_region.cpp:117-142 | all tokens ever returned for one epoch are the same |
| OwnershipProtocol.OneTransferPerToken | shared-memory/src/shared_region.cpp:151-187 | no token is the expected one of two successful transfers |
| OwnershipProtocol.CheckPasses | shared-memory/src/shared_region.cpp:144-149 | a worker's check passes exactly for the current record |
| OwnershipProtocol.SupersededStaysInvalid | shared-memory/src/shared_region.cpp:144-187 | a token once superseded never validates again, over every continuation |
| OwnershipProtocol.AtMostOneLateRecord | workers/src/worker_entry.cpp:75-92 | a deposed worker publishes at most one record after the transfer |
| OwnershipProtocol.LoneRead | shared-memory/src/shared_region.cpp:117-142 | a read that nobody disturbs ends and returns exactly what the record says, if it is settled and valid |
| OwnershipProtocol.LoneCheck | shared-memory/src/shared_region.cpp:144-149 | a worker's check that nobody disturbs passes exactly if the record says its token |
| OwnershipProtocol.LoneTransfer | shared-memory/src/shared_region.cpp:151-187 | a transfer that nobody disturbs succeeds exactly on the expected epoch and word, and then leaves the new word at the epoch two on; otherwise the record is as before |
| Takeover.RollBack | shared-memory/src/shared_region.cpp:188-208 | the loop gives back the newest position exactly if its slot still reads ready |
| Takeover.AcceptedNeedsNoRollback | shared-memory/src/shared_region.cpp:188-208 | a ring that passes the check, wrapped or not, is left alone by the rollback |
| Takeover.RollbackRepairs | shared-memory/src/shared_region.cpp:188-208 | the repaired ring passes the check exactly when nothing but the newest claim was in flight |
| Takeover.RollbackKeepsRecords | shared-memory/src/shared_region.cpp:188-208 | head and all committed records stay, and tail stands just past the last committed one |
| Takeover.TakeoverRepairs | shared-memory/src/shared_region.cpp:188-208 | one producer that died anywhere in its latest push leaves, after the transfer, a consistent ring |
| TakeoverRuns.TakeoverResumes | shared-memory/src/shared_region.cpp:188-208 | the repaired state, the abandoned entry off the log and its thread idle, satisfies every invariant and order of reachable states and keeps all committed entries |
| TakeoverRuns.RecordsCrossTakeover | shared-memory/src/shared_region.cpp:188-208 | over every run after the takeover the records committed before it keep their positions, and each taken position is delivered as pushed, counted, or in one consumer's hands |
| TakeoverRuns.FifoAcrossTakeover | shared-memory/src/shared_region.cpp:188-208 | each consumer gets each producer's values in order across the takeover |
| TakeoverRuns.OlderClaimStays | shared-memory/src/shared_region.cpp:188-208 | a reachable ring with two abandoned claims still fails the check after the rollback |
| Takeover.LiveClaimBreaks | shared-memory/src/shared_region.cpp:187-208 | if that producer is alive and commits after the rollback, the ring fails the check and a push at tail neither claims nor gives up |
| TakeoverRuns.LiveClaimDoesBreak | shared-memory/src/shared_region.cpp:187-208 | and real runs reach such a ring |
| TakeoverRace.RunStaysClean | shared-memory/src/shared_region.cpp:151-213 | readers, workers that check before each push, transfers and the loads of the rollback, in any interleaving: until a position is given back both protocols keep their invariants and no commit is undone |
| TakeoverRace.TakesBackExactly | shared-memory/src/shared_region.cpp:188-208 | whatever happens between its loads and its swap, the rollback takes the position back exactly if it was uncommitted at the load of the sequence and tail is unchanged at the swap |
| TakeoverRace.WhatIsGivenBack | shared-memory/src/shared_region.cpp:188-208 | at the swap the claim is still uncommitted, and the swap is the repair as one step, or it takes back a committed record and leaves a ring that fails the check |
| TakeoverRace.OnlyLiveClaims | shared-memory/src/shared_region.cpp:178-208 | if no claim was in flight at the publication of the epoch, whatever a rollback finds was claimed after it by a worker that passed its check and is still in its push |
| TakeoverRace.LoneRollBack | shared-memory/src/shared_region.cpp:188-208 | a rollback that nobody disturbs ends within four steps and does what the repair as one step does |
| JammedRing.GivenBackJams | shared-memory/src/shared_region.cpp:188-208 | a committed record given back leaves a ring whose tail stands at a slot that has moved on |
| JammedRing.LateCommitJams | shared-memory/src/shared_region.cpp:188-208 | so does a live claim given back, once it is committed |
| JammedRing.JammedForever | shared-memory/include/safety_crit/shared_memory/ring_buffer.hpp:413-448 | on such a ring no push ever succeeds again, over every run of any producers and consumers |
| TakeoverRaceRuns.LiveClaimGivenBack | shared-memory/src/shared_region.cpp:151-213 | a run from a quiescent ring in which the recorded owner's live claim is given back; its push succeeds and is the last to do so |
| TakeoverRaceRuns.RecordGivenBack | shared-memory/src/shared_region.cpp:151-213 | one in which its committed record is given back |
| IntegrityWord.RegionIntegrityAt | shared-memory/src/shared_region.cpp:29-38 | the byte-serialising computation, by table, is the hash the theorems are about |
| IntegrityWord.IntegrityIsChecksum | shared-memory/src/shared_region.cpp:29-38 | the word is the CRC-32C of the headers followed by the eight bytes of the sequence number |
| IntegrityWord.LittleEndianDigits | shared-memory/src/shared_region.cpp:32-35 | these bytes are its digits in base 256, the least significant first |
| IntegrityWord.HeaderDamageShows | shared-memory/src/shared_region.cpp:29-38 | any change of the headers confined to four consecutive bytes changes the word |
| IntegrityWord.IntegrityInjective | shared-memory/src/shared_region.cpp:29-38 | sequence numbers that share their upper 32 bits have distinct integrity words |
| IntegrityWord.StepKeeps | shared-memory/src/shared_region.cpp:245-268 | the sequence number the word encodes never goes back; a refresh that returns covers its call |
| IntegrityWord.RefreshCovers | shared-memory/src/shared_region.cpp:245-268 | over any run, a completed refresh leaves the word covering at least the sequence number at its call |
| IntegrityWord.Converges | shared-memory/src/shared_region.cpp:245-268 | once all committers have returned the word is the hash of the current sequence number, for a hash injective on those that occurred |
| IntegrityWord.LoneRefresh | shared-memory/src/shared_region.cpp:245-268 | a refresh that nobody disturbs ends within three steps with the hash of the current number |
| IntegrityWord.RegionConverges | shared-memory/src/shared_region.cpp:29-38 | for the region's own hash and fewer than 2^32 commits this needs no assumption |
| SharedRegion.SharedRegion.Initialize | shared-memory/src/shared_region.cpp:42-93 | refuses other dimensions untouched; else empty rings, home owners at epoch 2, a self-consistent word |
| SharedRegion.SharedRegion.ReadOwnership | shared-memory/src/shared_region.cpp:117-142 | returns the record exactly if it is settled and valid for its ring |
| SharedRegion.SharedRegion.OwnershipValid | shared-memory/src/shared_region.cpp:144-149 | holds exactly for the token the record now reads as |
| SharedRegion.SharedRegion.TransferOwnership | shared-memory/src/shared_region.cpp:151-213 | run by one process alone, succeeds exactly on a matching record and admissible arguments, then owner, epoch, ring and integrity word are as specified; a refusal changes nothing |
| SharedRegion.SharedRegion.RefreshIntegrity | shared-memory/src/shared_region.cpp:245-268 | leaves the region self-consistent whatever the word was |
| SharedRegion.SharedRegion.Push | shared-memory/include/safety_crit/shared_memory/shared_region.hpp:190-221 | a commit appends, counts and refreshes; a refusal does none of it |
| SharedRegion.SharedRegion.OwnedLogicalRing | monitors/include/safety_crit/monitors/health.hpp:260-270 | the first ring whose record reads as owned by the process |
| SharedRegion.FirstOwned | monitors/include/safety_crit/monitors/health.hpp:260-270 | found exactly if some ring is owned, and then the least |
| SharedRegion.TransferFences | shared-memory/src/shared_region.cpp:151-213 | a transferred record reads as the replacement and no longer matches the token it superseded |
| SharedRegion.ReadsAsProtocol | shared-memory/src/shared_region.cpp:117-142 | a record of the region reads as the token that an undisturbed read of the protocol returns, if it is the ring's own |
| SharedRegion.TransfersAsProtocol | shared-memory/src/shared_region.cpp:151-173 | a transfer is admitted and finds what it expects exactly when the protocol's is and does |
| WorkLoop.Attempt | workers/src/worker_entry.cpp:75-92 | publishes exactly if owned and there is room, poisoned exactly if the flag is up; an owned attempt lowers the flag, published or not, and another leaves it |
| WorkLoop.RunWorkLoop | workers/include/safety_crit/workers/work_loop.hpp:49-87 | under any schedule of refusals, stops, poison requests, drains and durations: drained output followed by the ring is the earlier content followed by ticks 0, 1, 2, ...; the pending tick is the first unpublished; the poisoned ticks and the overruns are those the schedule determines |
| WorkLoop.StopsExactly | workers/include/safety_crit/workers/work_loop.hpp:49-87 | no attempt is made after a lost ownership or a stop, and a tick stays unpublished only after one of these or at the end of the schedule |
| WorkLoop.OverrunsExactly | workers/include/safety_crit/workers/work_loop.hpp:70-80 | the overruns are the published ticks whose time exceeded the budget |
| WorkLoop.PoisonedPerInterval | workers/src/worker_entry.cpp:75-92 | every raised interval of the flag poisons one record, or is wasted on a refused push, or is still pending: exactly one of these |
| WorkLoop.FlagUpExactly | workers/src/worker_entry.cpp:75-92 | an attempt finds the flag up exactly if a request came before it and no owned attempt since |
| WorkLoop.RefusedRequestIsWasted | workers/src/worker_entry.cpp:75-92 | a request that meets a full ring poisons nothing, ever |
| WorkLoop.OutputIsTicks | workers/include/safety_crit/workers/work_loop.hpp:49-87 | from an empty ring the consumer has the ticks in order, short only of poisoned ones, which the corruption count counts |
| WorkLoop.PushFlows | shared-memory/include/safety_crit/shared_memory/ring_buffer.hpp:174-189 | a clean push adds its value to the output, a poisoned one a loss |
| WorkLoop.PopFlows | shared-memory/include/safety_crit/shared_memory/ring_buffer.hpp:195-233 | a pop moves the oldest outcome from the ring to the consumer |
| Workload.ProcessManual | workers/include/safety_crit/workers/workload.hpp:170-183 | the early-stopping loop yields the pipeline's values, zeros behind |
| Workload.PipelinePicks | workers/include/safety_crit/workers/workload.hpp:132-168 | these are the calibrated values of the first eight samples with a ratio of at least 96, in order |
| Workload.Calibrate | workers/include/safety_crit/workers/workload.hpp:114-117 | the fixed-point product rounded down, never out of 32 bits |
| Worker.AcknowledgeOwnership | workers/src/worker_entry.cpp:167-175 | holds exactly if the ring's record names this worker and generation |
| Worker.PromotionScan | workers/src/worker_entry.cpp:138-156 | the first ring it may take over that names it, or none |
| Worker.MayTakeExactly | workers/src/worker_entry.cpp:138-156 | what it may take: a ring whose settled record names it with its generation, and that is not its home, or is the one it was configured with |
| Worker.OnlyFirstStandbyIsPromoted | workers/src/worker_entry.cpp:138-156 | of all processes ever launched only the first standby can be promoted, exactly to the ring that was transferred |
| OutputWitness.OutputWitness.PopOne | supervisor/src/supervisor.cpp:318-341 | one pop and its accounting, on empty, corrupt, continuing and breaking records |
| OutputWitness.OutputWitness.DrainOutputWitness | supervisor/src/supervisor.cpp:306-344 | with arrivals between pops, counts everything up to the first break and drains dry without one |
| OutputWitness.LevelNeverBreaks | supervisor/src/supervisor.cpp:306-344 | as sole consumer it never reports a gap; records grow by the good records consumed, corruptions by the others; next sequence stays head |
| OutputWitness.BehindBreaks | supervisor/src/supervisor.cpp:333-338 | k positions behind, the first good record reports a gap of exactly k, across corrupt ones before it; ahead, a gap of one |
| OutputWitness.WitnessIsExact | supervisor/src/supervisor.cpp:306-344 | over a lifetime of calls and foreign pops, a call fails exactly if others consumed since a good record was seen and it meets one, and reports exactly how many |
| Supervisor.Supervisor.constructor | supervisor/src/supervisor.cpp:443-475 | the monitor and the workers launched before the first failed fork, all of generation 1; a failed fork requests a stop |
| Supervisor.Supervisor.FindWorker | supervisor/src/supervisor.cpp:150-157 | the first unhandled child of a physical worker |
| Supervisor.Supervisor.ReassignRing | supervisor/src/supervisor.cpp:181-223 | promotion, first announcement, nothing or failure, as the consistency check of that ring says; the supervisor's own steps change no ring, whatever the outcome |
| Supervisor.Supervisor.RecoverWorkerCrash | supervisor/src/supervisor.cpp:168-238 | does what the recovery function says to records, children, generations and marks, given the set of rings that pass the check; the supervisor's own steps change no ring |
| Supervisor.Supervisor.ReapCrashedWorkers | supervisor/src/supervisor.cpp:244-283 | a pass by index, restarts added on the way included, is the fold of the recovery function; without a crash it succeeds and does nothing but handle each running worker that has exited; the supervisor's own steps change no ring |
| Supervisor.NoCrashes | supervisor/src/supervisor.cpp:255-282 | a pass that meets no crash leaves records, marks, log and generations alone, and every child but the running workers that exited cleanly, which are handled and have no process |
| SupervisorPasses.PassAnswers | supervisor/src/supervisor.cpp:168-283 | all children after any pass that succeeds: exactly the running workers that exited, cleanly or not, are handled, and each crash has added one restart, of the same worker and the next generation |
| SupervisorPasses.StandbyGoneForGood | supervisor/src/supervisor.cpp:244-283 | once the first standby has exited cleanly no ring is transferred any more, in the rest of that pass and in every run after it |
| SupervisorPasses.NobodyTakesOver | supervisor/src/supervisor.cpp:168-283 | a run: the standby exits cleanly, worker 0 crashes, its ring is announced and stays its own |
| SupervisorPasses.HotCrash | supervisor/src/supervisor.cpp:168-223 | in every reachable state: a hot worker's crash moves its ring exactly if none has moved and a standby runs; otherwise it announces the ring, unless it was announced or has moved |
| SupervisorSafety.ReapKeeps | supervisor/src/supervisor.cpp:244-283 | every pass, failed ones included, keeps the supervision invariant |
| SupervisorSafety.OneProcessPerRecord | supervisor/src/supervisor.cpp:168-283 | one unhandled child per worker, distinct (worker, generation) pairs, at most one process ever matching a record |
| SupervisorSafety.OneTransferAndTerminalDegradation | supervisor/src/supervisor.cpp:190-223 | at most one transfer in a lifetime; a ring is announced degraded at most once and never transferred afterwards |
| SupervisorSafety.RecordsAreHomeOrStandby | supervisor/src/supervisor.cpp:197-204 | every record is its home worker's, or the first standby's for the one ring that moved |
| SupervisorSafety.TakeoverNeedsFirstStandby | supervisor/src/supervisor.cpp:200-202 | after a transfer a running process matches the record exactly as long as the first standby has not been reaped |
| SupervisorLosses.CrashRecords | supervisor/src/supervisor.cpp:181-223 | in every reachable state, what a crash writes to the table and to the log: the transfer or the announcement of the first ring recorded for the worker, or nothing |
| SupervisorLosses.LostSilently | supervisor/src/supervisor.cpp:161-223 | for every ring recorded for a crashed worker: it is still the worker's afterwards and has never been announced exactly if the worker is the standby, a ring has moved, and the ring is the home while the home was not announced before, or the moved one while it was |
| SupervisorLosses.OneOfTwoAnnounced | supervisor/src/supervisor.cpp:181-223 | after the standby's crash exactly one of its two rings has been announced |
| SupervisorLosses.MarkBeforeMove | supervisor/src/supervisor.cpp:212-223 | until a ring moves, the standby's mark is up exactly if its home ring was announced |
| SupervisorLosses.LostForever | supervisor/src/supervisor.cpp:161-223 | in no reachable state are both the moved ring and the standby's home announced |
| SupervisorLosses.RingLostOnARun | supervisor/src/supervisor.cpp:161-283 | three crashes reach a moved ring that no running process matches and that was never announced |
| SupervisorLosses.HomeLostOnARun | supervisor/src/supervisor.cpp:161-283 | two crashes reach an announced moved ring and a home of the standby that no running process matches and that was never announced |
| SupervisorLosses.RecoveryRefused | supervisor/src/supervisor.cpp:183-190 | on any reachable ring, recovery of its owner succeeds exactly when no claim is in flight and the restart forks |
| Health.WorkerTrack.ObserveWorker | monitors/include/safety_crit/monitors/health.hpp:153-252 | one poll does to the track, and raises, what the step function says |
| Health.RunMonitorLoop | monitors/include/safety_crit/monitors/monitor_loop.hpp:42-90 | emits each worker's alerts in sweep and worker order; the counters are the numbers of alerts emitted by kind; the states are those ReportedStates characterises |
| Health.CountExactly | monitors/include/safety_crit/monitors/monitor_loop.hpp:76-79 | a counter is the number of emitted alerts of its kind |
| HealthTraces.EmittedNames | monitors/include/safety_crit/monitors/monitor_loop.hpp:62-80 | what is emitted is one block for each sweep, in worker order, and every alert carries the index of the worker whose own polls raised it |
| HealthTraces.Classified | shared-memory/include/safety_crit/shared_memory/atomic_flags.hpp:9-17 | the machine classifies a poll by process and status bits: running the first, idle the second, crashed the third, overrun the fifth |
| HealthTraces.AlwaysFollows | monitors/include/safety_crit/monitors/health.hpp:153-252 | after any polls the track holds what the polls alone determine |
| HealthTraces.AlertsAreDeserved | monitors/include/safety_crit/monitors/health.hpp:160-251 | each kind of alert, overruns included, is raised at exactly the polls that deserve it, read off the polls alone; Crashed at the start of each maximal run of crash polls |
| HealthTraces.StalledExactly | monitors/include/safety_crit/monitors/health.hpp:216-243 | Stalled is raised at exactly the first live poll whose distance from its baseline exceeds the handoff grace, if the baseline began the episode or followed an epoch change, or else the stall threshold |
| HealthTraces.WindowIsFrozen | monitors/include/safety_crit/monitors/health.hpp:216-243 | since a poll's baseline, tail and epoch were the same at every live poll and the episode did not end |
| HealthTraces.ReportedOnce | monitors/include/safety_crit/monitors/health.hpp:216-243 | every window that exceeds that bound is reported, once |
| HealthTraces.AlertGrammar | monitors/include/safety_crit/monitors/health.hpp:127-152 | overruns aside, Recovered directly follows Stalled, and two Stalled in a row have an epoch change between them |
| HealthTraces.StateIsLastAlert | monitors/include/safety_crit/monitors/health.hpp:153-252 | after any polls the reported state is that of the last alert other than an overrun, and unknown before the first |
| HealthTraces.ReportedStates | monitors/include/safety_crit/monitors/monitor_loop.hpp:42-90 | so is every state the poll loop reports |
| HealthTraces.StaleStall | monitors/include/safety_crit/monitors/health.hpp:187-243 | a worker is reported stalled with its latch clear exactly if its last alert was Stalled and the epoch has changed since |
| HealthTraces.StaleStallHappens | monitors/include/safety_crit/monitors/health.hpp:187-243 | a poll sequence, ending with a live worker, that reaches this |
| HealthTraces.UnclassifiedKeepsState | monitors/include/safety_crit/monitors/health.hpp:160-215 | a status neither running, idle nor crashed keeps the state, whatever it was, which is running or stalled exactly within an episode |
| HealthTraces.IdleReportedCrashed | monitors/include/safety_crit/monitors/health.hpp:160-192 | a worker last seen idle is reported crashed exactly if it was idle before, then crashed, and was never live since the earlier idle poll |
| HealthTraces.IdleReportedCrashedHappens | monitors/include/safety_crit/monitors/health.hpp:160-192 | a poll sequence, ending with an alive idle worker and no alert, that reaches this |
| LogFormat.NumberRoundTrip | observability/src/event_log.cpp:14-22 | a printed number reads back exactly if it fits in 64 signed bits |
| LogFormat.RoundTrip | observability/src/event_log.cpp:131-177 | for all fields, NULs included, parsing a printed line recovers them, or rejects exactly a timestamp or number past 63 bits |
| LogFormat.InstanceSurvives | observability/src/event_log.cpp:169-172 | everything survives exactly if an instance is set or the extra fields, up to their first NUL, show none |
| LogFormat.OneLine | observability/src/event_log.cpp:249-301 | a printed record contains no newline |
| LogText.PrintedText | observability/src/event_log.cpp:276-294 | the printed text, character by character |
| LogText.ForeignLine | observability/src/event_log.cpp:131-177 | of all lines of that shape, whoever wrote them, the accepted ones: schema 1, a known level, numbers of 64 signed bits, no negative sequence number; a negative timestamp reads as the unsigned number with its bits |
| LogReader.EventLogReader.ReadNext | observability/src/event_log.cpp:350-397 | the next non-blank line of the file, whatever the sizes of reads and the ends of file met; states and watermark are functions of the consumed text |
| LogReader.EventLogReader.Seek | observability/src/event_log.cpp:399-411 | returning to the watermark resumes exactly where the reader stood if and only if nothing was skipped |
| LogReader.BlankLinesMislead | observability/src/event_log.cpp:352-364 | with two blank lines before a record, resuming at the watermark reports a malformed line at the end of a file that was read without error |
| LogReader.Measure | observability/src/event_log.cpp:352-364 | offset = bytes of records + skipped bytes + the unfinished line |
| LogReader.SplitJoined | observability/src/event_log.cpp:350-364 | lines joined with newlines are found again, with the unfinished line behind them |
| LogContinuity.Follow | observability/src/event_log.cpp:350-397 | over any polls of a growing file the records returned are those of the consumed lines, each once |
| LogContinuity.StatePerKey | observability/src/event_log.cpp:365-374 | a key's state depends on its own records only |
| LogContinuity.InOrderAccounting | observability/src/event_log.cpp:365-374 | for an in-order key, expected - 1 = seen + missed |
| LogContinuity.NoGapsExactly | observability/src/event_log.cpp:365-374 | no gap is counted exactly for the numbers 1, 2, 3, ... |
| LogContinuity.ObservedExactly | observability/src/event_log.cpp:365-374 | in any order of arrival: a gap for each number that is not the next after the greatest so far; missed are the numbers up to the greatest less the arrivals beyond it |
| LogContinuity.KeysDiffer | observability/src/event_log.cpp:435-440 | different component instances have different keys |
| LogContinuity.ScanForMax | observability/src/event_log.cpp:197-223 | the recovery scan finds the greatest own number, or refuses exactly if a complete line is malformed |
| LogContinuity.MaxIsGreatest | observability/src/event_log.cpp:212-219 | that number is attained and not exceeded by any record of the component and instance, and 0 without one |
| LogContinuity.EventLogWriter.Open | observability/src/event_log.cpp:183-247 | continues after the greatest number recorded under its component and instance |
| LogContinuity.EventLogWriter.Append | observability/src/event_log.cpp:249-326 | what is written, reported and counted for every refusal, write, cut write and barrier outcome |
| LogWriters.AppendedRecord | observability/src/event_log.cpp:249-326 | a line appended at a line boundary adds exactly its record |
| LogWriters.AppendedToTorn | observability/src/event_log.cpp:287-317 | an appended record is in the log exactly if the file ended at a line boundary, and the log can be opened again exactly if the glued line parses, never if the torn line starts with anything but a brace |
| LogWriters.TextRefines | observability/src/event_log.cpp:183-326 | over the shared file's text, any interleaving of openings and appends without cut writes leaves whole lines that all parse, every opening succeeds, and the records are those of the run over records |
| LogWriters.FileShowsNoGaps | observability/src/event_log.cpp:183-326 | so what a reader of that text finds for each writer's key misses nothing and has one gap per repeated unacknowledged number, none if no barrier fails |
| LogWriters.WritersLeaveNoGaps | observability/src/event_log.cpp:183-326 | the same over records: any interleaving of writers with distinct keys, reopenings included |
| LogTears.TornParses | observability/src/event_log.cpp:131-177 | a printed line cut anywhere, with a whole record run on to it, is rejected exactly for cuts directly behind the key of the schema, timestamp or sequence number or within the level's quotes |
| LogWriters.CutsThatLock | observability/src/event_log.cpp:303-317 | from any log of whole lines that parse, for every length of a cut write followed by an acknowledged append: that record leaves none in the log and no writer can open it again exactly for those cuts |
| LogWriters.CutLocksLog | observability/src/event_log.cpp:303-317 | in particular a cut after ten bytes, whatever the requests |
| LogWriters.CutHidesRecord | observability/src/event_log.cpp:303-317 | a write cut before its newline and an acknowledged append leave the failed record under the acknowledged number, and a log that opens |
| LogWriters.FailedBarrierShows | observability/src/event_log.cpp:319-324 | a failed barrier followed by one more append shows as a gap |

## Left out

- Weak memory orders: atomic accesses are sequentially consistent steps; a weak compare-and-swap may fail spuriously.
- Operating-system calls: mapping and attaching the region, pidfiles, forks, waits, signals, scheduling and sleeping appear as nondeterministic outcomes or parameters.
- RingProtocol.RunKeeps: positions stay below 2^63, the lifetime bound the ring documents; what happens past it is not stated.
- RingProtocol.StepKeeps: the environment damages at most one stretch of four consecutive payload bytes, or the tag, of a committed slot, which is what the checksum is certain to detect.
- RingBuffer.LockFreeRingBuffer.TryPush: one process's call without contention; contention is the subject of the transition system.
- OwnershipProtocol.OneOwnerPerEpoch: one ring's record at a time, with epochs below 2^64; rings do not share records.
- IntegrityWord.RegionConverges: fewer than 2^32 commits; beyond that Converges assumes the hash injective on the sequence numbers that occur.
- SharedRegion.SharedRegion.TransferOwnership: one process at a time; its interleavings are those of OwnershipProtocol for the record, and of TakeoverRace for the ring.
- TakeoverRace.RunStaysClean: one ring, one supervisor, and no refresh of the integrity word, which touches neither.
- WorkLoop.RunWorkLoop: pacing by sleep; a schedule lists what happens around each attempt and how long it took, and when it ends the stop flag is up.
- OutputWitness.OutputWitness.DrainOutputWitness: producers push between pops, not during one.
- SupervisorSafety.OneProcessPerRecord: fewer than 2^32 launches, before the generation counter wraps.
- Supervisor: the monitor's alert stream, the handoff window, the stall recovery tracker and the timing witness; a stalled worker that is killed is one more crash.
- Workload.ProcessManual: the pseudo-random tick generator feeding it.
- LogReader.EventLogReader.ReadNext: read errors other than an end of file, and interrupted calls.
- LogContinuity.EventLogWriter.Append: interrupted writes, which are repeated until they write something or fail.
- LogFormat.RoundTrip: characters are not encoded as bytes.
- LogWriters.FileShowsNoGaps: timestamps and numbers below 2^63 and extra fields that do not pose as an instance; RoundTrip says what other records read as. One process per key at a time.
- Identity checks, the attach path, the replay log, HTTP, metrics and rendering, perturbation tooling.
