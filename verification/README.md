# Treeless, verified

A Dafny model of the storage engine, the wire layer and the replication policy of Treeless, a
distributed key-value store, with proofs of what they keep over every run.

A *PMap* holds the pairs of one chunk. It appends records to a byte log and finds them through a
linear-probing hash table with deleted marks that doubles when it is 70% full. Timestamps decide:
Set is last-writer-wins, Del is guarded by time, CAS replaces the version it names. A running checksum
lets replicas compare themselves. A *core* routes keys to chunks and defragments them; clients repair
replicas on read and send swaps to one master; messages travel in frames through buffers on both sides,
and a broker matches replies and timeouts to requests.

## How it is built

- **Specification.** `PMapSpec` is the state machine of a PMap on values: the records of the log, the live
  record of each key, the byte and bucket counters and the checksum windows. `TimedMap` is the plain
  dictionary it is measured against. `PMapRuns`, `PMapHistory`, `PMapChecksum`, `Recovery`, `Restarts`,
  `RestartWindows`, `ReportedSums`, `QuietReports`, `Capacity`, `Defrag`, `ChunkRuns`, `CoreRuns` and
  `CoreServing` prove properties of all its runs, `Timestamps` says on the raw bytes what each operation does,
  and `FailingRuns` has the short runs at which a promise fails.
- **Code.** Classes work in place as the source does: `ProbeTable.HashMap` on an array of 32-bit words,
  `LogStore.Store` on a byte array, `Checksum.SyncChecksum` on its fields, `PMaps.PMap` on all three,
  `Chunks.MetaChunk` on its PMap, file revision and counter, `TimeoutQueue.Queue` on linked nodes,
  `BuffConn.Sender` and `BuffConn.Receiver` on their buffers. Each method is proved to make exactly the step
  of its specification, so every property of the runs holds of the code; `Serving` spells this out for a
  PMap from construction to answer.
- **Get and iteration.** The table decides what Get answers (`PMap.Answer`). The specification keeps what every
  table allows (`GetAllows`) and states iteration and defragmentation for all such answers. `StaleGets` is a run of
  the object itself. Below, hash 0 and hash 1 mean the low 32 bits of a key's hash, and any other hash is ordinary.
- **Parameters.** The hash is an arbitrary function from keys to 64 bits. Times are the signed 64-bit
  nanosecond counts the values carry. The initial size and the limit of the table and the store size are
  parameters. The five copies of the probe loop in `pmap.go` are one method.
- `Ample` says the limit of the table can hold every key the store has room for; `DefaultAmple` shows
  that the defaults do up to 939524080 bytes.

## What the code does not keep

Each of these is proved, with the exact condition under which the code does keep its promise where there is one.

- `Get` and `isPresent` use the raw hash where Set, CAS and Del remap 0 and 1: a pair whose low hash half is
  0 or 1 is stored and then not found (`GetIsRightIff`, `ServeReserved`).
- Del unlinks a key before its tombstone is appended, and the tombstone can be refused by a full store: the
  key comes back on reopening, and the count of deleted bytes drops (`RestartEquivalence`, `ReopenDeleted`,
  `RefusedTombstone`).
- `Open` takes an empty key for the end of the log and forgets all that follows, and it panics when fewer than
  4 bytes are left behind the log (`RestartEquivalence`, `EmptyKeyForgotten`, `NoSpareBytes`).
- A replacing CAS subtracts from the checksum before an append that can be refused; the checksum then stays
  wrong (`ChecksumExact`, `RefusedSwap`).
- CAS on an absent key fails only if the given time is not 0 and the given hash is not that of an empty
  value (`AbsentSwapIff`); its comment asks for a zero time in any case.
- A live pair whose key has hash 0 is invisible to iteration, so defragmentation drops it
  (`IterationIffGood`, `DefragKeepsIffGood`, `HashZeroIsDropped`); a deleted pair whose key has hash 1 can be
  answered and shown (`StaleAnswer`).
- `Open` starts the revision counter at 0 whatever file it opens: the first defragmentation after a restart on a
  file of revision 1 truncates the file it copies from, and loses every pair or panics (`CollidesIff`, `DefragStepIff`,
  `SecondDefragLosesAll`).
- `isPresent` compares timestamps only, and for a tombstone compares the bytes behind it: repeated
  timestamps or small ones make iteration show dead records (`IterationIff`) and defragmentation lose an
  update or panic (`DefragKeepsIff`, `RepeatedTimeLosesUpdate`, `SmallTimePanics`).
- An event on a whole second is counted in a window or not depending on the order of arrival
  (`OldChecksumExactlyWhen`, `BoundaryEventDisagrees`).
- A Set that is discarded leaves no trace in the checksum, so replicas with the same pairs report differently
  while a write that came late is still within the windows (`ReportsAgree`, `ReportsAgreeIff`,
  `LateWriteDisagrees`).
- A deletion leaves no time behind: an earlier write that arrives after it brings the key back, so replicas that
  see the two in different orders differ (`SetDelOrder`).
- When the index has no room left, even an update of a stored key is refused (`IndexCapacity`,
  `FullRefusesUpdates`).
- A tombstone carries no time, so reopening counts a deletion at a moment long past (`ReportsSurvive`,
  `DeletionMovesWindows`).
- CAS never compares the time it writes with the one it replaces, so a won swap can be undone by the next read
  (`SwapSpreadsIff`, `EarlierSwapUndone`).
- `queue.push` with the earliest deadline of all runs on into the general case, leaves a cycle and loses the old
  head; a later tick dereferences nil (`Push`, `PushEarliestPanics`).
- `Conn.Read` asks the socket for an empty slice for ever once fewer than 13 bytes remain behind `readStart`
  (`Exchange`, `StuckIff`, `LostThird`).
- The heartbeat decoder never steps over the first terminator, so dead servers are never decoded
  (`DeadIsNeverDecoded`), and an empty address ends a list (`RoundTrip`).

Where a comment and the code disagree the model follows the code; besides the comment on CAS, the one on the
record layout in `store.go` speaks of a presence bit and omits the footer.

## Model

| member | source | states |
|---|---|---|
| ByteStrings.DecodeEncode | core/pmap/store.go:141-155 | little-endian decoding undoes encoding, for every number that fits the width |
| ByteStrings.EncodeDecode | core/pmap/store.go:141-155 | encoding undoes decoding, for every byte string |
| ByteStrings.FromLEInjective | core/pmap/pmap.go:392-401 | two 8-byte strings are equal exactly when the numbers they encode are, so comparing the bytes of two timestamps compares the timestamps |
| ByteStrings.MaskIsMod | core/pmap/hashmap.go:48-56 | `h & (2^k - 1)`, computed bit by bit, is the remainder of h by 2^k, so masking picks the home bucket |
| Timestamps.ByteWeight | core/pmap/store.go:141-155 | byte i of a little-endian string weighs 256^i |
| PairWeights.XorAt | core/pmap/pmap.go:248-267 | a bit of an exclusive or is set if and only if it is set in exactly one of the words |
| PairWeights.XorLaws | core/pmap/pmap.go:248-267 | exclusive or undoes itself, is commutative and has 0 as its unit |
| RecordLog.ImageAt | core/pmap/store.go:175-193 | in the byte image of a log, record i occupies exactly the slice that starts at the summed lengths of the records before it |
| RecordLog.ReadRecord | core/pmap/store.go:141-172 | the accessors, applied where a record was written, return its two lengths, its key and its value |
| RecordLog.ReadFooter | core/pmap/store.go:157-162 | the 4 bytes before the next record hold the length that leads back to this one |
| RecordLog.ReplayAppend | core/pmap/pmap.go:85-138 | one more record changes the replay by one map update, or by one removal if it is a tombstone |
| RecordLog.ReplayIsLast | core/pmap/pmap.go:57-82 | a key is in the replay at i if and only if record i is its last one and is not a tombstone |
| LogStore.ReadAt | core/pmap/store.go:141-172 | in a file that stores a log, reading at the offset of record i gives record i, for every log and every i |
| LogStore.PrevAt | core/pmap/store.go:157-162 | following footers from the end visits the offsets of all records backwards and then answers -1 |
| LogStore.StoresAppend | core/pmap/store.go:175-193 | writing an encoded record behind a stored log gives a file that stores the longer log, and leaves zeros behind it if there were zeros |
| LogStore.Store.constructor | core/pmap/store.go:55-85 | a new store is all zeros and stores the empty log |
| LogStore.Store.WriteRecord | core/pmap/store.go:175-193 | the five writes of a record change exactly its slice of the file, to its encoding |
| LogStore.Store.Put | core/pmap/store.go:175-193 | accepted if and only if something is left of the file afterwards; then the log has grown by that record and the returned index is its offset; refused, nothing has changed |
| ProbeTable.HashReMap | core/pmap/hashmap.go:108-113 | no hash collides with the two bucket marks, and a hash that does not is left alone |
| ProbeTable.SomeEmpty | core/pmap/hashmap.go:48-56 | a table with fewer used buckets than buckets has an empty one, so probes end |
| ProbeTable.FillKeepsReachable | core/pmap/pmap.go:209-272 | putting a hash into the first empty bucket of its probe keeps every live bucket reachable from its home without a gap |
| ProbeTable.MarkKeepsReachable | core/pmap/pmap.go:355-390 | marking a bucket deleted keeps every live bucket reachable |
| ProbeTable.ProbeNext | core/pmap/pmap.go:180-204 | a probe that meets no empty bucket makes progress and cannot come round to one it has not seen |
| ProbeTable.HashMap.constructor | core/pmap/hashmap.go:34-40 | a new table is empty and valid |
| ProbeTable.HashMap.SetSize | core/pmap/hashmap.go:48-56 | the loop over bits ends with the mask size - 1; the load limit is 7/10 of the size rounded down |
| ProbeTable.HashMap.Alloc | core/pmap/hashmap.go:42-45 | all buckets of the new memory are empty |
| ProbeTable.HashMap.GetHash | core/pmap/hashmap.go:94-96 | the 32-bit word at 2 * index is the hash register of the bucket |
| ProbeTable.HashMap.GetStoreIndex | core/pmap/hashmap.go:97-99 | the word after it is its offset register |
| ProbeTable.HashMap.SetBucket | core/pmap/hashmap.go:100-105 | changes the two registers of that bucket and of no other |
| ProbeTable.HashMap.Expand | core/pmap/hashmap.go:59-88 | refuses if and only if the doubled size exceeds the limit, changing nothing; otherwise the live buckets of the old and the new table are in one-to-one correspondence with hashes and offsets kept, the deleted ones are gone, the count is that of the live ones and the table is below its load limit |
| ProbeTable.HashMap.MoveInto | core/pmap/hashmap.go:59-88 | the two nested loops: the correspondence between the tables, found by probing the new one |
| PMapIndex.FoundIsLive | core/pmap/pmap.go:180-204 | a probe that ends in a matching bucket has found the live record of exactly that key |
| PMapIndex.MissIsAbsent | core/pmap/pmap.go:209-272 | a probe with the remapped hash that ends in an empty bucket proves the key is not live |
| PMapIndex.HitIsAnswer | core/pmap/pmap.go:180-204 | the first matching bucket before an empty one is unique, so the table decides what Get answers |
| PMapIndex.FillIndexes | core/pmap/pmap.go:209-272 | linking a new key, or relinking an old one, keeps the one-bucket-per-live-key invariant for the updated map |
| PMapIndex.MarkIndexes | core/pmap/pmap.go:355-390 | marking the bucket of a key deleted keeps the invariant for the map without it |
| PMapIndex.RehashIndexes | core/pmap/hashmap.go:59-88 | doubling the table keeps the invariant for the same map |
| PMapRuns.SetStep | core/pmap/pmap.go:209-272 | Set keeps the invariant and, unless refused, is the last-writer-wins update of a dictionary; refused, the pairs are unchanged |
| PMapRuns.CasStep | core/pmap/pmap.go:284-350 | CAS keeps the invariant, gives the verdict of the dictionary's compare-and-swap and has its effect, or is refused without effect on the pairs |
| PMapRuns.DelStep | core/pmap/pmap.go:355-390 | Del, with a timestamp of at least 8 bytes where the key is live, keeps the invariant and always removes what a time-guarded deletion removes, even when its tombstone is refused |
| PMapRuns.StepRefines | core/pmap/pmap.go:209-390 | every operation on which the code does not panic is refused or is the step of the dictionary |
| PMapRuns.RunRefines | core/pmap/pmap.go:209-390 | over every such run from a new PMap, whatever is refused and however often the index doubles, the pairs are those of a plain dictionary fed with the accepted operations |
| Timestamps.TimeInWords | core/pmap/pmap.go:248-258 | on the raw bytes: a larger 64-bit word is a later time, words from 2^63 on are before all others, and times are equal exactly when the 8 bytes are |
| Timestamps.SetInWords | core/pmap/pmap.go:209-272 | in every reachable state a Set that is not refused replaces the stored value if and only if there is none or its word is earlier, and touches no other key |
| Timestamps.DelInWords | core/pmap/pmap.go:355-390 | a Del removes the stored pair if and only if its word is not later than the one given, and nothing else |
| Timestamps.CasInWords | core/pmap/pmap.go:284-350 | a swap that is not refused succeeds if and only if it names the 8 timestamp bytes and the hash of the rest; a wrong timestamp is reported before a wrong hash |
| Timestamps.LaterWins | core/pmap/pmap.go:248-267 | two writes in either order leave the one with the later word |
| Timestamps.SetDelOrder | core/pmap/pmap.go:355-390 | a write and a deletion leave the same pairs in both orders if and only if the write is later; otherwise the pair stays exactly where the deletion came first |
| Timestamps.LatestInWords | core/pmap/pmap.go:209-272 | after any accepted Sets no write of a key has a later word than the one stored |
| Capacity.StoreCapacity | core/pmap/store.go:175-193 | with an ample index, Sets of different keys are all accepted if and only if their records take fewer bytes than the store has |
| Capacity.IndexCapacity | core/pmap/hashmap.go:48-88 | in a store with space, they are all accepted if and only if they are at most seven tenths of the largest power of two within the limit |
| Capacity.FullRefusesUpdates | core/pmap/pmap.go:213-219 | counterexample: with that many keys stored, even a later write of a stored key is refused |
| PMapHistory.AmpleHasRoom | core/pmap/pmap.go:209-238 | since 20 * stored keys <= log length, a PMap whose index limit is ample for its store never finds its index full |
| PMapHistory.DefaultAmple | core/pmap/hashmap.go:24-26 | the default limit of 2^26 buckets is ample for every store of at most 939524080 bytes |
| PMapHistory.NeverIndexFull | core/pmap/pmap.go:209-350 | an ample PMap never answers that its index is full, in any state that satisfies the invariant |
| PMapHistory.NothingRefused | core/pmap/pmap.go:209-390 | a run whose records are shorter in total than the store has no refused operation |
| PMapHistory.RunIsDictionary | core/pmap/pmap.go:209-390 | such a run ends with exactly the pairs of the dictionary |
| PMapHistory.ReplayExact | core/pmap/pmap.go:355-390 | after every run the live map is the replay of the log less the keys whose tombstone was refused and which have not been written since |
| PMapHistory.ReplayIffNothingLost | core/pmap/pmap.go:355-390 | the live map is the replay of the log if and only if there is no such key |
| PMapChecksum.RunAgrees | core/pmap/pmap.go:209-390 | after every run the newest checksum plus the pairs subtracted by refused replacing swaps is the sum over the live pairs, modulo 2^64 |
| PMapChecksum.ChecksumExact | core/pmap/pmap.go:284-350 | the newest checksum is the sum of hash xor timestamp over the live pairs if and only if what refused replacing swaps subtracted sums to 0 modulo 2^64 |
| PairWeights.WeightLaws | core/pmap/pmap.go:248-267 | from the weight of a pair, its timestamp bytes give back the hash of its key, and that hash its timestamp bytes |
| PairWeights.SumSeesTimes | core/pmap/pmap.go:248-267 | replacing a value changes the sum over the pairs if and only if it changes the timestamp bytes |
| FailingRuns.RefusedSwap | core/pmap/pmap.go:337-341 | counterexample: Set, then a swap that names the pair but does not fit; the pair stays and the checksum is not the sum over the pairs |
| PeekBytes.PeekAt | core/pmap/pmap.go:392-401 | the 8 bytes read at the value of a record are its timestamp, or for a tombstone its footer and the next key length |
| Recovery.RestoredExact | core/pmap/pmap.go:57-138 | after any prefix of a walk over records with a good log the rebuilt index is the replay of that prefix, the bytes add up and the checksum agrees |
| Recovery.Stop | core/pmap/pmap.go:63-66 | the walk of Open restores the records before the first empty key, or all of them |
| Recovery.ReopenExact | core/pmap/pmap.go:57-82 | reopening any good log, empty keys included: the live map is the replay of the walked records, their length = deleted + bytes of live records, and the newest checksum is the sum over the pairs |
| Restarts.WalkOfRun | core/pmap/pmap.go:63-66 | after any run the walk restores exactly the log of before the first pair under the empty key, and is whole if and only if there is none |
| Restarts.LostForever | core/pmap/pmap.go:382-385 | a key whose tombstone was refused stays lost for the rest of the run, since nothing larger fits any more |
| Restarts.RestartOfRun | core/pmap/pmap.go:57-138 | after any run: the reopened live map is the replay of the log of before the first pair under the empty key, with bytes and checksum exact |
| Restarts.RestartEquivalence | core/pmap/pmap.go:57-138 | after any run, reopening succeeds with exactly the same pairs if and only if no tombstone was refused before the first pair under the empty key, the pairs are still those of that moment, and, if there is no such pair, 4 bytes are left behind the log |
| Restarts.RestartOfNonempty | core/pmap/pmap.go:57-138 | for runs without empty keys: if and only if no tombstone was refused and 4 bytes are left |
| FailingRuns.RefusedTombstone | core/pmap/pmap.go:382-385 | counterexample: Set, then Del in a full store; the pair is back after reopening and the count of deleted bytes drops to 0 |
| FailingRuns.EmptyKeyForgotten | core/pmap/pmap.go:64-66 | counterexample: Set under the empty key, Set of another key; nothing was refused and the reopened PMap is empty |
| FailingRuns.NoSpareBytes | core/pmap/pmap.go:64-66 | counterexample: one Set that leaves 1 to 3 bytes; nothing was refused and opening panics |
| Restarts.BytesConserved | core/pmap/pmap.go:209-390 | after every run the log length is deleted + bytes of live records + bytes of replaced records and tombstones, exactly |
| Restarts.ReopenDeleted | core/pmap/pmap.go:63-79 | for every run: how the count of deleted bytes changes on reopening, exactly |
| Restarts.ReopenedPairs | core/pmap/pmap.go:63-79 | replaying the whole log gives back the pairs of before and those of the lost keys, and no others |
| Restarts.ReopenLowersIff | core/pmap/pmap.go:63-79 | without a pair under the empty key it is not lowered if and only if the pairs of lost keys weigh no more than the replaced records and tombstones |
| Restarts.ReopenNeverLowers | core/pmap/pmap.go:63-79 | so it is never lowered where the restart keeps the pairs and no empty key cuts the log |
| RestartWindows.ReportsSurvive | core/pmap/pmap.go:85-138 | after writes alone, none under an empty key, a reopened PMap has the same windows and reports at every moment what the old one would have |
| RestartWindows.DeletionMovesWindows | core/pmap/pmap.go:85-138 | counterexample: after a deletion that was logged the pairs survive a restart and the newest boundary goes back, since a tombstone carries no time |
| GetAnswers.RightIff | core/pmap/pmap.go:180-204 | in a log without a key of hash 1, Get is right about every key if and only if no live key has hash 0 |
| Defrag.PresentIsLive | core/pmap/pmap.go:392-401 | for whatever Get answers: the timestamp comparison of isPresent is right about every record if and only if Get is right about every key of the log and no dead record of a live key shows the live timestamp |
| Defrag.TombstoneWord | core/pmap/pmap.go:392-401 | what is compared for a tombstone is its key length plus 2^32 times the next key length |
| Defrag.TombstoneBound | core/pmap/pmap.go:392-401 | in a store below 2^28 bytes that word is below 2^60 |
| Defrag.FreshIsUnambiguous | core/pmap/pmap.go:392-401 | with fresh timestamps of at least 2^60 per key in such a store no record is mistaken for a live one |
| Defrag.LiveRecordsExact | core/pmap/pmap.go:439-456 | the live records are one per live key, hold its value and are ordered as in the log |
| Defrag.IterationIff | core/pmap/pmap.go:439-456 | for whatever Get answers: iteration visits exactly the live records if and only if Get is right about every key of the log and the log is unambiguous |
| Defrag.IterationIffGood | core/pmap/pmap.go:439-456 | in a log without a key of hash 1: if and only if no live key has hash 0 and the log is unambiguous |
| Defrag.IterationExact | core/pmap/pmap.go:439-456 | what it then visits: a pair if and only if it is live, and no key twice |
| Iteration.PickedVisited | core/pmap/pmap.go:439-456 | picking the records that pass the test one by one gives the visit of the specification |
| Iteration.StopsAt | core/pmap/pmap.go:439-456 | a callback that returns false at a record has seen the shown records up to and including that one |
| Iteration.BackwardsStopsAt | core/pmap/pmap.go:405-435 | the same for the reverse order |
| Defrag.DefragExact | core/defrag.go:23-42 | where Get is right about the keys and the log is unambiguous, defragmenting into a store at least as large never panics, keeps every pair, leaves deleted = 0 and used = bytes of the live records, and the new log is exactly the live records in order |
| DefragLimits.DefragCopies | core/defrag.go:23-42 | for whatever Get answers: if no tombstone is shown nothing panics, and the new map holds the first record shown for each key |
| DefragLimits.TombShownPanics | core/defrag.go:23-42 | a shown tombstone is refused by Set as too short, which is a panic |
| DefragLimits.DefragKeepsIff | core/defrag.go:23-42 | for whatever Get answers: defragmentation succeeds and keeps every pair if and only if no tombstone is shown and the first record shown for each key holds the live value |
| DefragLimits.DefragKeepsIffGood | core/defrag.go:23-42 | in a log without a key of hash 1: if and only if no live key has hash 0, no tombstone shows a live timestamp and the first record of each key that shows it holds the live value |
| FailingRuns.HashZeroIsDropped | core/defrag.go:23-42 | counterexample: one Set of a key with hash 0; the log is unambiguous, nothing is shown, and the defragmented PMap is empty without a panic |
| DefragLimits.RepeatedTimeLosesUpdate | core/defrag.go:23-42 | counterexample without fresh timestamps, for every hash: set v, delete, set w with the time of v, defragment; w is lost |
| FailingRuns.SmallTimePanics | core/defrag.go:23-42 | counterexample without large timestamps, for an ordinary hash: set, delete, set with the time that the bytes behind the tombstone spell; defragmentation panics |
| ChunkRuns.ClientHealthy | core/core.go:236-289 | client operations with fresh, large timestamps and ordinary hashes keep a chunk unambiguous, refused tombstones included |
| ChunkRuns.DefragHealthy | core/defrag.go:23-42 | so does a defragmentation into another file, which does not panic and keeps every pair |
| ChunkRuns.ReopenHealthy | core/core.go:84-97 | so does a restart at a moment when no key is lost, no key is empty and 4 bytes are left: it does not panic and keeps every pair |
| ChunkRuns.StepHealthy | core/defrag.go:23-42 | every such step keeps a chunk healthy, and is an accepted client step of the dictionary or leaves the pairs |
| ChunkRuns.CollidesIff | core/defrag.go:26-31 | over every run the file a defragmentation creates is the one it copies from if and only if it is the first since a restart and that file has revision 1 |
| ChunkRuns.NoCollisionWithoutRestart | core/defrag.go:26-31 | without a restart it never is |
| ChunkRuns.DefragStepIff | core/defrag.go:23-42 | a defragmentation of a chunk that holds pairs keeps them if and only if it does not create the file it copies from, no tombstone is shown and the first record shown for each key holds the live value |
| FailingRuns.SecondDefragLosesAll | core/core.go:84-97 | counterexample: set, defragment, restart, defragment; every step but the last is admissible and the last loses every pair |
| ChunkRuns.ChunkRunRefines | core/defrag.go:23-42 | over every run of client operations with defragmentations that do not create the file they copy from, and restarts when no key is lost, no key is empty and 4 bytes are left, the pairs are those of the dictionary fed with the client operations alone |
| CoreRuns.HighHalfRoutes | hashing/hashing.go:19-22 | the high half of the hash of a key is its chunk plus a multiple of the number of chunks, and that chunk exists |
| CoreRuns.ShareChunkIff | core/core.go:221-233 | two keys share a chunk if and only if their high halves leave the same remainder, whatever their low halves are |
| CoreRuns.CoreRunRefines | core/core.go:158-289 | over every run of a core, on disk or in memory, whatever chunks are created, deleted, defragmented or restarted at such moments, every key is answered as one plain dictionary does; deleting a chunk drops the keys whose high hash half leaves its number, and in memory a restart forgets everything |
| CoreServing.PresentIff | core/core.go:158-185 | after every such run a chunk is present if and only if it was created and not deleted, nor forgotten by a restart in memory, since |
| CoreServing.CoreServesAll | core/core.go:221-289 | a core with all its chunks holds under every key what a dictionary fed with every request holds, whatever the number of chunks and the hash, as long as the requests write less than a chunk takes |
| GetAnswers.ReservedHashIsMissed | core/pmap/pmap.go:180-204 | counterexample: after one Set of a key whose low hash half is 0 or 1 the pair is there, and every answer Get may give is that it is not |
| GetAnswers.GetIsRightIff | core/pmap/pmap.go:180-204 | every answer Get may give about a key, in every reachable state, is the live value if and only if the low half of its hash is at least 2; and there is a reachable state where every answer is wrong if and only if it is not |
| PMaps.PMap.New | core/pmap/pmap.go:47-54 | a new PMap is the empty state |
| PMaps.PMap.Probe | core/pmap/pmap.go:180-204 | the probe loop ends at the first bucket that matches or is empty, having passed no match |
| PMaps.PMap.Find | core/pmap/pmap.go:209-272 | the probe with the remapped hash finds a key if and only if it is live, in its own bucket, else the bucket it may be put into |
| PMaps.PMap.Get | core/pmap/pmap.go:180-204 | in place, with no change: exactly what the table decides, which is the live value of every key whose low hash half is at least 2 |
| PMaps.PMap.AnswerAllowed | core/pmap/pmap.go:180-204 | what the table decides: the live value for an ordinary hash, a miss for hash 0, and for hash 1 a miss or some past value of that key |
| StaleGets.StaleAnswer | core/pmap/pmap.go:180-204 | such a past value is answered: two keys take the buckets 1 and 2, the pair of a key with hash 1 is set and deleted; Get answers it, and iteration shows its record |
| PMaps.PMap.Set | core/pmap/pmap.go:209-272 | in place on table, file and checksum: new state and error are those of the specification the runs are about |
| PMaps.PMap.CAS | core/pmap/pmap.go:284-350 | the same for CAS, the checksum left behind by a refused swap included |
| PMaps.PMap.Del | core/pmap/pmap.go:355-390 | the same for Del, the refused tombstone included |
| PMaps.PMap.RestorePair | core/pmap/pmap.go:85-138 | one restored pair, in place, is one step of the rebuild; with a full index it is given up |
| PMaps.PMap.OpenStep | core/pmap/pmap.go:63-79 | one turn of the loop reads the next record from the bytes and makes that step; it panics only with a last tombstone and fewer than 4 bytes behind it |
| PMaps.PMap.Walk | core/pmap/pmap.go:63-79 | the loop ends at the end of the walked records, or panics if and only if fewer than 4 bytes are behind them |
| PMaps.PMap.Open | core/pmap/pmap.go:57-82 | from the file alone, empty keys included: panics if and only if the whole log is walked and fewer than 4 bytes are behind it, else ends in the reopened state of the specification, ready for every operation |
| PMaps.PMap.IsPresent | core/pmap/pmap.go:392-401 | is the comparison of the timestamp Get answers with the 8 bytes at the record, for every key |
| PMaps.PMap.Iterate | core/pmap/pmap.go:439-456 | exactly the records that pass the test, in log order, up to the one the callback stops at |
| PMaps.PMap.BackwardsIterate | core/pmap/pmap.go:405-435 | the exact reverse, by following footers in the bytes, and it terminates |
| PMaps.PMap.Checksum | core/pmap/pmap.go:141-143 | in place: the windows move to the given time and the oldest sum is returned |
| Chunks.SetAllVisited | core/defrag.go:23-42 | setting the visited pairs one by one is the defragmentation of the specification |
| PMaps.PMap.HeardAnswers | core/pmap/pmap.go:180-204 | what the table answers for all keys of the log is allowed by the specification, so all that is stated for allowed answers holds of the object |
| Chunks.MetaChunk.SetPresent | core/core.go:158-169 | creates an empty PMap on a file of revision 0 unless there is one; the counter stays |
| Chunks.MetaChunk.SetNoPresent | core/core.go:172-185 | drops the PMap and its file; the counter stays |
| Chunks.MetaChunk.Open | core/core.go:84-97 | opens a file of any size and revision, leaving the counter: panics if and only if the specification says so, else the chunk is present in the reopened state |
| Chunks.MetaChunk.Get | core/core.go:221-233 | refused if and only if the chunk is not present, else an answer PMap.Get may give |
| Chunks.MetaChunk.Set | core/core.go:236-248 | refused if and only if not present, else the step of the specification |
| Chunks.MetaChunk.CAS | core/core.go:273-289 | refused without change if and only if not present or not synced, else the step of the specification |
| Chunks.MetaChunk.Delete | core/core.go:251-268 | the step of the specification, and a defragmentation is asked for if and only if more than a tenth of the used bytes is deleted and more than a tenth of the store is used |
| Chunks.MetaChunk.Refill | core/defrag.go:33-40 | fails exactly when some pair in the sequence is refused, else the new PMap holds the result of setting them all |
| ProbeTable.HashMap.Meets | core/pmap/pmap.go:180-204 | whether a probe meets its hash before an empty bucket |
| Chunks.MetaChunk.CopyAll | core/defrag.go:34-41 | fails exactly when the specification panics, else the new PMap is the defragmented one |
| Chunks.MetaChunk.IterateZeros | core/defrag.go:34-41 | the iteration over a file of zeros ends without a panic only if the log was empty or Get finds no bucket for the empty key |
| Chunks.MetaChunk.Overrun | core/defrag.go:26-42 | the copy of a file that has been truncated: a panic, or a PMap without a pair and without a file |
| Chunks.MetaChunk.Defragment | core/defrag.go:23-42 | whatever the size of the old store and the revision of its file, ends as the specification allows; if the new file is another one, no key has a reserved hash, no record is ambiguous, the store is no larger than the new one and the index is ample, it never panics, keeps every pair, leaves nothing deleted and uses exactly the live bytes |
| Serving.PerformAll | core/pmap/pmap.go:209-390 | the class, run on any sequence of operations, is in the state that the run of the specification ends in |
| Serving.Serve | core/pmap/pmap.go:180-390 | index refines map, end to end: Get after any run answers as the plain dictionary fed with the accepted operations |
| Serving.ServeReserved | core/pmap/pmap.go:180-204 | the object itself: a pair whose key has a reserved hash is set, stored, and not found |
| Serving.ServeAfterRestart | core/pmap/pmap.go:57-204 | after any run, on nothing but the bytes of the file: opening panics exactly when the specification says, and Get answers from the reopened pairs; as before the restart where it keeps the pairs |
| Serving.Report | core/pmap/pmap.go:141-143 | an object fed any Sets reports the sum over the pairs settled before its boundary |
| Checksum.NextSecond | core/pmap/syncchecksum.go:19-35 | the boundary is later than the time and at most a second later |
| Checksum.SyncChecksum.Sum | core/pmap/syncchecksum.go:19-35 | the six fields after an event, in place |
| Checksum.SyncChecksum.Sub | core/pmap/syncchecksum.go:15-17 | the same with the negated weight modulo 2^64 |
| Checksum.SyncChecksum.Read | core/pmap/syncchecksum.go:10-13 | moves the windows to the present and returns the oldest sum |
| Checksum.NewExact | core/pmap/syncchecksum.go:19-35 | for every arrival order the newest sum is the sum of all events |
| Checksum.MediumExact | core/pmap/syncchecksum.go:19-35 | the medium sum is that of the events before its boundary and on it |
| Checksum.OldExact | core/pmap/syncchecksum.go:19-35 | so is the oldest sum, which is the one reported |
| Checksum.OldChecksumExactlyWhen | core/pmap/syncchecksum.go:19-35 | it is the sum of exactly the events before its boundary if and only if those on the boundary sum to 0 modulo 2^64 |
| Checksum.OldChecksumIsStable | core/pmap/syncchecksum.go:19-35 | it is, when no event that weighs anything arrives on the boundary then in force |
| Windows.BoundariesMove | core/pmap/syncchecksum.go:19-26 | an event after the newest boundary moves every boundary by one, the newest to the next whole second; no other event moves any |
| Windows.OldestIsThirdLast | core/pmap/syncchecksum.go:19-26 | after every run with three such events the boundaries are the whole seconds after the last three: the oldest is within a second of the last but two |
| Windows.BoundaryIsNear | core/pmap/syncchecksum.go:19-26 | the newest boundary is within a second of the latest event |
| Checksum.NoWholeSecondIsOff | core/pmap/syncchecksum.go:19-35 | which is so, in any order of arrival, when none has a time on a whole second |
| Checksum.ReplicasAgreeOffBoundary | core/pmap/syncchecksum.go:10-35 | two replicas that saw the same events, each off its own boundaries, and stand at the same boundary report the same checksum |
| Checksum.ReplicasAgree | core/pmap/syncchecksum.go:10-35 | so do any two orders of events none of which is on a whole second |
| Checksum.BoundaryEventDisagrees | core/pmap/syncchecksum.go:19-35 | counterexample: one event on a whole second, two orders, two checksums |
| Convergence.SetsHoldLatest | core/pmap/pmap.go:209-272 | any sequence of Sets leaves for each key a write of maximal time, and only written keys |
| Convergence.Converges | core/pmap/pmap.go:248-267 | two PMaps that accepted the same set of writes with distinct times, reordered and repeated at will, hold the same pairs: the latest write of each key |
| Convergence.EqualTimesDiverge | core/pmap/pmap.go:248-267 | counterexample: two accepted writes with equal times leave two PMaps with different pairs in the two orders |
| ReportedSums.SumsAreEvents | core/pmap/pmap.go:209-390 | after every run of Set, CAS and Del the checksum windows are those after a list of events read off the run; a discarded Set logs none |
| ReportedSums.ReportIsSettled | core/pmap/pmap.go:141-143 | the checksum a PMap reports after any Sets is the sum over, for each key, the last write from before the boundary that took effect |
| ReportedSums.SettledInTime | core/pmap/pmap.go:248-267 | if every write from before the boundary arrived before any write of its key from the boundary on, these are the latest writes from before it |
| ReportedSums.ReportsAgree | core/pmap/pmap.go:141-143 | two PMaps that accepted the same writes with distinct times in any order then report the same checksum at the same boundary |
| ReportedSums.ReportsAgreeIff | core/pmap/pmap.go:141-143 | without that proviso, if and only if the settled pairs of the two add up to the same modulo 2^64 |
| QuietReports.QuietReport | core/pmap/syncchecksum.go:10-13 | after any run, once its times are more than a second old, the second of two reports more than a second apart is the sum over all pairs if and only if what refused swaps subtracted is 0 modulo 2^64 |
| QuietReports.QuietReplicasAgree | core/pmap/syncchecksum.go:10-13 | replicas that accepted the same writes with distinct times, however late, then report the same whenever they are asked |
| QuietReports.ReportTwice | core/pmap/pmap.go:141-143 | the same on the object |
| FailingRuns.LateWriteDisagrees | core/pmap/pmap.go:248-267 | counterexample: the same three writes, one of them late on one side; same pairs, same boundary, different reports |
| CasChain.WinsFormChain | core/pmap/pmap.go:284-350 | while only swaps touch an existing key, each successful one named exactly the version the previous one wrote, and the stored value is the last version |
| CasChain.NoLostUpdate | core/pmap/pmap.go:326-336 | with fresh times no two successful swaps replaced the same version |
| CasChain.SwapsOfPMap | core/pmap/pmap.go:284-350 | the chain holds in every run of a PMap, from any point where the key exists and as long as only swaps touch it |
| CasChain.AbsentSwapIff | core/pmap/pmap.go:304-318 | in every reachable state a swap on an absent key that is not refused for space is accepted if and only if it names the time 0 or the hash of the empty value; then it creates the pair, else nothing changes |
| ClientSwaps.TimeRoundTrip | client/client.go:150-160 | a time written into a value by the client is read back from it, for every 64-bit nanosecond count |
| ClientSwaps.SwapIff | client/client.go:150-160 | on every state of a PMap the swap of a client is accepted if and only if the stored pair has the time it saw and a value of the same hash; then the new time and value are stored |
| ClientSwaps.ReadThenSwap | client/client.go:150-160 | what a client read it can swap, and a second swap of that version is accepted if and only if the first wrote the same time and a value of the same hash |
| ClientSwaps.SwapAbsentIff | client/client.go:150-160 | of an absent key: if and only if the client claims time 0 or has seen a value that hashes like nothing |
| Client.SelectMaster | client/client.go:160-193 | the first of the known servers whose address, hashed behind the key, gives the highest hash; none if and only if slot 0 is empty and all these hashes are 0 |
| Client.MasterIsUnique | client/client.go:160-193 | clients that know the same servers in any order have the same master when these hashes are distinct |
| Client.AgreeOnMaster | client/client.go:160-193 | both run the selection loop and select the same server, one of highest hash, and none only if there is no server, when the hashes are also nonzero |
| Client.Get | client/client.go:47-95 | the first value of maximal time among the answers, handed out without its timestamp, and a repair write of it to exactly the holders that did not answer with that time |
| Client.HolderMonotone | core/pmap/pmap.go:248-267 | under any sequence of Sets what a holder stores for a key never gets older |
| Client.Delivered | core/pmap/pmap.go:248-267 | once a write has reached a holder it stores that write or a later one for ever |
| Client.RepairReachesAll | client/client.go:86-93 | for a key with an ordinary hash: after the repairs of a read arrived, every holder stores a value at least as new as the one returned |
| Client.ReadsNeverGoBack | client/client.go:47-95 | for a key with an ordinary hash: any later read of the same holders returns a value at least as new, across any interleaving of Sets |
| Client.SlaveSets | client/client.go:194-203 | after a won swap every other known holder is sent the new value, and the master is not |
| Client.SwapSpreadsIff | client/client.go:194-203 | such a holder ends with it if and only if it has nothing, has it already, or stores an earlier time |
| Client.EarlierSwapUndone | client/client.go:150-205 | counterexample: a swap with an earlier time than the version it replaces wins, the other holder keeps the old version, the next read answers that, and its repair undoes the swap |
| Messages.Marshal | com/protocol/tcpMessage.go:61-76 | too long if and only if the frame exceeds what is left of the buffer, which is then untouched; else exactly the frame is written |
| Messages.RoundTrip | com/protocol/tcpMessage.go:61-89 | decoding the frame of any message below 2^32 bytes gives the message back |
| Messages.FirstFrame | com/protocol/tcpMessage.go:61-89 | a stream that holds a whole first frame starts with it and goes on with the stream of the rest |
| Messages.UniqueDecoding | com/protocol/tcpMessage.go:61-89 | if the frames of a are a prefix of the frames of b then the messages of a are a prefix of those of b |
| BuffConn.TcpWrite | com/buffconn/buffconn.go:131-141 | everything is on the wire, or a prefix of it and the connection is closed |
| BuffConn.Sender.Flush | com/buffconn/buffconn.go:59-63 | after a flush an open wire carries exactly the frames of the messages written, in order |
| BuffConn.Sender.Write | com/buffconn/buffconn.go:143-187 | wire plus buffer are the frames of the messages written, in order, through full buffers, big messages and mode switches; in no-delay mode nothing stays in the buffer |
| BuffConn.Receiver.Receive | com/buffconn/buffconn.go:76-84 | one socket read of any size neither loses nor reorders a byte |
| BuffConn.Receiver.Compact | com/buffconn/buffconn.go:120-125 | moving the unread bytes to the front keeps what is pending |
| BuffConn.Receiver.TakeSmall | com/buffconn/buffconn.go:109-127 | returns the next message sent from the buffer |
| BuffConn.Receiver.TakeBig | com/buffconn/buffconn.go:87-107 | returns the next message sent through a buffer of its own |
| BuffConn.Receiver.Read | com/buffconn/buffconn.go:73-129 | returns the next message sent or an error; given enough input it succeeds if and only if a header fits behind readStart |
| BuffConn.StuckIff | com/buffconn/buffconn.go:73-129 | a frame leads into the stuck state if and only if it starts at or before 1400 and ends in 2036..2048 |
| BuffConn.SmallFramesNeverStick | com/buffconn/buffconn.go:73-129 | any sequence of frames of at most 635 bytes never gets there |
| BuffConn.TwoFramesStick | com/buffconn/buffconn.go:73-129 | frames of 1400 and 640 bytes do |
| BuffConn.Readable | com/buffconn/buffconn.go:73-129 | how many messages can be read: no shorter prefix leaves the reader stuck, and this one does unless it is all |
| BuffConn.SmallFramesReadable | com/buffconn/buffconn.go:73-129 | messages in frames of at most 635 bytes can all be read |
| BuffConn.ThirdIsNeverRead | com/buffconn/buffconn.go:73-129 | of any messages that begin with frames of 1400 and 640 bytes exactly two can |
| BuffConn.SendAll | com/buffconn/buffconn.go:143-187 | any sequence of writes with the ticker flushing anywhere; on an open wire all frames have been sent in order |
| BuffConn.ReceiveAll | com/buffconn/buffconn.go:73-129 | with everything to arrive in nonempty reads, exactly the readable messages are returned |
| BuffConn.Exchange | com/buffconn/buffconn.go:73-187 | end to end: for every message sequence, flush schedule, cut of the wire and split into reads, the messages read are a prefix of those written; if the wire stays open, all arrives and no read is empty, they are exactly the readable ones, and all of them if and only if no proper prefix leaves the reader stuck |
| BuffConn.LostThird | com/buffconn/buffconn.go:73-187 | counterexample as an exchange: of three messages the first two are returned and the third never is |
| TimeoutQueue.InsertedSorted | com/comclient.go:78-104 | insertion keeps the deadlines sorted |
| TimeoutQueue.InsertedContents | com/comclient.go:78-104 | it adds the new entry and nothing else |
| TimeoutQueue.InsertedFifo | com/comclient.go:78-104 | of equal deadlines the older entry stays nearer the head |
| TimeoutQueue.KeptExact | com/comclient.go:108-132 | in a sorted queue the kept prefix is exactly the entries whose deadline has not passed |
| TimeoutQueue.Queue.Search | com/comclient.go:85-88 | ends at the first node from the tail that is not later, or at the head |
| TimeoutQueue.Queue.Push | com/comclient.go:78-104 | on the linked list: if the deadline is not before the earliest queued one, the list is well linked and is the sorted insertion; otherwise, always, the old and the new head point at each other and going back from the head skips the old one |
| TimeoutQueue.Queue.CleanSevered | com/comclient.go:108-132 | on such a list a clean that finds every deadline passed dereferences nil |
| TimeoutQueue.Queue.PushEarliestPanics | com/comclient.go:108-132 | counterexample: any push before the earliest deadline of a queue, then a tick after the last deadline, panics |
| TimeoutQueue.Queue.PopHead | com/comclient.go:108-132 | unlinks the node with the earliest deadline and leaves a well-linked list |
| TimeoutQueue.Queue.Clean | com/comclient.go:108-132 | takes out exactly the expired entries, earliest deadline first |
| TimeoutQueue.Queue.Drain | com/comclient.go:133-145 | hands out every entry, earliest deadline first, and leaves an empty queue |
| BrokerSpec.FinishExact | com/comclient.go:162-169 | of the listed requests exactly those still waiting get the result, once |
| BrokerSpec.NextKeepsInv | com/comclient.go:147-265 | send, reply, tick and close each keep: waiting or answered exactly once, and an entry in the sorted queue for whoever waits |
| BrokerSpec.ExactlyOneAnswer | com/comclient.go:147-265 | so it holds after every interleaving |
| BrokerSpec.ClosedAnswersAll | com/comclient.go:190-203 | after the close nobody waits and every request has exactly one result |
| BrokerSpec.TickIsExact | com/comclient.go:160-173 | a tick ends the wait of a request if and only if its deadline has passed |
| BrokerSpec.LateReplyIgnored | com/comclient.go:244-250 | a reply to a request that has its result changes nothing |
| RequestFates.IdsCount | com/comclient.go:204-223 | over every interleaving the id of a message is the number of messages sent before it |
| RequestFates.RequestFate | com/comclient.go:147-265 | every request is counted; it gets the outcome of the first step that ends its wait and no other, and is waiting if and only if there is none |
| RequestFates.FateInWords | com/comclient.go:233-264 | it gets a value, a success or a failure if and only if a reply of that type with its id comes before any tick past its deadline, other reply and close; it times out if and only if such a tick comes first, and is dropped if and only if the close does |
| RequestFates.Drive | com/comclient.go:147-265 | the object, driven through any interleaving, is in the state those outcomes are about |
| Brokers.Broker.constructor | com/comclient.go:147-152 | the initial state |
| Brokers.Broker.Send | com/comclient.go:204-223 | in place on linked queue, wait set and id counter: the send step |
| Brokers.Broker.SendOnly | com/comclient.go:204-223 | the step of a message nobody waits for |
| Brokers.Broker.Reply | com/comclient.go:233-264 | whoever waits for the id gets its result, with the value of a response, and stops waiting; a reply nobody waits for hands out nothing |
| Brokers.Broker.Tick | com/comclient.go:160-173 | the tick step, through Clean |
| Brokers.Broker.Close | com/comclient.go:190-203 | the close step, through Drain |
| Heartbeat.FittingRoom | com/protocol/udpHeartbeat.go:34-54 | the addresses written stay within their room and leave the slack their test demands |
| Heartbeat.Rooms | com/protocol/udpHeartbeat.go:23-58 | with at most 116 chunks both address lists and both terminators fit into 1400 bytes |
| Heartbeat.ChunksRoundTrip | com/protocol/udpHeartbeat.go:61-75 | any chunk list, written and read, comes back with ids cut to 32 bits |
| Heartbeat.AddrsRoundTrip | com/protocol/udpHeartbeat.go:77-88 | any address list in front of a terminator comes back up to its first empty address |
| Heartbeat.RoundTrip | com/protocol/udpHeartbeat.go:23-104 | decoding an encoded heartbeat gives every chunk, exactly the prefix of the added servers that fitted, up to an empty address, and no dead server |
| Heartbeat.DeadIsNeverDecoded | com/protocol/udpHeartbeat.go:77-103 | no datagram whatever decodes to a dead server |
| HeartbeatLists.FittingExact | com/protocol/udpHeartbeat.go:34-54 | an address is written if and only if each one up to it leaves more than the slack of its list |
| HeartbeatLists.ArrivesWholeIff | com/protocol/udpHeartbeat.go:23-104 | chunks arrive as they were if and only if their ids have 32 bits, added servers if and only if none is empty and the list takes fewer than 1336 bytes less 12 for each chunk |
| HeartbeatLists.DeadAreSent | com/protocol/udpHeartbeat.go:44-56 | dead servers that fit are in the datagram, right behind the terminator the decoder does not step over |
| Heartbeat.Marshal | com/protocol/udpHeartbeat.go:23-58 | the loops that advance a cursor through a buffer produce exactly the specified 1400 bytes |
| Heartbeat.MarshalAddrs | com/protocol/udpHeartbeat.go:34-54 | one list loop: writes the fitting prefix and nothing else |
| Heartbeat.ReadChunks | com/protocol/udpHeartbeat.go:65-75 | the chunk loop computes the specified decoding, out-of-range slices included |
| Heartbeat.ReadAddrs | com/protocol/udpHeartbeat.go:77-101 | the address loop does, with the 16-bit sum of length and header wrapping |
| Heartbeat.UnMarshal | com/protocol/udpHeartbeat.go:61-104 | the whole decoder does |

## Left out

- mmap, file creation and deletion and paths beyond the revision of a chunk's file: a file is a byte array, zero where nothing was written; chunks are closed and opened again cleanly.
- Chunks.MetaChunk.Overrun: when the truncated copy panics is not settled exactly; a chunk file larger than chunkSize, whose truncation cuts the mapping, is not distinguished.
- Sockets, dialing, listeners, goroutines and real clocks: reads and writes of any size, steps in any order, and times as parameters. Whatever holds a lock is one atomic step.
- The wake-up of the broker's ticker, the Wait methods and the channel pool: scheduling; only safety and the close are proved.
- FNV-1a: any function serves as the hash, so collisions are covered.
- The array of chunks inside Core as heap objects: `Chunks.MetaChunk` is a class for one chunk, `CoreRuns` works on a sequence of chunk values, so locks and aliasing between chunks are not modelled.
- The knownChunks counter, chunk protection and the length and presence queries of Core: easy counters.
- Core.Iterate and Core.BackwardsIterate, which release the chunk lock around each callback: iteration is proved on a PMap nobody changes meanwhile.
- The client's set, AsyncSet and Del loops and the error handling around a swap, which only collect errors, and the server's dispatch.
- Everything under dist (server group, rebalance, repair), the command line and the display.
- Round trip of the recently dead servers: false for every datagram, as proved.
- LogStore.Store.constructor: store sizes from 2^32 on, whose offsets do not fit a bucket, are excluded.
- ProbeTable.HashMap.constructor: limits above 2^28 buckets, and an initial size above the limit, neither of which the constants of the source allow, are excluded.
- PMaps.PMap.Open: an index that is not ample (store sizes above 939524080 bytes with the default limit), where pairs are given up, is excluded; RestorePair models that step. What is left in the file behind an empty key stays there; a second opening of such a file is not modelled.
- PMaps.PMap.Iterate: a last tombstone whose key has the low hash half 1, unless 4 zero bytes are behind it, is excluded: if Get answers for it, the test reads what is there, or past the end, which is a panic; so for IsPresent, BackwardsIterate and Defragment. Every other store is covered, since Get misses a deleted key and the test stops there.
- PMaps.PMap.Del: a timestamp shorter than 8 bytes for a live key is excluded; the code panics on it. Lemmas about runs hold of all operations of the model, and speak about the code where it does not panic in this way.
- ChunkRuns.ChunkRunRefines: assumes fresh timestamps of at least 2^60, ordinary hashes and a store of at most 2^28 bytes; what happens without them is in IterationIff, IterationIffGood, DefragKeepsIff, DefragKeepsIffGood and GetIsRightIff.
- TimeoutQueue.Queue.Push: operations on the list a bad push leaves, other than a clean that finds every deadline passed, are not modelled; a further push before all deadlines walks the cycle for ever.
- BrokerSpec.ExactlyOneAnswer: assumes each deadline is not before the earliest queued one and fewer than 2^32 sends; Push shows what the first assumption is for.
- RequestFates.RequestFate: the same two assumptions; the texts of the errors a request gets are left out.
- BuffConn.Receiver.Read: after an error nothing is promised about further reads; the code closes the connection.
- BuffConn.Sender.Write: whether a message fits is decided by its frame length, the test Marshal makes, instead of by Marshal's return value.
- Heartbeat.Marshal: more than 116 chunks are excluded; the code writes past its buffer and panics.
