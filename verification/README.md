# memstash, modelled and proved

memstash is a two-level cache for Go. Its first level is a sharded open-addressing table with tombstones, per-group
overflow counters, lock-free reads and pluggable eviction; around it run a singleflight registry, a pipeline that
coalesces second-level reads, a write-back queue, and snapshots. This project models those parts and proves what they
promise, for all inputs, all runs and all interleavings.

| area | files |
|---|---|
| one shard: table, counters, weight, eviction, rebuild, whole runs | `SlotTable`, `FlatHashMap`, `PolicyContract`, `ShardLedger`, `NodeCosts`, `Shard`, `RebuildRemap`, `ShardRun` |
| a lock-free probe among writers and rebuilds | `LockFreeProbe` |
| the item: packed meta word, word-by-word copies under a generation, the wrapping expiry scale | `MetaWord`, `ItemSeqlock`, `SeqlockHistory`, `MetaRefinement`, `ExpiryScale` |
| batch lookups through the three-stage pipeline | `BatchAnswers`, `BatchLookup` |
| singleflight: wake-ups, registry, batch ownership, waits | `FlightWakeup`, `FlightRegistry`, `BatchFlights`, `BatchWaits` |
| coalesced reads: answer slots, waiter chains | `AnswerSlots`, `GetBatch` |
| write-back | `WriteBack` |
| eviction queues and policies | `EvictQueue`, `QueuePasses`, `ClockPolicy`, `TwoQueues`, `EvictCourse`, `S3FifoPolicy`, `GhostTable`, `WTinyLfuPolicy`, `FreqSketch`, `SieveList`, `SievePolicy` |
| snapshots | `SnapshotFormat`, `Snapshot` |

Code that updates state in place is a class whose methods are proved against functions and predicates on values; code
that several goroutines run at once is a set of atomic steps, and its theorems are about every schedule of those steps.
The shard is proved against the contract of an eviction policy alone (`PolicyContract`), and the built-in policies are
proved to meet that contract over their real data structures.

Six promises do not hold as the repository words them. The models follow the code and say exactly when they hold:

- An expiry offset that lands on the reserved value 0 is said to move one unit earlier (cache.go:948-949); the code moves
  it one unit later. For the longest lifetime the item is then expired the moment it is stored
  (`ExpiryScale.LivesItsUnits` holds if and only if this is not so, `ExpiryScale.BornExpiredHappens` is such a moment).
- An item is said to live at least its TTL (cache.go:938-940). It does, whenever it is stored, if and only if the TTL takes
  fewer clock units than the cap (`ExpiryScale.AlwaysLivesItsTtl`); with one-second units 131071 seconds are too many
  (`ExpiryScale.ShortfallHappens`).
- An item is said to live at most one clock unit more than its TTL (cache.go:940). It does if and only if the units it got,
  one more where the stamp is moved off 0, are no longer than the TTL and the part of the unit already gone when it was
  stored (`ExpiryScale.GoneSoonAfterTtl`; three units are never reached); a TTL of 131073 seconds is a case in which it does
  not (`ExpiryScale.MoreThanOneUnitHappens`).
- A restored item is said never to expire earlier than saved (cache.go:866-867). It does not if and only if it is not born
  expired and the loading cache's cap leaves it the units it needs (`ExpiryScale.NotEarlyExactly`,
  `ExpiryScale.CappedIsEarly`); without the cap it is less than three units late (`ExpiryScale.RestoredUncapped`).
- The batch read is meant to answer as reading the keys in turn does. A larger one does if and only if the refreshed
  deadline is in the future or no group reads a straight hit twice (`BatchLookups.BatchedIsSerialExactly`,
  `BatchLookups.BatchGetMemory`); `BatchLookups.RepeatedKeyDiffers` is a batch for which it does not.
- A snapshot is said to load back. Saving does not enforce the chunk limit that loading does: the stream loads completely
  if and only if every key and value fits (`SnapshotFormat.RoundTrip`, `SnapshotFormat.OversizedIsSavedButNotLoaded`).

## Model

| member | source | states |
|---|---|---|
| `SlotTable.StretchIsShort` | internal/itemstore/map.go:23-32 | with at most 3/4 of at least 64 slots used, a run of occupied slots leaves two whole groups free, so every probe ends |
| `SlotTable.NoWrapIntoOwnGroup` | internal/itemstore/map.go:72-93 | an item placed outside its home group cannot have wrapped all the way round into it |
| `SlotTable.EmptyEndsProbe` | cache.go:379-382 | nothing keyed lies beyond a never-occupied slot on its own probe path |
| `SlotTable.ZeroCounterEndsProbe` | cache.go:374-376 | a zero overflow counter means that no live item homed in the group lies past the group's edge |
| `SlotTable.PublishKeepsTable` | cache.go:486-512 | a new occupancy in an empty, free or same-key slot keeps uniqueness, reachability, the counters and the load, and adds exactly its key to the map |
| `SlotTable.OverwriteKeepsTable` | cache.go:522-535 | an overwrite in place changes exactly its key's entry |
| `SlotTable.KillKeepsTable` | cache.go:655-668 | a kill gives its counter entry back, which was there to give, and removes exactly its key |
| `SlotTable.FreeKeepsTable` | internal/itemstore/item.go:116-119 | freeing a dead slot changes nothing a probe sees |
| `SlotTable.NotedCounts` | internal/itemstore/map.go:77-81 | after the note every counter is again the number of live items displaced from its group |
| `SlotTable.ForgottenCounts` | internal/itemstore/map.go:84-88 | the same after forgetting, and the counter was not zero |
| `SlotTable.HomeAndTagApart` | internal/itemstore/map.go:65-67 | position and tag come from different hash bits: every pair of them occurs |
| `FlatHashMaps.FlatHashMap.NoteDisplaced` | internal/itemstore/map.go:77-81 | the counter array becomes `Noted` of the old one |
| `FlatHashMaps.FlatHashMap.ForgetDisplaced` | internal/itemstore/map.go:84-88 | the counter array becomes `Forgotten` of the old one |
| `FlatHashMaps.FlatHashMap.FindSlot` | cache.go:672-693 | finds the key if and only if the table holds it, at its live slot, stopping early at a zero counter |
| `FlatHashMaps.FlatHashMap.Locate` | cache.go:483-525 | the write probe: the key's own slot, dead or alive, or the first reusable slot its probe reaches when no slot has the key |
| `FlatHashMaps.FlatHashMap.InsertFresh` | internal/itemstore/map.go:95-106 | copies an item into an empty slot of a fresh table and keeps the table invariant |
| `FlatHashMaps.NoMatchBeforeEmpty` | cache.go:364-408 | a walk to a never-occupied slot without a match proves the key absent |
| `FlatHashMaps.NoMatchInGroup` | cache.go:374-376 | a walk to the group edge without a match proves the key absent when the counter is zero |
| `LockFreeProbes.CounterIsUp` | cache.go:492-493 | whatever counter update a writer still owes, the counter of a displaced live key's home group is up |
| `LockFreeProbes.BeforeTheEdge` | cache.go:370-376 | a key that sits in its home group sits before the position at which the counter is tested |
| `LockFreeProbes.ProbedOnTrack` | cache.go:373-394 | one load of a counter, a meta word or an entry never makes the reader give up on a key that stays, nor pass its slot |
| `LockFreeProbes.WrittenKeepsTable` | cache.go:486-512 | publishing, noting, killing, forgetting, freeing and overwriting, each its own step, leave the key in its slot and the table sound up to the owed update |
| `LockFreeProbes.StepKeepsInv` | cache.go:364-408 | so does every step of writers and reader, a rebuild that swaps the table under the reader included |
| `LockFreeProbes.ProbeFinds` | cache.go:364-408 | over every interleaving a probe for a key that stays in the cache never misses it, and has found it, in its slot, after three loads per slot of distance and one more per refused snapshot |
| `LockFreeProbes.ProbeReads` | cache.go:364-408 | the value it returns is one the key was given, by the schedule alone, while the probe was under way, rebuilds included |
| `LockFreeProbes.RunMeans` | cache.go:486-535 | under every schedule the table holds, deadlines included, what its publishes, overwrites and kills say in their order; readers, counter updates, frees and rebuilds change nothing |
| `LockFreeProbes.StartedProbe` | cache.go:364-374 | a probe may start at any moment, between a writer's own steps too |
| `LockFreeProbes.FindsAlone` | cache.go:373-394 | from any reachable state the reader's own loads alone lead it to the key |
| `ShardLedger.WeightAfter` | cache.go:655-668 | changing one slot changes the summed cost by exactly the difference |
| `ShardLedger.WeightIsTotal` | cache.go:655-668 | the weight of the slots is the summed cost of the map they stand for |
| `ShardState.NodeIsKeyed` | cache.go:576-602 | every queue node references a live or dead-but-not-free slot |
| `ShardState.KilledIsBalanced` | cache.go:655-668 | a kill keeps nodes and slots in bijection, the counters, the weight and the ledger of stored and reported items |
| `ShardState.ReclaimedIsBalanced` | cache.go:576-602 | reclaiming a policy's victim keeps the same, whether the item still lived or not |
| `ShardState.PublishedKeepsCore` | cache.go:486-512 | a new occupancy keeps the same; resurrecting a tombstone takes no second node |
| `ShardState.OverwrittenKeepsCore` | cache.go:522-535 | an overwrite keeps the same and reports the old value once |
| `ShardState.SlotChange` | cache.go:655-719 | one slot change with what came and what went in the ledger: every count, sum and set afterwards |
| `NodeCosts.PricedAdded` | cache.go:495 | a new item's queue node carries that item's cost |
| `NodeCosts.PricedKept` | cache.go:576-602 | kills, evictions and sweeps leave every other node's cost one of a value stored under its slot's key |
| `NodeCosts.PricedReused` | cache.go:497-512 | so do an overwrite and a resurrection, which keep the node |
| `NodeCosts.PricedFollows` | cache.go:551-571 | and a rebuild |
| `ShardState.LedgerMoves` | cache.go:655-668 | what was ever stored stays exactly what lives plus what was reported |
| `ShardEffects.NoNodesNoWeight` | cache.go:576-602 | an empty policy means an empty, weightless shard, so eviction can always get under the capacity |
| `ShardEffects.OneMoreEvicted` | cache.go:576-602 | each eviction removes one key and reports it as expired or evicted by its own deadline |
| `ShardEffects.EvictedWeight` | cache.go:579 | at every moment of an eviction the weight is the summed cost of what is left |
| `ShardRebuild.LiveMoves` | cache.go:551-571 | moving one live item keeps the old and new tables together holding the same items |
| `ShardRebuild.MovingEnds` | cache.go:551-571 | once every node was visited the new table holds exactly the live items |
| `ShardRebuild.CarriesAll` | cache.go:558-568 | once every node was visited, every live item is in exactly the slot the remap gives for it, unchanged |
| `RebuildRemap.CarriedInjects` | cache.go:558-568 | such a remap sends no two nodes to one slot and none out of the table, which is what a policy needs to go on |
| `ShardRebuild.RebuildSizes` | cache.go:551-571 | the size chosen for the rebuild leaves room for every live item below the load limit |
| `Shards.Shard.constructor` | cache.go:123-230 | a new shard is valid and empty |
| `Shards.Shard.Sweep` | cache.go:703-710 | releases every tombstone, keeps the map, and moves no live item |
| `Shards.Shard.NoteDead` | cache.go:703-710 | sweeps exactly when tombstones are at least 128 and half the nodes, leaving none; otherwise only counts; keeps the balance and the map |
| `Shards.Shard.KillAt` | cache.go:655-668 | removes exactly the slot's key, returns its cost, reports it once |
| `Shards.Shard.Reclaim` | cache.go:585-601 | the shard's whole new state after a victim is taken |
| `Shards.Shard.EvictShard` | cache.go:576-602 | ends with the weight within capacity, having removed and reported exactly the departures, each of them while what was left still exceeded the capacity |
| `Shards.Shard.MoveItems` | cache.go:558-570 | visits every node once; the new table holds exactly the live items, each unchanged in the slot the remap gives for its old one |
| `Shards.Shard.MaybeRebuild` | cache.go:551-571 | rebuilds exactly at 3/4 occupancy, doubling exactly when half the slots live; keeps the map and leaves the load below 3/4; every node of a live item follows that very item with its cost and every other node is gone |
| `Shards.Shard.DeleteKey` | cache.go:714-719 | removes the key if present and reports it once, otherwise changes nothing |
| `Shards.Shard.Get` | cache.go:364-408 | answers exactly what the map holds and has not expired; an expired item is dropped and reported, a hit at most pushes its deadline |
| `Shards.Shard.Publish` | cache.go:486-512 | the shard's whole new state after a new occupancy: a queue node of the item's own cost, or the tombstone's node kept |
| `Shards.Shard.Place` | cache.go:477-536 | after the probe the map is the old one with the key written, and the returned weight change is exact |
| `Shards.Shard.Set` | cache.go:462-544 | an item over capacity is refused, the old value gone; any other is stored, minus the reported departures, each of which was needed to fit; weight at most the capacity and load below 3/4 afterwards |
| `ShardRuns.Apply` | cache.go:364-544 | any one operation is a legal event of the plain map: its answer, its reports and the new map are those the event allows, and it evicts no more than the overflow demands |
| `ShardRuns.Run` | cache.go:364-719 | any sequence of operations on a new shard is a legal run of the plain map; it reports exactly what the run reports, and the writes it took are exactly what still lives plus what was reported |
| `ShardRuns.HeldExactly` | cache.go:364-719 | in every legal run a key is held if and only if its last write was not reported expired or evicted since, and then with that value |
| `ShardRuns.ReadAnswers` | cache.go:364-408 | a read answers the value last written; it answers nothing only if there is none or that value was reported lost, at the latest by this read |
| `ShardRuns.DeadlineExactly` | cache.go:526-533 | a held key's deadline is the last it got from a write or a refresh, a write without one keeping that of the value it replaces |
| `ShardRuns.ReadExactly` | cache.go:364-408 | from the history alone: a read answers the value last written if and only if it is held and its deadline has not passed |
| `ShardRuns.LossExactly` | cache.go:590-597 | a loss is reported as an expiration if and only if the key's deadline had passed at that operation's clock |
| `ShardRuns.NeverExpires` | internal/itemstore/item.go:215-222 | a key never given a deadline is never reported expired and every read while it is held answers it, at any clock |
| `ShardRuns.RunFits` | cache.go:576-602 | every run keeps the summed cost within the capacity |
| `ShardRuns.EvictsNoMore` | cache.go:579 | a write evicts if and only if everything would not fit, and all but the last of what it evicts would not have been enough |
| `ShardRuns.UnitCostEvictsOne` | cache.go:928-936 | with unit costs a write of a new key into a full shard evicts exactly one item, any other write none |
| `MetaWord.LiveGen` | internal/itemstore/item.go:105-111 | the generation fits its field and is never 0 |
| `MetaWord.Publish` | internal/itemstore/item.go:98-101 | sets deadline, tag and the next even generation, clears everything else |
| `MetaWord.PublishedIsLive` | internal/itemstore/item.go:98-111 | a published word is never 0 and never looks like a write in progress |
| `MetaWord.BeginWrite` | internal/itemstore/item.go:139-148 | makes the generation odd, touches no other field |
| `MetaWord.EndWrite` | internal/itemstore/item.go:152-155 | makes the generation even and non-zero, touches no other field |
| `MetaWord.RefreshExpire` | internal/itemstore/item.go:196-199 | changes the deadline field alone |
| `MetaWord.SetSecond` | internal/itemstore/item.go:165-172 | sets the first chance bit alone |
| `MetaWord.SetThird` | internal/itemstore/item.go:165-172 | sets the second chance bit alone |
| `MetaWord.ClearThird` | internal/itemstore/item.go:175-181 | clears the second chance bit alone |
| `MetaWord.ClearSecond` | internal/itemstore/item.go:175-181 | clears the first chance bit alone |
| `MetaWord.ResetChances` | internal/itemstore/item.go:184-186 | clears the counter alone |
| `MetaWord.TouchWith` | internal/itemstore/item.go:165-172 | sets the next chance bit by an earlier look, nothing once the counter is full |
| `MetaWord.RevokeChance` | internal/itemstore/item.go:175-181 | takes the later chance bit first, by an earlier look |
| `MetaWord.TouchAndRefresh` | internal/itemstore/item.go:202-211 | the touch and the new deadline, no other field |
| `MetaWord.Kill` | internal/itemstore/item.go:190-192 | sets the dead bit alone |
| `MetaWord.MakeFree` | internal/itemstore/item.go:116-119 | sets the free bit alone |
| `MetaWord.Reusable` | internal/itemstore/item.go:121-122 | the mask compare means dead and free |
| `MetaWord.Candidate` | internal/itemstore/item.go:44-48 | the mask compare means alive with the probed tag |
| `MetaWord.SameAliveGen` | internal/itemstore/item.go:84-87 | the mask compare means same dead bit and same generation |
| `ItemSeqlock.GenAdvances` | internal/itemstore/item.go:105-111 | generations follow the commit epochs, skipping 0 |
| `ItemSeqlock.SameGen` | internal/itemstore/item.go:105-111 | two epochs share a generation if and only if they differ by a multiple of 2^27 - 1 |
| `ItemSeqlock.StepKeepsInv` | internal/itemstore/item.go:84-211 | every step of the writer and of any reader keeps the protocol invariant |
| `ItemSeqlock.RunKeepsInv` | internal/itemstore/item.go:84-211 | so does every schedule |
| `ItemSeqlock.AcceptedSnapshotIsWhole` | internal/itemstore/item.go:84-155 | an accepted snapshot is one whole entry committed under the reader's generation, unless a full cycle of generations passed inside its window |
| `ItemSeqlock.OccupiedIsNeverZero` | internal/itemstore/item.go:103-111 | a slot once published never reads as never-occupied, and the commits of one epoch share their key |
| `SeqlockHistory.StepFollows` | internal/itemstore/item.go:84-211 | every step does to the item what the requests up to it ask for |
| `SeqlockHistory.DoesAsAsked` | internal/itemstore/item.go:98-199 | under every interleaving: exactly the entries asked for are committed, each under the epoch of its request; a settled item is the entry, tag and deadline asked for last; a released slot is all zero |
| `SeqlockHistory.AcceptedWasAsked` | internal/itemstore/item.go:84-155 | an accepted copy is an entry a writer asked for under the epoch the reader saw |
| `MetaRefinement.ValInc` | internal/itemstore/item.go:139-148 | adding one to a word adds one to the number in its low bits, modulo their range |
| `MetaRefinement.ValMasked` | internal/itemstore/item.go:49-50 | equal numbers are equal masked bits, and the other way round |
| `MetaRefinement.LiveGenAgrees` | internal/itemstore/item.go:105-111 | fitting a generation into its field means the same on bits and on numbers |
| `MetaRefinement.NextGenAgrees` | internal/itemstore/item.go:98-111 | so does the next even generation |
| `MetaRefinement.AbsDistinct` | internal/itemstore/item.go:202-211 | different words stand for different fields, so comparing words compares fields |
| `MetaRefinement.PublishRefines` | internal/itemstore/item.go:98-101 | the word Publish stores is the model's, computed from the word it loaded |
| `MetaRefinement.OverwriteBeginRefines` | internal/itemstore/item.go:139-148 | so is the word beginWrite swaps in |
| `MetaRefinement.OverwriteStoreRefines` | internal/itemstore/item.go:152-155 | and the word endWrite stores |
| `MetaRefinement.RefreshStoreRefines` | internal/itemstore/item.go:196-199 | and the word RefreshExpire stores |
| `MetaRefinement.FlagsRefine` | internal/itemstore/item.go:116-192 | Kill and MakeFree are the model's steps |
| `MetaRefinement.ChancesRefine` | internal/itemstore/item.go:175-186 | so are RevokeChance and ResetChances |
| `MetaRefinement.TouchRefines` | internal/itemstore/item.go:165-172 | and TouchWith |
| `MetaRefinement.TouchAndRefreshRefines` | internal/itemstore/item.go:202-211 | the compare-and-swap succeeds if and only if the model's step is enabled, and stores its word |
| `MetaRefinement.ValidateRefines` | internal/itemstore/item.go:84-87 | the mask compare and the parity bit accept a snapshot if and only if the model does |
| `MetaRefinement.OccupiedRefines` | internal/itemstore/item.go:103-111 | a word is 0 if and only if its slot was never occupied |
| `MetaRefinement.ValMinus` | internal/itemstore/item.go:220 | the low 18 bits of a wrap-around subtraction are the distance on the expiry scale |
| `MetaRefinement.ExpiredRefines` | internal/itemstore/item.go:215-222 | the test on the packed word is the one on the scale, for every word and every clock value |
| `ExpiryScale.ExpiredExactly` | internal/itemstore/item.go:215-222 | over the whole cycle, exactly when a stamped item reads as expired |
| `ExpiryScale.LivesItsUnits` | cache.go:938-956 | it lives its units if and only if it was not born expired, and is gone two units later for half the scale |
| `ExpiryScale.ForgottenDeadline` | internal/itemstore/item.go:213-222 | a deadline unreclaimed for more than half the scale reads as unexpired again |
| `ExpiryScale.BornExpiredHappens` | cache.go:950-956 | the concrete moment at which the longest lifetime is expired at once |
| `ExpiryScale.ConfiguredTtlCovered` | cache.go:232-238 | the units cover the TTL if and only if the cap does not bite |
| `ExpiryScale.ShortfallHappens` | cache.go:232-238 | the concrete TTL at which it does |
| `ExpiryScale.UnitIsLeast` | cache.go:232-236 | the clock unit is the least number of whole seconds in which the TTL takes at most half the scale |
| `ExpiryScale.LivesExactly` | cache.go:938-956 | an item lives for a given number of ticks if and only if it was not born expired and its deadline lies past them |
| `ExpiryScale.GoneSince` | internal/itemstore/item.go:213-222 | from its deadline on it reads as expired for half the scale |
| `ExpiryScale.AlwaysLivesItsTtl` | cache.go:938-940 | items live their configured TTL whenever they are stored if and only if the TTL takes fewer units than the cap |
| `ExpiryScale.GoneSoonAfterTtl` | cache.go:938-940 | an item is gone less than three units after its TTL, and exactly when at most one |
| `ExpiryScale.MoreThanOneUnitHappens` | cache.go:938-940 | a TTL and a moment with more than one unit |
| `ExpiryScale.NotEarlyExactly` | cache.go:866-878 | a restored item outlives its saved moment if and only if it is not born expired and its capped units reach past it, 32-bit cut included |
| `ExpiryScale.RestoredUncapped` | cache.go:866-878 | with no more left than the loading cache's TTL, it is early if and only if born expired, and gone less than three units late |
| `ExpiryScale.CappedIsEarly` | cache.go:866-878 | 1000 seconds left are gone after 12 under a TTL of ten one-second units |
| `ExpiryScale.RestoredForGood` | cache.go:869-871 | it is kept for good exactly if the loading cache has no TTL or no time is given |
| `BatchAnswers.PipedIsSerial` | batch.go:133-194 | with a refreshed deadline in the future the pipeline answers and leaves what plain reads in turn do |
| `BatchAnswers.SameAnswersExactly` | batch.go:133-194 | a group's answers agree with plain reads in turn if and only if the refreshed deadline is in the future or no straight hit repeats |
| `BatchAnswers.NoRepeatIsSerial` | batch.go:133-194 | a group without a repeated straight hit answers and leaves what plain reads in turn do |
| `BatchAnswers.SerialAnswers` | cache.go:364-408 | plain reads at a fixed clock never change another read's answer |
| `BatchAnswers.SerialConcat` | batch.go:70-88 | reading two groups in turn is reading them joined |
| `BatchLookups.FirstCandidate` | batch.go:144-164 | a definite miss, or the first live slot with the key's tag on its probe path |
| `BatchLookups.NoClashIsStraight` | batch.go:144-164 | a present key that shares its tag with no other live item is its own candidate |
| `BatchLookups.StraightIs` | batch.go:144-164 | a walk stops at the key's own slot if and only if the key is held and no other live item of its tag lies before it on its path |
| `BatchLookups.Candidates` | batch.go:134-164 | every key of the group gets its candidate from the table as the group found it |
| `BatchLookups.Validate` | batch.go:165-193 | one validated candidate answers and leaves what the specification says, including drops and sweeps made earlier in the group |
| `BatchLookups.BatchGetGroup` | batch.go:133-194 | a group answers and leaves exactly what the pipeline's specification says over the map and the straight hits of the table it found |
| `BatchLookups.BatchGetMemory` | batch.go:50-90 | hits and missing keys in the order asked; the exact answers and map of any batch, and these are plain reads in turn if and only if the batch is small, the refreshed deadline is in the future, or no group reads a straight hit twice; exactly the keys that left are reported, once each, as expired |
| `BatchLookups.GetEach` | batch.go:50-66 | a small batch is plain reads in turn |
| `BatchLookups.GetGroups` | batch.go:67-90 | a larger batch is its groups in turn, each over the table as it finds it |
| `BatchLookups.Read` | cache.go:364-408 | one read: its answer, the map after it, and its report if the key left |
| `BatchLookups.BatchedIsSerialExactly` | batch.go:67-194 | over a whole batch the answers are plain reads in turn if and only if the refreshed deadline is in the future or no group reads a straight hit twice |
| `BatchLookups.NoRepeatedKeyInGroups` | batch.go:67-90 | a batch whose groups repeat no key is such a batch, whatever the table |
| `BatchLookups.RepeatedKeyDiffers` | batch.go:178-192 | a table holding one item of the longest lifetime and a batch of five reads of it for which the two differ |
| `FlightWakeup.StepKeepsInv` | singleflight.go:43-147 | every step of the owner and of any joiner keeps the wake-up invariant |
| `FlightWakeup.RunKeepsInv` | singleflight.go:43-147 | so does every schedule |
| `FlightWakeup.NoLostWakeUp` | singleflight.go:43-72 | once released nobody stays parked, the channel closes at most once, a waiter reads the final outcome, and a flight released unjoined never has a waiter |
| `FlightWakeup.OutcomeIsFinal` | singleflight.go:125-147 | no step after the load changes the outcome |
| `FlightWakeup.ReturnsWhatWasResolved` | singleflight.go:43-147 | under every interleaving a waiter returns the outcome the schedule resolved last |
| `FlightWakeup.JoinerReturns` | singleflight.go:43-72 | once the release is through, every joiner returns the outcome by at most four steps of its own |
| `FlightRegistry.TrailingZeros` | singleflight.go:92-109 | the index of the lowest set bit, or 8 |
| `FlightRegistry.Packed` | singleflight.go:115-133 | the 16-bit place of a flight unpacks to its bucket and slot |
| `FlightRegistry.Bucket.FindSlot` | singleflight.go:91-107 | the slot running the key, or none outside the spill map |
| `FlightRegistry.Bucket.Claim` | singleflight.go:87-125 | joins the flight running for the key, or registers the new one; never two flights for one key |
| `FlightRegistry.Bucket.Register` | singleflight.go:108-124 | parks the flight in a free slot, or in the spill map if and only if all eight are taken |
| `FlightRegistry.Bucket.Release` | singleflight.go:130-147 | unregisters exactly this flight, leaves no slot pointing at it and tells whether anybody may wait on it |
| `BatchFlights.Claims.Claim` | singleflight.go:198-220 | owned keys and flights stay index-aligned in a slab that never grows past its capacity |
| `BatchFlights.ClaimAll` | batch.go:94-128 | a whole batch: owned keys distinct and registered at their own index, every miss owned or joined, repeats joined to the batch's own flight |
| `AssignLoaded.OwnedIndex` | singleflight.go:252-258 | the index agrees with the first occurrence |
| `AssignLoaded.IndexOf` | singleflight.go:260-274 | index and scan agree |
| `AssignLoaded.Assign` | singleflight.go:227-249 | every owned flight gets the last value loaded for its key or the error, whatever the loader repeats, invents or omits |
| `BatchWaits.StepKeepsInv` | batch.go:94-128 | every step of any batch, claims and releases of all batches interleaved, keeps the registry, the slabs and the waits in step |
| `BatchWaits.OwnKeepsInv` | singleflight.go:198-220 | a claim that wins registers the flight at the next place of the batch's slab |
| `BatchWaits.JoinKeepsInv` | singleflight.go:198-220 | a claim that loses joins the registered flight, the batch's own for a repeated key |
| `BatchWaits.ReleaseKeepsInv` | singleflight.go:174-178 | each turn of the release loop drops the next flight of the slab and no other |
| `BatchWaits.RunKeepsInv` | batch.go:325-365 | so does every schedule |
| `BatchWaits.WaitingOwnsNothing` | batch.go:356-365 | in every reachable state a batch that waits or is through has released every flight it ever claimed |
| `BatchWaits.NoWaitCycle` | batch.go:325-365 | in every reachable state a blocked batch waits for another one that is not itself waiting, so no cycle of waits exists |
| `BatchWaits.OwnerReleases` | batch.go:325-365 | the owner of a flight releases it by its own steps alone, so a blocked batch never depends on a third |
| `BatchWaits.AllServed` | batch.go:325-350 | a batch that has waited for all it joined finds every miss served by a flight of that very key, which is over |
| `AnswerSlots.StepKeepsInv` | getbatched.go:77-178 | every step of callers, workers, cancellation and stop keeps the slot invariant |
| `AnswerSlots.RunKeepsInv` | getbatched.go:77-178 | so does every schedule |
| `AnswerSlots.OwnAnswerOnly` | getbatched.go:149-178 | a caller returns exactly the payload its own request was settled with; a pooled slot has no reference, signal, value or user left; no slot is lost; no two requests share one |
| `AnswerSlots.RunTells` | getbatched.go:169-178 | whoever holds or took an answer has what the schedule settled its request with |
| `AnswerSlots.NobodyLeftWaiting` | getbatched.go:92-101 | once the worker has signaled, a caller that still waits can receive |
| `GetBatches.KnownKeyLinks` | getbatched.go:307-320 | linking one more waiter keeps every chain equal to its key's waiters |
| `GetBatches.NewKeyLinks` | getbatched.go:307-320 | so does the first waiter of a new key |
| `GetBatches.OneKeyServed` | getbatched.go:282-291 | serving one key settles its waiters and nobody else, once |
| `GetBatches.AllServed` | getbatched.go:294-304 | when every key is served every slot is settled exactly once |
| `GetBatches.GetBatch.Lookup` | getbatched.go:323-334 | the lazily built index and the linear scan agree |
| `GetBatches.GetBatch.IndexKey` | getbatched.go:337-349 | the index, once built, holds every key at its position |
| `GetBatches.GetBatch.Add` | getbatched.go:307-320 | files a request and keeps the chains a partition of the slots by key |
| `GetBatches.GetBatch.SettleKey` | getbatched.go:282-291 | settles exactly the waiters of one key and marks it served |
| `GetBatches.GetBatch.SettleRest` | getbatched.go:294-304 | settles the unserved keys; a second call touches nothing |
| `GetBatches.GetBatch.Resolve` | getbatched.go:232-260 | whatever keys L2 repeats, invents, omits or fails on, every slot is settled exactly once: with the first value given for its very key, or with the error that ended the batch |
| `GetBatches.ExpectedTells` | getbatched.go:232-260 | what a waiter is told, item by item of the reply |
| `GetBatches.GetBatch.Reset` | getbatched.go:352-357 | ready for the next batch, the index map kept |
| `WriteBack.BatchSetIsFifo` | cache.go:1079-1091 | a batch of writes means what its tasks mean in order |
| `WriteBack.BatchDeleteIsFifo` | cache.go:1095-1107 | so does a batch of deletes |
| `WriteBack.EffectIsFifo` | cache.go:1069-1075 | whatever the batching, L2 ends as plain FIFO application leaves it |
| `WriteBack.Worker.FlushRun` | cache.go:1036-1067 | every received task is delivered in order in a batch of one kind and one ttl, the longest the worker saw, or handed back |
| `WriteBack.Worker.FlushWrite` | cache.go:1017-1032 | the same under each batching mode, with nothing left in hand: a write is delivered on its own exactly where the mode says so, any other run is cut only by its length limit, another kind, a marker or an empty queue |
| `WriteBack.Worker.Drain` | cache.go:1111-1129 | the whole stream is delivered in order in batches of one kind, one ttl and at most 128, each as long as the mode and the queue allow, single writes without batching, with the effect of plain FIFO, and every Wait marker is released in its place in the stream |
| `WriteBack.GroupedByMode` | cache.go:1024-1029 | how long each batch is, mode by mode: deletes always coalesce, writes never without batching, and in the adaptive mode only while the queue is more than half full |
| `WriteBack.MarkerAfterEarlierTasks` | cache.go:277-298 | when a Wait marker of the stream is released, L2 is as applying exactly the tasks queued before it, in order, leaves it |
| `WriteBack.KeyDependsOnItsTasks` | cache.go:312-317 | what L2 holds for a key depends only on the tasks on that key |
| `WriteBack.WorkersCommute` | cache.go:312-317 | however the workers interleave, L2 ends the same as long as each key's tasks keep their order |
| `PolicyContract.Policy.Evict` | eviction.go:57-61 | gives up exactly one queued node and leaves the others as they are, or reports that none is queued |
| `PolicyContract.Policy.Sweep` | eviction.go:64-66 | keeps exactly the nodes of other items, in their order, and releases the slots of the rest |
| `PolicyContract.Policy.Relink` | eviction.go:67-70 | keeps exactly the remapped nodes, each with its cost in its new slot, every node visited once |
| `PolicyContract.SweepsMeans` | eviction.go:64-66 | sweeping loses exactly the released slots and keeps none of them |
| `PolicyContract.KeptAndDropped` | internal/itemstore/queue.go:65-77 | what is kept and what is dropped together are the queue, none dead among the kept |
| `PolicyContract.MovedIsRemapped` | internal/itemstore/queue.go:81-94 | the slots of the moved nodes are the remapped slots, in order |
| `PolicyContract.RelinksMeans` | eviction.go:67-70 | re-linking leaves exactly the new slots of the visited ones that have one |
| `EvictQueues.EvictQueue.Push` | internal/itemstore/queue.go:47-61 | the chunked list is the old queue with the node at the back |
| `EvictQueues.EvictQueue.Peek` | internal/itemstore/queue.go:112-117 | the head, if any |
| `EvictQueues.EvictQueue.Pop` | internal/itemstore/queue.go:121-143 | takes the head; spent chunks are retired |
| `QueuePasses.SweepQueue` | internal/itemstore/queue.go:65-77 | a stable filter: the live nodes in order, and the dropped ones in order |
| `QueuePasses.RebuildQueue` | internal/itemstore/queue.go:81-94 | a stable filter and map |
| `QueuePasses.SweepCosts` | internal/eviction/s3fifo_policy.go:54-62 | the dropped costs are exactly what the queue's cost sum loses |
| `QueuePasses.RebuildCosts` | internal/eviction/s3fifo_policy.go:64-67 | the same for a rebuild |
| `QueuePasses.MovedIsSub` | internal/itemstore/queue.go:81-94 | a rebuild by an injective remap keeps nodes apart and in range of the new table |
| `ClockPolicies.PassBound` | internal/eviction/clock_policy.go:37-56 | the hand makes no more passes than the first node has chances |
| `ClockPolicies.ClockPolicy.Evict` | internal/eviction/clock_policy.go:37-56 | always ends; the victim is the first node among those with the fewest chances left, dead and expired ones having none; everyone passed paid for each pass |
| `ClockPolicies.ClockPolicy.Sweep` | internal/eviction/clock_policy.go:29-31 | a stable filter meeting the policy contract |
| `ClockPolicies.ClockPolicy.Rebuild` | internal/eviction/clock_policy.go:33-35 | a stable filter and map meeting the policy contract; the policy is valid over the new table |
| `TwoQueuePolicies.StepSpendsOne` | internal/eviction/s3fifo_policy.go:119-136 | a main step that evicts nothing spends exactly one of the chances left, which bounds the loop |
| `TwoQueuePolicies.TwoQueues.MainOnce` | internal/eviction/s3fifo_policy.go:119-136 | takes the head if and only if it is dead, expired or without chances, else revokes one and sends it to the back |
| `TwoQueuePolicies.TwoQueues.Sweep` | internal/eviction/s3fifo_policy.go:54-62 | stable filters on both queues, the first queue's weight again its cost sum |
| `TwoQueuePolicies.TwoQueues.Rebuild` | internal/eviction/s3fifo_policy.go:64-67 | the same for a rebuild, which meets the policy contract over the joined queues and leaves them valid over the new table |
| `TwoQueuePolicies.MovedBoth` | internal/eviction/s3fifo_policy.go:64-67 | rebuilding two queues one after the other re-links their concatenation |
| `EvictCourses.EvictsMeans` | internal/eviction/s3fifo_policy.go:69-91 | whatever course an eviction takes: counters only fall, the victim is dead, expired or without chances, exactly its node leaves, and a first queue within its budget stays |
| `EvictCourses.MeetsContract` | eviction.go:57-61 | it is an eviction the policy contract asks for |
| `EvictCourses.FirstMoves` | internal/eviction/s3fifo_policy.go:71-83 | on its turn the head of the first queue is promoted with a clean counter |
| `EvictCourses.MainEnds` | internal/eviction/s3fifo_policy.go:119-136 | the victim of main is the first of its nodes with the fewest chances, those who were passed having paid |
| `S3FifoPolicies.S3FifoPolicy.Add` | internal/eviction/s3fifo_policy.go:38-46 | to main if and only if the key is remembered, else to small; the memory of it is consumed and no other |
| `S3FifoPolicies.S3FifoPolicy.SmallOnce` | internal/eviction/s3fifo_policy.go:95-116 | the head is taken, its key remembered if it was untouched, or promoted with a clean counter |
| `S3FifoPolicies.S3FifoPolicy.MainOnce` | internal/eviction/s3fifo_policy.go:119-136 | a GCLOCK step over main |
| `S3FifoPolicies.S3FifoPolicy.Evict` | internal/eviction/s3fifo_policy.go:69-91 | the victim from the state before: newcomers leave small from its head while it is over its budget, touched ones are promoted, the first spent or untouched one is the victim and an untouched one's key is remembered, by one push; once small fits, main gives up its first node with the fewest chances; false only when empty |
| `S3FifoPolicies.CourseIsDetermined` | internal/eviction/s3fifo_policy.go:69-91 | the state before allows one course, one victim and one pair of queues after |
| `S3FifoPolicies.S3FifoPolicy.Sweep` | internal/eviction/s3fifo_policy.go:54-62 | meets the policy contract over both queues |
| `S3FifoPolicies.S3FifoPolicy.Rebuild` | internal/eviction/s3fifo_policy.go:64-67 | so does a rebuild, and the policy is valid over the new table |
| `GhostTables.ConsumedIsGone` | internal/eviction/s3fifo_policy.go:208-222 | a hit consumes the only entry of the fingerprint |
| `GhostTables.NewestSurvives` | internal/eviction/s3fifo_policy.go:189-205 | exactly when the entry pushed last survives another push into its bucket, counter wrap included |
| `GhostTables.GhostTable.Push` | internal/eviction/s3fifo_policy.go:190-205 | the key is remembered; one slot of its bucket changes, the same fingerprint's or the older |
| `GhostTables.GhostTable.Hit` | internal/eviction/s3fifo_policy.go:209-222 | true if and only if remembered, and then forgotten; nothing else changes |
| `FreqSketches.BumpHere` | internal/eviction/wtinylfu_policy.go:207-215 | an increment below the ceiling raises its own nibble by one |
| `FreqSketches.BumpElsewhere` | internal/eviction/wtinylfu_policy.go:207-215 | and carries into no other |
| `FreqSketches.HalvesEach` | internal/eviction/wtinylfu_policy.go:239-244 | aging halves each of the 16 nibbles on its own |
| `FreqSketches.SpotsDiffer` | internal/eviction/wtinylfu_policy.go:203-211 | the four counters of a key are four different nibbles |
| `FreqSketches.ChargedExactly` | internal/eviction/wtinylfu_policy.go:199-215 | charging a key raises exactly its four counters, saturating |
| `FreqSketches.IncrementCovers` | internal/eviction/wtinylfu_policy.go:199-221 | no counter of any key falls below its true count after an increment |
| `FreqSketches.AgingCovers` | internal/eviction/wtinylfu_policy.go:239-244 | nor after an aging |
| `FreqSketches.FreqSketch.Reset` | internal/eviction/wtinylfu_policy.go:239-244 | every word halved, the sample count halved |
| `FreqSketches.FreqSketch.Increment` | internal/eviction/wtinylfu_policy.go:199-221 | the whole new sketch; it ages exactly when a charge that lands fills the sample window |
| `FreqSketches.FreqSketch.Estimate` | internal/eviction/wtinylfu_policy.go:223-236 | the least of the key's four counters, never below its saturating count halved at each aging |
| `WTinyLfuPolicies.WTinyLfuPolicy.Add` | internal/eviction/wtinylfu_policy.go:49-53 | the newcomer is counted and enters the window |
| `WTinyLfuPolicies.WTinyLfuPolicy.Admit` | internal/eviction/wtinylfu_policy.go:131-141 | admits if and only if main is empty, its head dead, or the candidate's estimate beats the head's |
| `WTinyLfuPolicies.WTinyLfuPolicy.WindowOnce` | internal/eviction/wtinylfu_policy.go:102-127 | gives the head up if and only if it is dead, expired, or untouched and not admitted; a touched one is counted and promoted |
| `WTinyLfuPolicies.WTinyLfuPolicy.MainOnce` | internal/eviction/wtinylfu_policy.go:144-162 | a GCLOCK step whose survivors are counted |
| `WTinyLfuPolicies.WTinyLfuPolicy.Evict` | internal/eviction/wtinylfu_policy.go:76-98 | the victim from the state before: newcomers leave the window from its head while it is over its budget, touched ones are counted and promoted, those the filter admits are promoted, the first one turned away is the victim; once the window fits, main gives up its first node with the fewest chances; false only when empty |
| `WTinyLfuPolicies.TurnComes` | internal/eviction/wtinylfu_policy.go:102-141 | a newcomer is judged by main, the counters and the sketch as the promotions before it left them |
| `WTinyLfuPolicies.WTinyLfuPolicy.Sweep` | internal/eviction/wtinylfu_policy.go:61-69 | meets the policy contract over both queues |
| `WTinyLfuPolicies.WTinyLfuPolicy.Rebuild` | internal/eviction/wtinylfu_policy.go:71-74 | so does a rebuild, and the policy is valid over the new table |
| `SieveLists.UnlinkKeepsShape` | internal/eviction/sieve_policy.go:137-152 | list and freelist stay a partition of the node slots; the list loses exactly that node |
| `SieveLists.AddKeepsShape` | internal/eviction/sieve_policy.go:42-52 | the new node is the newest, everything else stays |
| `SieveLists.SpareTaken` | internal/eviction/sieve_policy.go:126-131 | taking the freelist's head leaves the rest of it and keeps the partition |
| `SieveLists.SliceGrown` | internal/eviction/sieve_policy.go:132-134 | growing the slice gives a slot in neither list |
| `SievePolicies.ScanMoves` | internal/eviction/sieve_policy.go:60-81 | a step of the scan clears one visited node, or stops at the first unvisited one |
| `SievePolicies.SweepDrops` | internal/eviction/sieve_policy.go:91-105 | the hand on a swept node moves to the next newer survivor |
| `SievePolicies.RebuildDrops` | internal/eviction/sieve_policy.go:108-122 | the same for a rebuild |
| `SievePolicies.SievePolicy.Alloc` | internal/eviction/sieve_policy.go:126-134 | a slot in neither list, from the freelist or by growth |
| `SievePolicies.SievePolicy.Add` | internal/eviction/sieve_policy.go:42-52 | appends the node as the newest and leaves the hand |
| `SievePolicies.SievePolicy.Unlink` | internal/eviction/sieve_policy.go:137-152 | removes exactly the node at its position; the hand stays on its own node |
| `SievePolicies.SievePolicy.Evict` | internal/eviction/sieve_policy.go:60-88 | removes the first unvisited, expired or dead node from the hand toward newer, wrapping to the oldest, or the first after a full turn; clears those it passed; the rest keep their order |
| `SievePolicies.SievePolicy.Sweep` | internal/eviction/sieve_policy.go:91-105 | a stable filter; the hand ends on its node, on the next newer survivor, or unset |
| `SievePolicies.SievePolicy.Rebuild` | internal/eviction/sieve_policy.go:108-122 | a stable filter and map meeting the policy contract, with the same for the hand; the policy is valid over the new table |
| `SnapshotFormat.VarintExact` | snapshot.go:216-223 | every 64-bit value reads back, and no strict prefix of its encoding does |
| `SnapshotFormat.UvarintInRange` | snapshot.go:140-143 | whatever the bytes, a varint that is read fits 64 bits |
| `SnapshotFormat.RecordWhole` | snapshot.go:140-162 | a record within the chunk limit reads back, an oversized one is refused |
| `SnapshotFormat.RecordCut` | snapshot.go:140-162 | a cut record is never a record, nor the end marker |
| `SnapshotFormat.BodyWhole` | snapshot.go:139-171 | a body yields its records up to the first oversized one |
| `SnapshotFormat.BodyCut` | snapshot.go:139-171 | a truncated body fails after yielding exactly the records whole in it |
| `SnapshotFormat.HeaderBack` | snapshot.go:201-214 | the header reads back, negative times included |
| `SnapshotFormat.RoundTrip` | snapshot.go:51-171 | a saved stream loads completely if and only if every chunk fits; otherwise the records before the first oversized one |
| `SnapshotFormat.OversizedIsSavedButNotLoaded` | snapshot.go:225-228 | a stream that is saved without error and not loaded |
| `SnapshotFormat.Truncated` | snapshot.go:104-110 | every strict prefix is rejected, after exactly the records whole in it |
| `SnapshotFormat.DeadlineKept` | snapshot.go:87-92 | the moment a stream carries for an item is its own or less than a second later |
| `Snapshots.RestoredLife` | snapshot.go:87-187 | where the loading cache's TTL does not cap it, a loaded item outlives its own moment if and only if it is not born expired, and is gone less than a second and three units after |
| `Snapshots.CodecsInvert` | snapshot.go:69-79 | codecs that invert each other on the items carry the whole list through |
| `Snapshots.SaveThenLoad` | snapshot.go:51-171 | saving and loading back returns every item, in order |
| `Snapshots.SaveAndLoad` | snapshot.go:51-187 | over the items alone: exactly those without a lifetime or whose moment, moved up to a whole second, has not passed come back, in order, without a lifetime or with what is left until that moment |
| `Snapshots.RestoredAreBack` | snapshot.go:87-187 | what the records restore is that |
| `Snapshots.Writer.WriteChunk` | snapshot.go:216-223 | appends the varint length and the payload |
| `Snapshots.Writer.SaveTo` | snapshot.go:51-102 | writes exactly the stream, or after a codec error the records before it and no end marker |
| `Snapshots.Reader.ReadUvarint` | snapshot.go:140-143 | reads exactly what the specification reads |
| `Snapshots.Reader.ReadChunk` | snapshot.go:225-234 | so does a chunk |
| `Snapshots.Reader.ReadHeader` | snapshot.go:201-214 | so does the header |
| `Snapshots.Reader.ReadRecord` | snapshot.go:140-162 | so does a record |
| `Snapshots.Reader.LoadFrom` | snapshot.go:111-187 | stores the entries up to the first error, skipping those past their restored moment; succeeds exactly when the end marker was met and the codecs took every record |

## Left out

- The second-level adapters, HTTP, metrics, statistics, options, benchmarks: input and output, or easy members.
- Several shards: a key always maps to one shard and shards share nothing, so one shard is modelled; the batch models read one shard.
- Weak memory: atomic accesses interleave sequentially consistently. Values of at most one word are written in one step.
- Panics in user code and handlers that call back into the cache; the second `SettleRest` call after a panic is modelled.
- A write-back enqueue that finds its queue full or the cache closed: it bypasses the queue, so the order results exclude it.
- The cost function is taken to be deterministic, and a deletion handler to be configured.
- The largest table of 2^32 slots and 32-bit probe positions: table sizes and positions are unbounded.
- The second-level read paths, `GetOrLoad` on a single key, and the batch load call itself: the flights, waits and assignment they use are modelled.
- The nil-codec and conflicting-option errors of loading, and writing loaded items on to L2.
- Shards.Shard.Get: reference counters are not part of the shard; the policies model them.
- ItemSeqlock.AcceptedSnapshotIsWhole: says nothing once a reader's window spans 2^27 - 1 commits to its slot, where the generation repeats.
- PolicyContract.Policy.Relink: a rebuild's visits and re-linking are two calls, and the order of visits is the policy's.
- BatchFlights.Claims.Claim: the registry is a map here; its buckets are in FlightRegistry.
- BatchFlights.ClaimAll: the claims of one batch in a row; those of several batches interleave in BatchWaits.
- LockFreeProbes.ProbeFinds: a key that is written, deleted or evicted during the probe may be missed, as documented; a slot's word and entry are read at once when its snapshot is accepted, which ItemSeqlock proves.
- SievePolicies.SievePolicy.Sweep: released slots are returned to the caller instead of through a callback; the same holds for the other policies' sweeps.
- GhostTables.GhostTable.Push: the table's own hash is an arbitrary function.
- Snapshots.Reader.LoadFrom: one clock reading for the whole load; what it stores is a list for the shard's writes.
- Snapshots.SaveAndLoad: excludes a lifetime within a second of 2^63 nanoseconds, where rounding it up overflows.
