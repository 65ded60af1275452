# BucketLSM, verified

A Dafny model of the parts of BucketLSM (a RocksDB fork) where state is shared, cached, reorganised
in place or counted in several places at once, with proofs of what those parts are for. All proofs
are for every input, every run or every interleaving; nothing is bounded. The code's atomics are
taken as single steps in one global order, and its integers as unbounded.

| file | what it models |
|---|---|
| `ChainSplit`, `SplitForGrow` | `AutoHyperClockTable::SplitForGrow`: splitting a chain of the linear-hashing clock cache while other threads insert |
| `ChainLookup` | `AutoHyperClockTable::Lookup` walking that chain meanwhile |
| `LinearHashing`, `Growth` | length encoding, homes and shifts; `Grow` and `CatchUpLengthInfoNoWait` by many threads |
| `SlotProtocol` | the meta word of a clock cache slot: Empty, Construction, Visible, Invisible and two counters |
| `Probing`, `FixedTable` | `FixedHyperClockTable`: double hashing with displacement counts |
| `SlotSequential` | the slot protocol run by one thread, against the operations of the table |
| `ClockLedger` | usage and occupancy accounting of the clock cache, strict and not |
| `SnapshotView`, `DbIter` | what a snapshot shows, and `DBIter` as a cursor over it |
| `LruList`, `LruShard`, `LruHandleTable` | the LRU cache shard: three pools on one intrusive list, references, and the resizing hash table with its resumable scan |
| `L0Groups` | union-find grouping of L0 files |
| `KeyOrder`, `Buckets`, `SplitPoint`, `BucketManager` | the key-range buckets: split, merge, sliding-window statistics, epoch snapshots |
| `SuperVersions` | the thread-local cache of SuperVersions |
| `Reservations` | cache reservations by dummy entries, and their distribution over two cache tiers |
| `Bits`, `Options` | powers of two, low bits and floor logarithm; values that may be missing |

Protocols are state machines (`Enabled`, `Apply`, `IsRun`) with an invariant kept by every step.
Code that updates fields in place is a class whose methods are proved against functions of the old
state. Handles of the LRU cache are addresses, and each of their fields is a map from addresses, so
that the links of the intrusive list and of the hash chains can be aliased as they are in the code.

## Where the code does not do what is said of it

- **Lookup during a split can miss a live entry.** The comment at cache/clock_cache.cc:3111-3113 says
  that no transient state can make the full Lookup skip a live entry, and the one at 3316 that an
  entry under construction can safely be skipped. A walk that stands on an entry of the other target
  chain can follow a link that already has the new shift onto an entry under construction, whose home
  it cannot check, and from there old links to the end marker of the old home, which it accepts.
  `ChainLookup.BlindRoundCanMiss` is such a walk; `ChainLookup.MissesIffLoses` says exactly which
  rounds do it, and `ChainLookup.LookupNeverMisses` that without them nothing is missed.
- **A split point can fall outside its bucket.** `ComputeMidpointKey` is not strictly inside the range
  below a key that starts with a zero byte or is the single byte 1, nor between a key and the same
  key with a zero byte. A split of such a range makes an empty bucket if and only if no recent
  median is inside it (`SplitPoint.SplitIsInside`, `BucketManager.Manager.SplitBucket`);
  `BucketManager.SplitCanFallOutside` is a run that does. Buckets stay contiguous.
- **The epoch alone does not identify the structure.** Initialisation does not raise it, so a snapshot
  taken before has the epoch of the buckets made by it (`BucketManager.SnapshotBeforeSetup`). The test
  on the number of results that goes with the epoch test is what makes the fast path sound, for every
  snapshot (`BucketManager.Manager.Run`, `BucketManager.Manager.FlushAcross`).
- **Reserved usage need not be maxed out over capacity.** The comment at
  cache/secondary_cache_adapter.cc:329-331 says it must be. `Reservations.OverCapacityNotMaxed` is a run
  where it is not, and `Reservations.RunPlaceholders` says exactly when it is. The three ledgers agree
  all the same.
- **LRU pools can be over their capacities after `SetCapacity`**, which changes these without
  `MaintainPoolSize`: `LruShard.PoolsCanBeOver` is a run, the contract of `SetCapacity` says exactly
  when, and `LruShard.LRUCacheShard.Run` that no other call does it.

## Model

| member | source | states |
|---|---|---|
| ChainSplit.KindDecidesHome | cache/clock_cache.cc:2430-2432 | the new hash bit sends an entry of the old chain to the old home or to the grow home, and nothing else does |
| ChainSplit.ShapeServesLookup | cache/clock_cache.cc:2314-2420 | in every state of a split that has the stated shape, a walk by the rules of Lookup from the home that applies to an entry reaches that entry and ends at an end marker it accepts |
| ChainSplit.PublishStep | cache/clock_cache.cc:2502-2539 | storing both heads keeps the shape, drops no entry and keeps the order of each target chain |
| ChainSplit.PromoteStep | cache/clock_cache.cc:1825-1854 | giving one link of a chain the new shift keeps the shape, drops no entry and changes no order |
| ChainSplit.FinishStep | cache/clock_cache.cc:1841-1853 | the new end marker keeps the shape, drops no entry and changes no order |
| ChainSplit.SkipStep | cache/clock_cache.cc:2621-2630 | skipping to the next entry of the first chain keeps the shape and loses nothing from either chain, although the entries skipped leave the first chain |
| ChainSplit.SeverStep | cache/clock_cache.cc:2594-2606 | ending the first chain while the other keeps the rest keeps the shape and loses nothing |
| ChainSplit.InsertStep | cache/clock_cache.cc:3033-3088 | an insertion at a head, at any time during a split, keeps the shape and the order of what is there |
| SplitForGrow.AutoTable.constructor | cache/clock_cache.cc:1998-2040 | an empty chain has the shape that a split starts from |
| SplitForGrow.AutoTable.StoreChain | cache/clock_cache.cc:2599-2624 | one store to a chain pointer: the memory changes in that link only, and the recorded history stays a history of allowed steps |
| SplitForGrow.AutoTable.Insert | cache/clock_cache.cc:3033-3088 | the entry becomes the first of the chain its hash belongs to at that moment, the chain being split or not, and nothing the splitter has left to do changes |
| SplitForGrow.AutoTable.Interfere | cache/clock_cache.cc:3033-3088 | any number of insertions between two steps of the splitter leave what it has found true, and a failed compare-and-swap on the head means that there was one |
| SplitForGrow.AutoTable.UpgradeShiftsOnRange | cache/clock_cache.cc:1825-1854 | the links of one chain get the new shift up to the stop link or, without one, to a new end marker, with insertions in between; the other chain is left as it is |
| SplitForGrow.AutoTable.AcquireOldHead | cache/clock_cache.cc:2422-2423 | the lock bit of the old head is up in memory, and the rewrite lock held, exactly when the chain is not empty; the saved head is the head of the whole chain |
| SplitForGrow.AutoTable.FindFrontiers | cache/clock_cache.cc:2450-2500 | the first entry of each target chain, or the knowledge that it has none, and which comes first |
| SplitForGrow.AutoTable.TryPublish | cache/clock_cache.cc:2521-2538 | the two heads are published for the chain that was scanned, or an insertion made the saved head out of date and nothing was published |
| SplitForGrow.AutoTable.BigStep | cache/clock_cache.cc:2442-2544 | the retry loop ends with both heads at the new shift and the locks held for the chains that are not empty |
| SplitForGrow.AutoTable.SmallStep | cache/clock_cache.cc:2621-2630 | one swap of the frontiers: the first chain skips to its next entry, the other chain is upgraded up to there, and less is left to do |
| SplitForGrow.AutoTable.SmallSteps | cache/clock_cache.cc:2568-2636 | the loop over small steps terminates with both chains finished |
| SplitForGrow.AutoTable.MigrateRest | cache/clock_cache.cc:2546-2637 | from published heads, with one target chain empty or none, both chains get finished |
| SplitForGrow.AutoTable.ReleaseHeads | cache/clock_cache.cc:2423-2544 | the lock bit of each head that is held goes down in memory, and the heads keep what they point to; a head that is not held stays as it is |
| SplitForGrow.AutoTable.SplitForGrow | cache/clock_cache.cc:2309-2637 | whatever is inserted meanwhile: at the end each chain is what was inserted in it since the heads were published, then the entries of the old chain with its hash bit in their old order, with every link at the new shift and its own end marker, and neither head locked; and after every single store each entry was reachable from the home that applied to it |
| SplitForGrow.RecordIsServed | cache/clock_cache.cc:2327-2345 | safety over a whole history of stores: every entry of every moment is reached by a walk from its home of that moment, and no entry ever leaves |
| SplitForGrow.FinishedIsPartition | cache/clock_cache.cc:2309-2637 | finished chains are the order-preserving partition of the original chain by the new hash bit, after the later insertions |
| SplitForGrow.FinishedIsNew | cache/clock_cache.cc:1825-1854 | in finished chains every link has the new shift |
| ChainLookup.RoundIsSafe | cache/clock_cache.cc:3187-3324 | a round of Lookup that does not lose the entry neither passes it nor reports absence, in every phase of a split and for every choice of slots that cannot be referenced; what a find means is FoundIsAHit |
| ChainLookup.FoundIsAHit | cache/clock_cache.cc:3264-3312 | a round finds exactly when the link it reads leads, at a shift it accepts, to an entry that can be referenced and has the key |
| ChainLookup.StoreKeepsNotPassed | cache/clock_cache.cc:3091-3113 | no store by the splitter or an inserter makes a walk in progress pass an entry |
| ChainLookup.WalkIsSafe | cache/clock_cache.cc:3187-3324 | over every interleaving of rounds and stores, a walk that has not passed a visible entry never reports it absent without losing it in some round |
| ChainLookup.LookupNeverMisses | cache/clock_cache.cc:3091-3324 | a Lookup started in any phase with the old or the new shift finds every entry that stays visible, unless a round loses it |
| ChainLookup.ReadableLookupNeverMisses | cache/clock_cache.cc:3091-3324 | while no entry of the chain is under construction a Lookup misses nothing, wherever the split stands |
| ChainLookup.FindIsReal | cache/clock_cache.cc:3187-3324 | no false hit: over every interleaving, what a walk finds is an entry with the key that can be referenced and that some link leads to at that moment |
| ChainLookup.NothingToFind | cache/clock_cache.cc:3187-3324 | so while no entry has the key, no walk finds anything |
| ChainLookup.UndisturbedLookup | cache/clock_cache.cc:3091-3324 | total correctness between the stores: wherever the split stands and with the old or the new shift, a Lookup with nobody storing terminates, and finds if and only if a referenceable entry with the key is on the chain of the hash |
| ChainLookup.MissesIffLoses | cache/clock_cache.cc:3264-3323 | exactly which rounds break the promise at clock_cache.cc:3111-3113: a miss can follow from a round if and only if the round steps from the other target chain, over a link with the new shift, onto an entry under construction whose old links do not lead to the entry looked for |
| ChainLookup.OldRunMisses | cache/clock_cache.cc:3245-3262 | from such an entry the old links lead to the end marker of the old home, which the walk accepts as its own |
| ChainLookup.BlindRoundCanMiss | cache/clock_cache.cc:3314-3323 | a concrete split of four entries and a walk over it that reports a visible entry absent |
| SlotProtocol.StepKeepsInv | cache/clock_cache.cc:60-163 | every atomic step of insertion, lookup, release, erasure, clock update and sweep keeps: one owner exactly in Construction, counters equal to the references held, each value freed at most once, and a thread that has compared keys and taken the entry is on an entry with its key |
| SlotProtocol.InvAlways | cache/clock_cache.h:143-185 | the invariant holds in every state of every interleaving of any number of threads |
| SlotProtocol.HitHasKey | cache/clock_cache.cc:858-874 | in every interleaving, a thread that reports a hit, or an insertion that takes an entry for its duplicate, holds a reference to a live entry with the very key it asked for |
| SlotProtocol.CompareDecides | cache/clock_cache.cc:858-874 | the comparison gives a hit if and only if the keys are equal, for lookup, duplicate insertion and erasure; otherwise the reference is dropped |
| SlotProtocol.LookupTakesVisible | cache/clock_cache.cc:858-884 | a lookup goes on to compare exactly with a visible entry, and counts a reference exactly with a shareable one |
| SlotProtocol.ConstructionIsExclusive | cache/clock_cache.h:143-185 | a thread that owns the slot in Construction is alone: no other owner, no counted reference, nobody reading the entry |
| SlotProtocol.ReferencedIsStable | cache/clock_cache.cc:98-163 | while some thread holds a reference, no step of another takes the entry out of the shareable states, changes it, frees it, or makes it visible again |
| SlotProtocol.ReferencedValueStays | cache/clock_cache.cc:893-966 | for as long as a thread holds a reference, through any run, it sees the same value, not freed |
| SlotProtocol.FreedOnce | cache/clock_cache.cc:77-87 | every value ever stored is either in the slot and not freed, or freed exactly once |
| SlotProtocol.AssertionsHold | cache/clock_cache.cc:238-323 | the assertions of the code about state and reference count hold wherever a thread stands |
| Probing.OddCancels | cache/clock_cache.cc:1058-1092 | an odd factor cancels modulo a power of two, for integers of any size |
| Probing.ProbeNext | cache/clock_cache.cc:1066-1092 | stepping by the increment is the next probe of the path |
| Probing.ProbeIsInjective | cache/clock_cache.cc:1066-1092 | the first 2^bits probes are different slots |
| Probing.ProbeReaches | cache/clock_cache.cc:1066-1092 | every slot of the table is probed |
| Probing.ProbeComesBack | cache/clock_cache.cc:1080-1090 | after 2^bits probes the path is back at its first slot, where the search stops |
| Probing.Bump | cache/clock_cache.cc:1082-1090 | a displacement made on the way is one that an entry placed further on accounts for |
| Probing.Unbump | cache/clock_cache.cc:1094-1102 | taking displacements back in probe order undoes them one by one |
| Probing.Placed | cache/clock_cache.cc:784-829 | an entry stored where its path stopped makes the displacements exact again |
| Probing.TakenAway | cache/clock_cache.cc:947-958 | with an entry gone, exactly the displacements of its path are too many |
| Probing.ZeroEndsSearch | cache/clock_cache.cc:831-891 | with exact counts, a slot with no displacements ends a search soundly: no later slot of the path holds the key |
| FixedTable.Table.constructor | cache/clock_cache.cc:720-776 | an empty table has exact counts |
| FixedTable.Table.DoInsert | cache/clock_cache.cc:784-829 | the entry goes to the first empty slot of its path if no visible match comes before it; a match there gets the counts instead; and there is no room only in a full table without a visible match; counts stay exact on every path |
| FixedTable.Table.Lookup | cache/clock_cache.cc:831-891 | an entry is found, and referenced, if and only if some slot holds a visible entry with the key, however early the search stops |
| FixedTable.Table.Rollback | cache/clock_cache.cc:1094-1102 | the displacements of an abandoned or removed entry are taken back exactly |
| FixedTable.Table.FreeSlot | cache/clock_cache.cc:956-957 | an entry that goes leaves an empty slot and exact counts |
| FixedTable.Table.Release | cache/clock_cache.cc:893-966 | the release count goes up, or the acquire count down if the reference was not useful; the slot is emptied if and only if that was the last reference and the entry is invisible or to be erased |
| FixedTable.Table.ClockUpdate | cache/clock_cache.cc:98-163 | an unreferenced entry with countdown left ends with less, one less or the largest that aging leaves, in both counts; without any left, or invisible, its slot is emptied; a referenced one is left alone |
| FixedTable.Table.Erase | cache/clock_cache.cc:980-1037 | every visible entry with the key becomes invisible with everything else as it was, or its slot empty if nothing references it, and every other slot is the same, although the search may stop early |
| FixedTable.Table.EraseUnRefEntries | cache/clock_cache.cc:1039-1056 | exactly the unreferenced entries go |
| FixedTable.EraseThenLookup | cache/clock_cache.cc:831-1037 | after Erase a Lookup of the key finds nothing |
| FixedTable.InsertThenLookup | cache/clock_cache.cc:784-891 | after an insertion into a table with room a Lookup of the key finds an entry |
| SlotSequential.LookupAlone | cache/clock_cache.cc:831-891 | the two models of a slot agree: the atomic steps of a lookup, uninterrupted, reference the entry exactly if it is visible with the key, and otherwise leave the slot as it was |
| SlotSequential.ReleaseAlone | cache/clock_cache.cc:893-966 | the atomic steps of a release, uninterrupted, do what the table's release does |
| SlotSequential.EraseAlone | cache/clock_cache.cc:980-1037 | the atomic steps of an erasure, uninterrupted, do what the table's erasure does, whether the key matches or not |
| SlotSequential.ClockAlone | cache/clock_cache.cc:98-163 | the atomic steps of a clock update, uninterrupted, do what the table's aging does |
| SlotSequential.InsertAlone | cache/clock_cache.cc:238-323 | the atomic steps of an insertion into an empty slot make it visible with the given key, value and countdown, and one reference if the caller keeps a handle |
| SlotSequential.InsertOntoAlone | cache/clock_cache.cc:238-287 | the atomic steps of an insertion that meets an entry, uninterrupted, raise both counts of a visible one with the key, and leave any other as it was |
| SlotSequential.SweepAlone | cache/clock_cache.cc:1039-1056 | the atomic steps of the sweep, uninterrupted, empty the slot exactly if nothing references the entry |
| LinearHashing.LengthInfoRoundTrip | cache/clock_cache.cc:1690-1728 | the used length is recovered from its encoding, and threshold and shift are in range, for every 64-bit length from 2 on |
| LinearHashing.LengthInfoIsInjective | cache/clock_cache.cc:1690-1728 | different lengths have different encodings |
| LinearHashing.OldHomeIs | cache/clock_cache.cc:2197-2202 | the home that a new home is split from is the new home without its top bit |
| LinearHashing.SplitsOff | cache/clock_cache.cc:3045-3058 | the split that raises the shift of a home by one makes the home with the next bit set |
| LinearHashing.HomeIsUsed | cache/clock_cache.cc:1744-1752 | every hash has a home below the length |
| LinearHashing.HomeComesFromSplit | cache/clock_cache.cc:1744-1752 | home and shift of a hash come from one split below the length |
| LinearHashing.GrowthRehomes | cache/clock_cache.cc:1744-1752 | raising the length by one moves only hashes of the one home that is split, and leaves home and shift of all others |
| Growth.WaitSuffices | cache/clock_cache.cc:2204-2222 | the wait of Grow on the head of the older home is enough for the split it is about to start |
| Growth.OldShiftIsExact | cache/clock_cache.cc:2224-2226 | when a split starts its old home has exactly the shift it is split at, and the length is not past it |
| Growth.ReadyAfter | cache/clock_cache.cc:2502-2539 | a home becomes ready only by the store that publishes its split, and stays ready |
| Growth.StepKeepsInv | cache/clock_cache.cc:2181-2307 | every step of any number of growing and catching-up threads keeps the invariant |
| Growth.InitialInv | cache/clock_cache.cc:1998-2040 | the table as constructed, at any starting length, satisfies it |
| Growth.InvAlways | cache/clock_cache.cc:2181-2307 | it holds in every state of every interleaving |
| Growth.PublishedHomesAreReady | cache/clock_cache.cc:2259-2307 | for every length that was published by any moment and every hash, its home is initialised with at least the shift that GetHomeIndexAndShift gives |
| Growth.LargerShiftIsReady | cache/clock_cache.cc:3045-3058 | an insertion that meets a larger shift finds the grow home initialised, as DoInsert asserts |
| Growth.CatchUpRaises | cache/clock_cache.cc:2259-2294 | progress of CatchUpLengthInfoNoWait: left alone it raises the length over every ready home, and stops only past the home it knows of, or at one that is not ready |
| Growth.OnlyGrows | cache/clock_cache.cc:2259-2307 | length and shifts never go down |
| ClockLedger.StepBalances | cache/clock_cache.cc:403-684 | every step of every path of Insert and CreateStandalone, of eviction and of release changes the counters by what it changes in entries and in flight |
| ClockLedger.StepKeepsInv | cache/clock_cache.cc:403-684 | usage, occupancy and standalone usage stay equal to what entries and threads in flight account for |
| ClockLedger.InvAlways | cache/clock_cache.cc:403-684 | in every interleaving |
| ClockLedger.QuietCountersAreExact | cache/clock_cache.cc:582-684 | with nobody in flight, usage is metadata plus table charges plus standalone charges, and occupancy the number of occupied slots |
| ClockLedger.StrictLimitHolds | cache/clock_cache.cc:440-494 | with the strict limit and a fixed capacity, usage never exceeds capacity, in any interleaving and at any moment |
| ClockLedger.StoredIsWithinCapacity | cache/clock_cache.cc:440-494 | so what is stored never exceeds it either, and is never more than what is counted |
| ClockLedger.InsertDelivers | cache/clock_cache.cc:403-684 | what every insertion of every run comes to: its entry in the table, a standalone entry for a caller that wants a handle, or nothing; a caller that wants a handle goes without one only under the strict limit, one that wants none never gets a standalone entry, and a standalone entry is uncharged only under the strict limit with leave to be |
| ClockLedger.StrictRefusesExactlyWhenShort | cache/clock_cache.cc:440-494 | the strict limit refuses exactly a charge above capacity, or one for which eviction freed too little usage, or no slot when one was needed |
| ClockLedger.ProceedingHasEvicted | cache/clock_cache.cc:476-553 | the assertions on the number of evicted entries: an insertion short of a slot or of usage goes on only after an eviction, and one that is not goes on at once |
| SnapshotView.RowsAreTheView | db/db_iter.cc:369-627 | reference definition: the rows of a snapshot are exactly its shown keys, in increasing order |
| SnapshotView.MovesAlongRows | db/db_iter.cc:168-218 | the specification of a move is a step to the neighbouring row, or to the first or last |
| SnapshotView.SeeksSplitRows | db/db_iter.cc:1568-1714 | the specification of the seeks is the first row at or above the target, and the last at or below it |
| SnapshotView.NewestDecides | db/db_iter.cc:440-524 | the view of a key is decided by its newest visible entry |
| SnapshotView.ViewIs | db/db_iter.cc:440-744 | the view of a key in plain words: its newest entry at or below the snapshot shows its value if it is a put and hides the key if it is a deletion; a run of merges shows what the merge operator makes of them, oldest first, with the put below them as base, or none above a deletion, another key or the end, and fails if the operator does |
| SnapshotView.NewerIsHidden | db/db_iter.cc:440-447 | a key whose entries are all newer than the snapshot is not shown |
| DbIter.SeekFindsNewest | db/db_iter.cc:1155-1208 | seeking to a key at the snapshot lands on its newest visible entry |
| DbIter.OnwardIsAhead | db/db_iter.cc:555-608 | going on by one entry or by a reseek, to the same key at sequence 0 or at the snapshot, skips nothing that could be shown |
| DbIter.ZeroIsLast | db/db_iter.cc:441-456 | an entry with sequence number 0 is the last of its key, which justifies the early exit |
| DbIter.DBIter.constructor | db/db_iter.cc:39-120 | a fresh iterator is off the view |
| DbIter.DBIter.MergeValuesNewToOld | db/db_iter.cc:630-744 | the value is what the merge operator makes of all visible operands, oldest first, on the base below them, and no entry of a later key is consumed |
| DbIter.DBIter.FindNextUserEntry | db/db_iter.cc:363-627 | from any position with nothing overlooked before it, the iterator lands on the first shown key of the range |
| DbIter.DBIter.ReverseToForward | db/db_iter.cc:782-827 | after turning, the inner iterator is at the first entry of the current key or later |
| DbIter.DBIter.ReverseToBackward | db/db_iter.cc:829-860 | after turning, the inner iterator is before all entries of the current key |
| DbIter.DBIter.Next | db/db_iter.cc:168-218 | lands on the first shown key above the current one, from either direction, with or without the early exit, and after merges |
| DbIter.DBIter.Seek | db/db_iter.cc:1568-1643 | lands on the first shown key at or above the target |
| DbIter.DBIter.SeekToFirst | db/db_iter.cc:1716-1767 | lands on the first shown key |
| DbIter.DBIter.FindUserKeyBeforeSavedKey | db/db_iter.cc:1420-1486 | ends on the last entry of a smaller key, by steps or by a reseek |
| DbIter.DBIter.FindValueForCurrentKeyUsingSeek | db/db_iter.cc:1155-1349 | presents the view of the current key, found from its newest entry on |
| DbIter.DBIter.FindValueForCurrentKey | db/db_iter.cc:928-1149 | presents the same view, found from its oldest entry on, with or without giving up for the seek |
| DbIter.DBIter.PrevInternal | db/db_iter.cc:862-915 | lands on the last shown key of the range |
| DbIter.DBIter.Prev | db/db_iter.cc:746-780 | lands on the last shown key below the current one, from either direction |
| DbIter.DBIter.SeekForPrev | db/db_iter.cc:1645-1714 | lands on the last shown key at or below the target |
| DbIter.DBIter.SeekToLast | db/db_iter.cc:1769-1820 | lands on the last shown key |
| DbIter.DBIter.Step | db/db_iter.cc:168-218 | each call does to what a client sees what the move does to a cursor over the view, and a valid iterator shows the value that the snapshot gives its key |
| DbIter.DBIter.Run | db/db_iter.cc:168-915 | refinement: for every sequence of calls and every skip limit, what a client sees after each call is what a plain cursor over the snapshot view shows; so the skip limit changes nothing |
| LruList.PutHigh | cache/lru_cache.cc:259-268 | the high pool with one more entry at its newest end |
| LruList.PutLow | cache/lru_cache.cc:269-280 | the low pool with one more entry, the low cut moving to it |
| LruList.PutBottom | cache/lru_cache.cc:281-294 | the bottom pool with one more entry, the bottom cut moving to it, and the low cut too if the low pool is empty |
| LruList.TakeOut | cache/lru_cache.cc:232-254 | removal from any pool keeps the three pools, the cuts moving back if they pointed to the entry |
| LruList.OverflowHigh | cache/lru_cache.cc:299-309 | moving the low cut on by one entry moves that entry and its charge from the high pool to the low pool |
| LruList.OverflowLow | cache/lru_cache.cc:311-320 | moving the bottom cut on moves an entry out of the low pool |
| LruList.LinkedWith | cache/lru_cache.cc:256-296 | splicing an entry in keeps the list doubly linked, in the stated order |
| LruList.LinkedWithout | cache/lru_cache.cc:232-254 | splicing it out does too |
| LruShard.LRUCacheShard.constructor | cache/lru_cache.cc:116-143 | an empty shard is valid |
| LruShard.LRUCacheShard.LRU_Remove | cache/lru_cache.cc:232-254 | the list loses that entry and keeps the order, the pools and the usage counters |
| LruShard.LRUCacheShard.LRU_Insert | cache/lru_cache.cc:256-296 | a hit or a high priority puts the entry last on the whole list, an entry that no pool takes goes before both pools, others between them; counters and cuts stay right; both pools are within capacity afterwards if it went to one of them, or if they were before |
| LruShard.LRUCacheShard.MaintainPoolSize | cache/lru_cache.cc:298-321 | terminates without failing its assertions, leaves both pools within capacity and moves no entry; from each pool the oldest overflow, and one entry less would not have been enough; changes nothing if they were within it |
| LruShard.LRUCacheShard.EvictFromLRU | cache/lru_cache.cc:323-336 | evicts the shortest stretch of oldest entries that makes room, or everything; table, handles and usage follow |
| LruShard.LRUCacheShard.SetCapacity | cache/lru_cache.cc:354-365 | evicts the shortest stretch that fits the new capacity; exactly when the pools are within their new capacities: if and only if what is left of each fits, which without evictions is what they held before |
| LruShard.PoolsCanBeOver | cache/lru_cache.cc:354-365 | an insertion and a smaller capacity that leave the high pool over its own |
| LruShard.LRUCacheShard.SetStrictCapacityLimit | cache/lru_cache.cc:367-370 | stays valid |
| LruShard.LRUCacheShard.InsertItem | cache/lru_cache.cc:372-428 | exactly when an entry is inserted, what was evicted for it, what the table then holds, the status on every path, and the strict limit: usage within capacity stays within capacity |
| LruShard.LRUCacheShard.Lookup | cache/lru_cache.cc:430-448 | finds what the table holds; an unreferenced entry leaves the list, and the reference is counted |
| LruShard.LRUCacheShard.Ref | cache/lru_cache.cc:450-456 | one more reference on a referenced entry |
| LruShard.LRUCacheShard.SetHighPriorityPoolRatio | cache/lru_cache.cc:458-463 | both pools are within their new capacities, and the order is kept |
| LruShard.LRUCacheShard.SetLowPriorityPoolRatio | cache/lru_cache.cc:465-470 | both pools are within their new capacities, and the order is kept |
| LruShard.LRUCacheShard.Release | cache/lru_cache.cc:472-518 | exactly when the entry is freed, and otherwise where on the list it goes; over capacity the list is empty, so the assertion holds; a null handle changes nothing |
| LruShard.LRUCacheShard.CreateStandalone | cache/lru_cache.cc:559-589 | exactly when a handle is created and with which charge, what is evicted for it, and the strict limit |
| LruShard.LRUCacheShard.Erase | cache/lru_cache.cc:591-615 | the key leaves the table; its entry is freed if unreferenced and otherwise stays with its references and its charge |
| LruShard.LRUCacheShard.EraseUnRefEntries | cache/lru_cache.cc:145-165 | exactly the unreferenced entries go, and usage does not rise |
| LruShard.LRUCacheShard.Run | cache/lru_cache.cc:323-615 | over every sequence of calls: with the strict limit on and the capacity never lowered, usage is within capacity all the time; and every call but SetCapacity keeps both pools within theirs |
| LruHandleTable.HandleTable.constructor | cache/lru_cache.cc:26-43 | an empty map in 16 buckets |
| LruHandleTable.HandleTable.FindPointer | cache/lru_cache.cc:75-81 | the pointer to the entry with the name, or the end of its chain, if and only if the map has none |
| LruHandleTable.HandleTable.Lookup | cache/lru_cache.cc:45-47 | refines map lookup |
| LruHandleTable.HandleTable.Insert | cache/lru_cache.cc:49-63 | refines map update and returns the replaced entry; chains stay at most one entry long on average while the table may grow |
| LruHandleTable.HandleTable.Remove | cache/lru_cache.cc:65-73 | refines map removal and returns the removed entry |
| LruHandleTable.HandleTable.Resize | cache/lru_cache.cc:83-114 | twice the buckets, the same map, unless at the limit |
| LruHandleTable.HandleTable.ApplyToSomeEntries | cache/lru_cache.cc:167-201 | visits exactly the entries whose hash is between the state it got and the state it leaves, each once |
| LruHandleTable.ScanStateStays | cache/lru_cache.cc:167-201 | a scan state stays a bucket boundary when the table doubles |
| LruHandleTable.ScanVisitsOnce | cache/lru_cache.cc:167-201 | the parts of a scan cut the hash space without gap or overlap |
| LruHandleTable.StayingEntryVisitedOnce | cache/lru_cache.cc:167-201 | over a whole scan, with any insertions, removals and resizes between its calls, an entry that stays is visited by exactly one call |
| LruHandleTable.HandleTable.Scan | cache/lru_cache.cc:167-201 | a whole scan with any insertions and removals, and the resizes they bring, between its parts: a name that is in the table at every part is visited in exactly one |
| L0Groups.GroupRangesAreDisjoint | db/column_family.cc:1350-1424 | two different groups have disjoint key-range hulls: all files of one end before all files of the other begin |
| L0Groups.EdgeIsCommonKey | db/column_family.cc:1398-1401 | two active files overlap, as tested, exactly when some key is in both closed ranges |
| L0Groups.ChainStaysOnOneSide | db/column_family.cc:1387-1405 | a chain of overlapping files cannot get to the other side of a file it is not connected to |
| L0Groups.Compress | db/column_family.cc:1368-1373 | path compression keeps the forest and its roots |
| L0Groups.Link | db/column_family.cc:1375-1381 | linking two roots keeps the forest acyclic |
| L0Groups.Forest.constructor | db/column_family.cc:1362-1366 | every file is a group of its own |
| L0Groups.Forest.Find | db/column_family.cc:1368-1373 | terminates with the root, compresses the path and changes no group |
| L0Groups.Forest.Union | db/column_family.cc:1375-1381 | joins the two groups and no others |
| L0Groups.UnionOverlapping | db/column_family.cc:1383-1405 | after the double loop two active files have the same root if and only if a chain of overlapping active files connects them |
| L0Groups.CollectGroups | db/column_family.cc:1407-1411 | the lists per root are the groups, in file order |
| L0Groups.CountedAreLarge | db/column_family.cc:1413-1423 | counting large lists counts large connected components |
| L0Groups.GetNumGroupsNeedingCompaction | db/column_family.cc:1327-1424 | the early answers, and otherwise the number of connected components of the overlap graph on files not being compacted that reach the trigger |
| KeyOrder.ComputeMidpointKey | db/column_family.cc:2626-2677 | the loop computes the specified midpoint |
| KeyOrder.FiniteMidpoint | db/column_family.cc:2640-2676 | the midpoint of a < b is strictly between them if and only if b is not a followed by a zero byte, and then no key is between them |
| KeyOrder.InfiniteMidpoint | db/column_family.cc:2628-2644 | with an open end, exactly when the midpoint is inside: it is not for the range below a key that starts with a zero byte or is the single byte 1 |
| KeyOrder.MidpointIsFinite | db/column_family.cc:2626-2677 | the midpoint is never the empty string, which would mean infinity |
| SplitPoint.SortIsCorrect | db/column_family.cc:2620-2623 | sorted, and a permutation |
| SplitPoint.MedianIsMiddle | db/column_family.cc:2620-2623 | the median is one of the keys, at most half of them are below it and fewer than half above |
| SplitPoint.MediansAre | db/column_family.cc:2610-2618 | the candidates are exactly the non-empty medians of the window's flushes that gave the bucket files |
| SplitPoint.ComputeSplitPoint | db/column_family.cc:2607-2624 | the median of the medians of the flushes in the window that had files, or none |
| SplitPoint.ChooseSplitPoint | db/column_family.cc:2494-2510 | the split point after all fallbacks, never empty |
| SplitPoint.MidpointIsInside | db/column_family.cc:2626-2676 | the midpoint of a non-empty range is strictly inside it if and only if the upper bound is not, below a range without lower bound, a key that starts with a zero byte or the single byte 1, nor otherwise the lower bound followed by a zero byte |
| SplitPoint.SplitIsInside | db/column_family.cc:2494-2510 | the chosen point is strictly inside the bucket if and only if the median is, or the midpoint does not fail |
| Buckets.RecordedIsKept | db/column_family.cc:1990-2022 | recording a flush keeps the three aggregates equal to the sums over the events and the ids among the last WINDOW_SIZE |
| Buckets.EveryKeyHasBucket | db/column_family.cc:2077-2098 | every key is in a bucket, so the fallback of FindBucketInternal is never reached |
| Buckets.NoKeyHasTwoBuckets | db/column_family.cc:2077-2098 | in strictly sorted buckets no key is in two |
| Buckets.SplitIsContiguous | db/column_family.cc:2512-2536 | a split keeps the buckets contiguous from minus to plus infinity |
| Buckets.SplitIsProper | db/column_family.cc:2512-2536 | a split keeps them strictly sorted if and only if the point is strictly inside |
| Buckets.SplitConserves | db/column_family.cc:2519-2533 | a split leaves the total of every flush over all buckets unchanged |
| Buckets.HalvesDivide | db/column_family.cc:2512-2533 | a split divides the range at the point, and every event goes unchanged to one half: to the left exactly if its median is below the point |
| Buckets.MergeIsContiguous | db/column_family.cc:2573-2600 | a merge keeps the buckets contiguous |
| Buckets.MergeIsProper | db/column_family.cc:2573-2600 | a merge keeps them strictly sorted |
| Buckets.MergeConserves | db/column_family.cc:2578-2597 | a merge leaves the total of every flush unchanged |
| Buckets.MergedEvents | db/column_family.cc:2576-2597 | a merged bucket has the events of both; one that the left bucket had keeps its median, and one that only the right had is unchanged |
| BucketManager.OverlapIsCommonKey | db/column_family.cc:2413-2432 | the overlap test on half-open ranges, open at either end or not, holds exactly when some key is in both |
| BucketManager.SharedIsIntersection | db/column_family.cc:2202-2217 | the range between the chosen ends is the intersection of the result's range and the bucket's, open at either end or not |
| BucketManager.ShareMedianIsShared | db/column_family.cc:2198-2220 | so the median credited to a bucket is a key of the bucket and of the result, unless the midpoint of the shared range fails |
| BucketManager.RangeHasBucket | db/column_family.cc:2436-2455 | every proper range overlaps some bucket, so the slow path always has a bucket to credit |
| BucketManager.FindBucketsInRange | db/column_family.cc:2436-2455 | exactly the overlapping buckets, in order |
| BucketManager.Credit | db/column_family.cc:2183-2225 | each overlapping bucket is credited an equal share of a result, and the midpoint of its part of the range as a median; the others nothing |
| BucketManager.Remap | db/column_family.cc:2168-2250 | the events of the slow path are the accumulated shares of all results |
| BucketManager.RemapTotal | db/column_family.cc:2168-2250 | the shares over all buckets add up to what division leaves of the results |
| BucketManager.SpreadLosesLittle | db/column_family.cc:2193-2224 | dividing a result among n buckets loses less than n of each statistic and never adds |
| BucketManager.RemappedFlushTotal | db/column_family.cc:2168-2260 | the total recorded for a remapped flush is the sum of what its results are spread to |
| BucketManager.RecalculateWindowStats | db/column_family.cc:2024-2034 | the aggregates become the sums over the events |
| BucketManager.MoveEvents | db/column_family.cc:2519-2529 | the events with a median from the split point on move, the others stay |
| BucketManager.CombineEvents | db/column_family.cc:2578-2593 | events of the same flush are added up, the others are kept |
| BucketManager.Manager.constructor | db/column_family.cc:2036-2042 | an uninitialised manager is valid |
| BucketManager.Manager.InitializeFromFirstFlush | db/column_family.cc:2044-2075 | the first call makes contiguous buckets from any split points, even equal or empty ones, and they are strictly sorted if and only if the points ascend from one that is not empty; later calls change nothing |
| BucketManager.Manager.FindBucket | db/column_family.cc:2077-2103 | a bucket that holds the key, the only one if buckets are strictly sorted; -1 exactly before initialisation |
| BucketManager.Manager.GetSnapshot | db/column_family.cc:2106-2115 | the epoch with the ranges of that moment |
| BucketManager.Manager.Run | db/column_family.cc:2106-2115 | epochs over every run: after any sequence of initialisations, splits, merges and flushes that leaves the epoch as it was, the ranges are the same if and only if their number is, and that fails only if the buckets were not set up before |
| BucketManager.Manager.FlushAcross | db/column_family.cc:2153-2167 | a flush that takes a snapshot, runs beside any sequence of operations and then reports: on the fast path each result is recorded by the bucket whose range it was written for and nothing is lost; an unchanged structure always takes the fast path; the slow path loses less than one unit per share |
| BucketManager.Manager.SplitBucket | db/column_family.cc:2486-2540 | the bucket is divided at the point, each event by its median, and no other bucket changes; aggregates and epoch follow; totals per flush conserved; strictly sorted afterwards exactly under the condition of SplitIsInside |
| BucketManager.Manager.MergeWithAdjacentBucket | db/column_family.cc:2542-2605 | the neighbour with fewer window bytes, the right one if they are equal, or the only one, is merged and every other bucket stays; totals per flush conserved; order and epoch as required |
| BucketManager.Manager.OnFlushCompleted | db/column_family.cc:2140-2260 | every bucket records one event per flush, its own result on the fast path and its share on the slow one; the total recorded is exactly the sum of the results, or of what they are spread to; totals of the other flushes in the window, ranges and epoch stay |
| BucketManager.SnapshotBeforeSetup | db/column_family.cc:2044-2075 | a snapshot taken before initialisation has the epoch of the buckets made after it but not their ranges; the test on the number of results rejects it |
| BucketManager.SplitCanFallOutside | db/column_family.cc:2486-2540 | a run of initialisation, flush and split that leaves a bucket with an empty range |
| BucketManager.FlushLosesLittle | db/column_family.cc:2168-2250 | a whole remapped flush gains nothing and loses less than one unit per share, one less for each result |
| SuperVersions.StepKeepsInv | db/column_family.cc:1531-1663 | every step of getting, using, returning, installing and scraping keeps the counts equal to the owners |
| SuperVersions.InvAlways | db/column_family.cc:1531-1663 | in every interleaving of any number of readers and installers |
| SuperVersions.RefsAreOwners | db/column_family.cc:1531-1663 | the reference count is one if installed, plus the thread-local slots caching it, plus the threads holding it; and a SuperVersion has been freed if and only if nobody has it any more |
| SuperVersions.CachedIsInstalled | db/column_family.cc:1544-1590 | outside an installation a cached slot holds only the installed SuperVersion |
| SuperVersions.ReaderGetsCurrent | db/column_family.cc:1544-1572 | what a reader starts to use is the installed SuperVersion, or during an installation the one just being replaced |
| SuperVersions.UsedIsLive | db/column_family.cc:1544-1572 | what a thread uses is referenced and not freed |
| SuperVersions.ScrapeIsNeverLast | db/column_family.cc:1647-1663 | the Unref of a scraped slot never drops the last reference |
| SuperVersions.AssertionsHold | db/column_family.cc:1544-1590 | a slot is marked in use only by its own thread, and a failed put-back finds the slot obsolete |
| SuperVersions.PutBackIsCurrent | db/column_family.cc:1574-1590 | a put-back that succeeds puts back the installed SuperVersion, or during an installation one that the scrape is still to take |
| Reservations.ReservationManager.constructor | cache/cache_reservation_manager.cc:41-48 | no reservation at first |
| Reservations.ReservationManager.IncreaseCacheReservation | cache/cache_reservation_manager.cc:112-127 | succeeds exactly if the memory gets covered, then with the least number of dummy entries; a refusal leaves what was reserved so far |
| Reservations.ReservationManager.DecreaseCacheReservation | cache/cache_reservation_manager.cc:130-147 | the least cover of the new memory |
| Reservations.ReservationManager.UpdateCacheReservation | cache/cache_reservation_manager.cc:57-85 | the usage is recorded in every case, and covered by the least number of entries, or by the entries there are under delayed decrease |
| Reservations.ReservationManager.MakeCacheReservation | cache/cache_reservation_manager.cc:88-99 | raises the recorded usage by the amount |
| Reservations.ReservationManager.ReleaseCacheReservation | cache/cache_reservation_manager.cc:102-109 | lowers it by the amount, to the least cover |
| Reservations.ReservationManager.MakeAndRelease | cache/cache_reservation_manager.cc:88-109 | a reservation and its release lead back to the same usage and the same cover |
| Reservations.ReservationManager.UpdateBy | cache/cache_reservation_manager.h:270-285 | the usage changes by the difference, saturating at zero |
| Reservations.SecondaryAdapter.constructor | cache/secondary_cache_adapter.cc:79-111 | the ledgers agree at first: the whole secondary capacity is reserved in the primary cache |
| Reservations.PartIs | cache/secondary_cache_adapter.cc:270-271 | the secondary part of a reservation is its exact share, rounded down |
| Reservations.SecondaryAdapter.InsertPlaceholder | cache/secondary_cache_adapter.cc:248-280 | keeps the ledgers in step: primary reservation plus secondary reservation is the secondary capacity, the deflation equals the secondary reservation, and no subtraction saturates; an insertion that ends within capacity leaves less than a chunk unreserved, and one that goes over it changes nothing, with the exact condition for the reservation to be at its largest then |
| Reservations.SecondaryAdapter.ReleasePlaceholder | cache/secondary_cache_adapter.cc:320-350 | the same on release, for placeholders in any order; it keeps less than a chunk unreserved, and over capacity it changes nothing |
| Reservations.RunPlaceholders | cache/secondary_cache_adapter.cc:248-350 | over every run from no placeholders: while usage stays within capacity less than a chunk is unreserved; and whenever it is over, the reservation is at its largest, as the comment at 329-331 says, if and only if at the last moment within capacity less than a chunk was unreserved and usage had reached the last whole chunk |
| Reservations.OverCapacityNotMaxed | cache/secondary_cache_adapter.cc:329-333 | usage over capacity with a reservation that is not at its largest, contrary to that comment |
| Reservations.ReservedCanLag | cache/secondary_cache_adapter.cc:329-333 | and a release back to capacity that leaves a whole chunk unreserved |

## Left out

- Entries leaving a chain while it is split: `PurgeImplLocked` needs the rewrite lock that the splitter holds, so only insertions interfere with `SplitForGrow` here; the reuse of a slot in another chain under a reader of `Lookup`, and purging itself, are not modelled.
- Growth.WaitSuffices: assumes less than the code waits for; the test that the older head is unlocked is dropped, which allows more runs.
- SplitForGrow.AutoTable.Insert: the store to the new entry's chain pointer and the swap of the head are one step; between the two no chain leads to the entry.
- SplitForGrow.AutoTable.Interfere: the number of insertions during one split is finite but arbitrary, so that the retry loop on the head terminates.
- ClockLedger.StrictLimitHolds: for a table whose metadata charge is fixed, as in `FixedHyperClockTable`; the charge that `CatchUpLengthInfoNoWait` adds for each new slot of the growing table is not modelled.
- The naive first attempt of `Lookup` (at most ten entries): it can only find an entry or fall through to the part that is modelled.
- Memory orders weaker than sequential consistency, yields, iteration caps, and the correction of counters near overflow; counters are natural numbers.
- The heap lifetime of standalone clock handles; only their charges are modelled.
- FixedTable.Table.DoInsert: between single-threaded operations; counts are not exact in the middle of concurrent ones. Two visible entries with one key are possible, as the source says.
- DbIter.DBIter.Run: entries of one key have distinct sequence numbers, and a merge is a function of the operands and an optional base that may fail. User timestamps, read callbacks, prefixes, iterate bounds, blob values, wide columns, pinning, statistics and the limit on skipped internal keys are not modelled.
- LruShard.LRUCacheShard.InsertItem: a handle on which the caller already holds a reference is not modelled. Callbacks on eviction are left out.
- LruHandleTable.HandleTable.Resize: the assertion on the number of moved entries is not stated; that the map is the same is.
- Keys of L0 files and of the iterator are integers; only their order is used.
- When to split and merge buckets (`AdjustAfterCompaction`, `AdjustBucketsInRange`): floating-point ratios; any split or merge may happen at any time here.
- Reservations.SecondaryAdapter.InsertPlaceholder: the ratio is exact and the capacity fixed; `SetCapacity`, `UpdateCacheReservationRatio` and the rounding of doubles are left out.
- Wrap-around of 64-bit statistics, table sizing, load factors and diagnostics.
- `cache/cache_key.cc`, `cache/compressed_secondary_cache.cc`, `db/builder.cc`, options, column family lifetime and all file I/O.
