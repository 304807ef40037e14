# Verified models of the node's core data structures

This project models, in Dafny 4.11, the parts of the node whose correctness is hardest to see from the
code, and proves what they promise. `dafny verify dfyconfig.toml` checks everything.

Where the original is imperative the model has two layers: values and functions that say what a call does
to the whole state, with the theorems about every run, and classes or methods with loops, arrays and
in-place updates that are proved to do exactly that.

| area | files |
|---|---|
| coins: write-back caches with DIRTY and FRESH flags, stacked to any depth | `CoinsModel.dfy`, `CoinsFresh.dfy`, `Coins.dfy` |
| address manager: two bucket tables and their indexes, its self-check, its file form | `AddrModel.dfy`, `AddrOps.dfy`, `AddrStats.dfy`, `AddrGroups.dfy`, `AddrMan.dfy`, `AddrCheck.dfy`, `AddrFile.dfy`, `AddrStore.dfy` |
| parallel check queue: master and workers as atomic steps | `CheckQueue.dfy` |
| block assembly: package selection over the transaction graph, by ancestor score | `Miner.dfy`, `MinerScore.dfy` |
| cuckoo cache: displacement inserts with lazy erasure and epochs, how full it gets, how long it keeps an element | `CuckooModel.dfy`, `CuckooLoad.dfy`, `CuckooKeep.dfy`, `CuckooCache.dfy` |
| partial Merkle trees, their size, what is turned down | `MerkleModel.dfy`, `MerkleExact.dfy`, `MerkleSize.dfy`, `MerkleBlock.dfy`, `Bits.dfy` |
| 256-bit arithmetic, compact targets and work | `ArithModel.dfy`, `Arith.dfy`, `Compact.dfy` |
| block tree with skip pointers and the length of its walks, active chain | `Chain.dfy`, `ChainSteps.dfy` |
| Bech32 and the errors it detects, Base58, rolling Bloom filter | `Bech32.dfy`, `BechExact.dfy`, `BechDistance.dfy`, `Radix.dfy`, `Base58.dfy`, `RollingBloom.dfy` |

Hash functions, clocks, random numbers, fee rates, transaction finality and the comparison by which packages
are ordered are parameters: every result holds whatever they are. `MinerScore` adds the comparison of the
code. Results about hashes are stated as "or
two nodes of the tree have a collision".

## Where the code and its documentation differ

The model follows the code.

- `src/merkleblock.h:51` bounds the flag bits by twice the hashes minus one. `MerkleSize.FlagBitsExact` gives the
  exact number and says when the bound holds: exactly when no node with a single child lies above a match.
  `MerkleSize.FlagBitsForAllMasks`: it holds whatever is matched only for a power of two of transactions.
- `src/merkleblock.h:35-38` guarantees 10 + ceil(32.25 * N) bytes. `MerkleSize.WireSizeIff` says when that holds
  and `MerkleSize.PromiseExceeded` gives a block of 1012 transactions that takes one byte more.
- `ExtractMatches` reports failure as the null hash, so a caller who compares with a block's root learns
  nothing if that root is null: `MerkleModel.NullRootForged` for every such block, `MerkleModel.ExtractSound` for
  every other, and `MerkleModel.SoundIff` for both. It clears the caller's list of matches but only appends to the
  list of indexes.
- `src/cuckoocache.h:416-430` says that the first displacement uses the first of the eight slots; the code uses
  the second, because the search for the last slot finds nothing the first time. The product `45 * size` is
  taken modulo 2^32 (`src/cuckoocache.h:348`). Two epochs of 45% do not keep a small table from filling up:
  `CuckooLoad.NeverFullIff` says at which sizes they do. Sizes above 2^32 - 8, for which the 32-bit number of
  flag bytes wraps (`src/cuckoocache.h:63`), are excluded by `Params.Valid`.
- `SpendCoin` returns true for an entry that is already spent (`src/coins.cpp:114-128`):
  `CoinsModel.HandedIff` says exactly when it succeeds without an observable coin, `CoinsModel.SpendTwice` what a
  second spend gives. `AddCoin` subtracts the old coin's memory before it throws (`src/coins.cpp:75-81`):
  `Coins.CoinsViewCache.AddCoin` states the resulting error.
- `Add_` returns true for an address it did not know even when it drops the address again
  (`src/addrman.cpp:327-332`): `AddrOps.AddedIff` says exactly when it is kept.
- `Clear` leaves the waiting collisions in place (`src/addrman.h:556-578`): `AddrOps.ClearStaleIff` says that
  afterwards some run of calls leads to a waiting entry whose tried slot is empty exactly when something was
  waiting; `AddrOps.StaleRun` gives such a run for every id that was.
- A package entry that failed, was erased and is created again starts from the sums of the whole pool
  (`src/miner.cpp:355-360`), so ancestors that were in the block by then count again: `Miner.Holds` says exactly
  what an entry holds. A package can therefore be refused although it fits (`Miner.RefusedThoughItFits`);
  `Miner.BlockAssembler.UnfitIff` says when what is left out really does not fit.
- A new entry loses the modified fee of the ancestor that is included (`src/miner.cpp:358`), an existing one its
  base fee (`src/miner.h:144`). `Miner.FeesExactIff` gives the error exactly, `Miner.ChainFees` a chain of three in
  which it is what was added to the fee of the middle one.
- `src/miner.cpp:474` says that everything else has a lower fee rate when selection stops for a low fee.
  `MinerScore.NothingPaysBoth` gives what holds: nothing left pays the minimum both for itself and for its package.
  `MinerScore.CheaperThanLeft` is a pool in which a package that pays enough is left.
- Decoding a compact word and encoding it again gives another word unless the first was canonical:
  `Compact.CanonicalIff`.

## Model

| member | source | states |
|---|---|---|
| CoinsModel.FetchKeeps | src/coins.cpp:42-57 | reading an outpoint through any number of caches changes no observable coin and keeps every entry in a documented flag state |
| CoinsModel.AddCoinKeeps | src/coins.cpp:68-100 | under the caller's contract AddCoin does not throw, makes exactly that coin observable, and keeps the hierarchy consistent; unspendable outputs change nothing |
| CoinsModel.UnspendableIff | src/script/script.h:547-550 | exactly outputs that start with OP_RETURN or exceed 10000 bytes never enter a cache |
| CoinsModel.UsageIs | src/memusage.h:50-57 | a script that is allocated takes the least multiple of 16 bytes with 16 bytes of overhead, a short one nothing |
| CoinsModel.SpendCoinKeeps | src/coins.cpp:114-128 | afterwards exactly that coin is gone from the view of the top cache, and every level is consistent |
| CoinsModel.MergeKeeps | src/coins.cpp:161-213 | merging one child entry preserves the parent's consistency and gives the coin the child observed; what happens to FRESH is in CoinsFresh.StepTight |
| CoinsModel.BatchWriteKeeps | src/coins.cpp:161-215 | writing any consistent set of child entries never hits the "FRESH flag misapplied" throw and yields the child's view, down to the database |
| CoinsModel.FlushKeeps | src/coins.cpp:217-222 | a flush empties the cache and changes no observable coin |
| CoinsModel.UncacheKeeps | src/coins.cpp:224-231 | uncaching changes no observable coin |
| CoinsModel.MaintenanceKeepsView | src/coins.cpp:42-231 | fetches, flushes and uncaches at any level of the stack change nothing observable at the top |
| CoinsModel.StepAgrees | src/coins.cpp:42-231 | one legal step keeps the stack equal to a plain map of unspent coins |
| CoinsModel.RunAgrees | src/coins.cpp:42-231 | every run of adds and spends on top, interleaved with maintenance at any level, stays equal to the plain map; no throw; every entry stays in one of the five documented states |
| CoinsModel.EmptyCachesAgree | src/coins.cpp:36-36 | a stack of empty caches of any depth over any database satisfies the premises of RunAgrees |
| CoinsModel.AddCoinSafeIff | src/coins.cpp:68-100 | passing possible_overwrite = false is safe exactly when no unspent coin is observable at the outpoint |
| CoinsModel.LostSpend | src/coins.cpp:68-100 | outside that contract AddCoin need not throw and a later spend is lost |
| CoinsModel.HandedIff | src/coins.cpp:114-128 | a coin that can be observed is handed out; success without one happens exactly for a spent entry of the cache or a spent coin held by a root directly below |
| CoinsModel.SpendTwice | src/coins.cpp:114-128 | spending a coin again hands out an empty coin if it was not FRESH, and otherwise whatever is handed out below, where no unspent coin is |
| CoinsFresh.StepTight | src/coins.cpp:42-231 | every call but an add that may overwrite keeps, at every level: a modified entry is FRESH whenever the view below has no coin there |
| CoinsFresh.RunTight | src/coins.cpp:42-231 | so does every legal run over a stack of any depth |
| CoinsFresh.EmptyTight | src/coins.cpp:36-36 | a stack of empty caches starts that way |
| CoinsFresh.NothingToWrite | src/coins.cpp:161-222 | when neither a view nor the one below has a coin at an outpoint, a flush writes nothing there |
| CoinsFresh.CreatedAndSpent | src/coins.cpp:68-222 | a coin added, flushed, spent and flushed again leaves the cache below, and the whole stack, as it was |
| CoinsFresh.StepDatabase | src/coins.cpp:42-231 | only a flush of the lowest cache touches the database |
| CoinsFresh.NeverWritten | src/coins.cpp:42-222 | over every run a coin the database does not know, and that is spent by the time of each flush into it, never changes the database there |
| CoinsFresh.StepUnspent | src/txdb.cpp:83-119 | spent coins are erased from the database, never written to it |
| CoinsFresh.FlushedDatabase | src/coins.cpp:161-222 | flushing all levels, from the top down, leaves a database that is exactly the plain map of unspent coins |
| CoinsFresh.UncacheIff | src/coins.cpp:224-231 | uncaching drops exactly a clean entry with an unspent coin and nothing else; reading it again restores it |
| Coins.UsageStored | src/coins.cpp:38-40 | storing an entry moves the total memory usage by the difference of the two coins |
| Coins.CoinsViewDB.BatchWrite | src/txdb.cpp:83-119 | dirty entries are written or erased, clean ones ignored, whatever the order |
| Coins.CoinsViewCache.FetchCoin | src/coins.cpp:42-57 | the object does what Fetch does to the whole stack below it and keeps the memory accounting |
| Coins.CoinsViewCache.GetCoin | src/coins.cpp:59-66 | returns the observable coin |
| Coins.CoinsViewCache.AddCoin | src/coins.cpp:68-100 | refines AddCoin of the model; accounting is exact unless it throws, and then off by exactly the old coin |
| Coins.CoinsViewCache.SpendCoin | src/coins.cpp:114-128 | refines SpendCoin of the model; succeeds exactly when the cache or what is below hands out a coin, spent or not, and moves out that coin |
| Coins.CoinsViewCache.WriteEntry | src/coins.cpp:163-212 | one iteration of BatchWrite: when it throws, and otherwise the merged entry with its flags |
| Coins.CoinsViewCache.WriteEntries | src/coins.cpp:161-213 | the loop merges all entries, whatever order they are visited in, and throws exactly if some entry is misapplied |
| Coins.CoinsViewCache.BatchWrite | src/coins.cpp:161-215 | refines BatchWrite of the model, flags included |
| Coins.CoinsViewCache.Flush | src/coins.cpp:217-222 | refines Flush of the model and does not throw from a consistent state |
| Coins.CoinsViewCache.Uncache | src/coins.cpp:224-231 | refines Uncache of the model and keeps the accounting |
| AddrModel.CreateKeeps | src/addrman.cpp:87-97 | a created entry keeps all indexes, tables and counters consistent and is the one new entry without a slot |
| AddrModel.SwapKeeps | src/addrman.cpp:99-117 | swapping two places of the random order keeps the invariant and changes nothing else |
| AddrModel.DeleteKeeps | src/addrman.cpp:119-131 | deleting an entry without slots keeps the invariant; its two assertions and the positions it uses are right |
| AddrModel.UnrefKeeps | src/addrman.cpp:133-146 | emptying a slot of the new table keeps the invariant; the holder's reference count was positive |
| AddrModel.PromoteKeeps | src/addrman.cpp:189-193 | moving an entry without slots to its free tried slot keeps the invariant |
| AddrModel.DemoteKeeps | src/addrman.cpp:167-176 | taking an entry out of the tried table keeps the invariant and leaves it without slots |
| AddrOps.ClearNewKeeps | src/addrman.cpp:133-146 | ClearNew keeps the invariant and orphans nobody |
| AddrOps.UnrefAll | src/addrman.cpp:148-160 | after the loop over all buckets no slot holds the entry and its count is zero, as asserted |
| AddrOps.EvictKeeps | src/addrman.cpp:166-189 | making room in the tried table keeps the invariant, frees the slot and orphans nobody |
| AddrOps.MakeTriedKeeps | src/addrman.cpp:148-194 | the entry ends in its tried slot, the displaced one is a new entry again, all other tried slots are unchanged, the whole invariant holds |
| AddrOps.EvictedIsNew | src/addrman.cpp:166-188 | the tried entry that had to make room survives as a new entry in the slot its own source selects |
| AddrOps.GoodFindsBucket | src/addrman.cpp:224-240 | a new entry is always found in some bucket, so Good_ never gives up on one |
| AddrOps.GoodEffect | src/addrman.cpp:196-260 | an unknown address changes nothing; a known one is recorded and moved to its tried slot, or waits if that is taken and the occupant is to be tested first |
| AddrOps.GoodKeeps | src/addrman.cpp:196-260 | Good_ keeps the invariant and the collisions sound |
| AddrOps.StatisticsKeep | src/addrman.cpp:335-355 | Attempt_, Connected_ and SetServices_ keep the invariant |
| AddrOps.AddKeeps | src/addrman.cpp:262-333 | Add_ keeps the invariant in every branch, including overwriting, refusing and deleting again |
| AddrOps.AddedIff | src/addrman.cpp:304-332 | an unknown address is kept exactly when its slot is free, holds a terrible entry, or holds one that has another slot |
| AddrOps.AddedWhere | src/addrman.cpp:304-332 | a kept address takes the slot its source selects, no other slot changes, and its entry has the announced time less the penalty, the announced services, this source and no history; a refused one is gone again |
| AddrOps.ResolveKeeps | src/addrman.cpp:545-602 | one iteration of ResolveCollisions_ keeps the invariant and the collisions sound |
| AddrOps.ResolveEffect | src/addrman.cpp:545-602 | in times and tables: an entry that is gone or not valid, or whose slot is held by one that succeeded within four hours, just stops waiting; nothing happens while the holder has a minute to connect or has not been tried and the 40 minutes are not over; otherwise the entry takes the slot and stops waiting, and the holder is a new entry again |
| AddrOps.NeverUncollides | src/addrman.cpp:586-629 | a waiting entry that exists finds its tried slot occupied by a tried entry: the "not a collision anymore" branch is never taken and index -1 never used |
| AddrStats.KeptIff | src/addrman.cpp:39-58 | which entries are not terrible, in seconds: tried within a minute, or seen within 30 days and not in the future, with fewer than three failures or a success, and fewer than ten or a success within a week |
| AddrStats.AttemptEffect | src/addrman.cpp:335-355 | an attempt records its time, and counts as a failure only if some connection succeeded since this entry's last counted failure; nothing else changes |
| AddrStats.FailuresCountOnce | src/addrman.cpp:350-354 | without a success in between any number of failures counts as at most one |
| AddrStats.ThreeFailures | src/addrman.cpp:39-58 | an entry that never succeeded is terrible a minute after its third counted failure |
| AddrStats.GoodIsKept | src/addrman.cpp:39-58 | an entry that succeeded is kept for a week while it is announced, however often it fails after that |
| AddrStats.ConnectedEffect | src/addrman.cpp:507-525 | the end of a connection renews the time of the entry unless that is at most 20 minutes old |
| AddrStats.SetServicesEffect | src/addrman.cpp:527-543 | the services of exactly this entry are replaced |
| AddrStats.RefreshedIff | src/addrman.cpp:276-284 | a known entry gains the announced services; its time only moves forward, to the announced time less the penalty, exactly if it is missing or more than an hour behind, or a day if the announced time is itself a day old |
| AddrStats.KnownAdded | src/addrman.cpp:262-333 | adding a known address: exactly when it gets one more slot, which one, with which odds, and that nothing else in the tables changes |
| AddrGroups.SlotsAre | src/addrman.cpp:12-37 | the tried slot is in one of eight buckets of the address range, the new slot in one of 64 of the source's range, the same for all addresses of one range |
| AddrGroups.TriedRangeBound | src/addrman.h:101-117 | in every consistent state the addresses of one range hold at most 512 of the 16384 tried slots |
| AddrGroups.FloodBound | src/addrman.h:101-117 | over every run, announcements from one range change at most 4096 of the 65536 new slots, all in the buckets of that range, and none of the tried table |
| AddrOps.StepKeeps | src/addrman.cpp:87-629 | every call keeps the whole check; an occupied tried slot stays occupied; never more than ten entries wait |
| AddrOps.RunInv | src/addrman.cpp:87-629 | the same for every run of calls with positive times |
| AddrOps.ClearSoundIff | src/addrman.h:556-578 | clearing leaves a sound state, under any new key, exactly when nothing was waiting |
| AddrOps.StaleNext | src/addrman.cpp:304-332 | after clearing, the address that is given a waiting id is a live waiting entry with an empty tried slot exactly when it is kept |
| AddrOps.StaleCollision | src/addrman.h:556-578 | in particular the first address added after clearing, if id 0 was waiting |
| AddrOps.StaleRun | src/addrman.h:556-578 | for every waiting id n, n + 1 additions of unknown addresses lead to that |
| AddrOps.ClearStaleIff | src/addrman.h:556-578 | after clearing, whatever the new key, some run of calls leads to a waiting entry with an empty tried slot exactly when something was waiting |
| AddrMan.BucketTable.Wipe | src/addrman.h:561-570 | the clearing loops leave an empty table |
| AddrMan.AddrMan.Clear | src/addrman.h:556-578 | the new key is used and everything but the collisions is reset; the state is sound exactly when nothing was waiting, and can otherwise go stale |
| AddrMan.AddrMan.Create | src/addrman.cpp:87-97 | refines Create of the model |
| AddrMan.AddrMan.SwapRandom | src/addrman.cpp:99-117 | refines SwapRandom of the model |
| AddrMan.AddrMan.Delete | src/addrman.cpp:119-131 | refines Delete of the model |
| AddrMan.AddrMan.ClearNew | src/addrman.cpp:133-146 | refines ClearNew of the model on the bucket arrays |
| AddrMan.AddrMan.UnrefAllBuckets | src/addrman.cpp:150-158 | the loop over the 1024 buckets removes exactly the entry's slots |
| AddrMan.AddrMan.Evict | src/addrman.cpp:166-189 | refines Evict of the model |
| AddrMan.AddrMan.MakeTried | src/addrman.cpp:148-194 | refines MakeTried of the model |
| AddrMan.AddrMan.FindBucket | src/addrman.cpp:224-235 | the search from a random bucket finds one exactly if there is one |
| AddrMan.AddrMan.Good | src/addrman.cpp:196-260 | refines Good of the model |
| AddrMan.AddrMan.Place | src/addrman.cpp:311-331 | refines the second half of Add_ |
| AddrMan.AddrMan.Add | src/addrman.cpp:262-333 | refines Add of the model; the result tells that the address was unknown and routable |
| AddrMan.AddrMan.Attempt | src/addrman.cpp:335-355 | refines Attempt of the model |
| AddrMan.AddrMan.Connected | src/addrman.cpp:507-525 | refines Connected of the model |
| AddrMan.AddrMan.SetServices | src/addrman.cpp:527-543 | refines SetServices of the model |
| AddrMan.AddrMan.GetAddr | src/addrman.cpp:482-505 | returns at most the number asked for, from different entries that are not terrible, and all such entries if there are fewer; only the random order changes |
| AddrMan.AddrMan.ResolveOne | src/addrman.cpp:547-600 | refines one iteration of ResolveCollisions_, whose effect is AddrOps.ResolveEffect |
| AddrMan.AddrMan.ResolveCollisions | src/addrman.cpp:545-602 | every waiting entry is resolved exactly once, one after the other, and the state stays sound |
| AddrMan.AddrMan.SelectTriedCollision | src/addrman.cpp:604-629 | returns the tried entry in the waiting entry's slot, or nothing and forgets an entry that is gone |
| AddrCheck.CheckedIffInv | src/addrman.cpp:405-479 | the invariant of every run is what the manager's own check decides, plus the part it does not look at |
| AddrCheck.RandomSize | src/addrman.cpp:410-411 | in a consistent state the random order is as long as both counters together |
| AddrCheck.EveryPlaceTaken | src/addrman.cpp:410-432 | entries with their own places and matching sizes make the random order a permutation |
| AddrCheck.CheckEntries | src/addrman.cpp:413-437 | the first loop accepts exactly consistent entries and sorts them into tried and new |
| AddrCheck.CheckTried | src/addrman.cpp:444-472 | the second loop accepts exactly a tried table holding every tried entry in its slot |
| AddrCheck.CheckNew | src/addrman.cpp:458-474 | the third loop accepts exactly a new table with right positions and reference counts |
| AddrCheck.Check | src/addrman.cpp:405-479 | the check returns 0 exactly on checked states, hence on every state of a run |
| AddrFile.LoadOrdered | src/addrman.h:461-548 | whatever a file says, the random order of what is loaded is consistent, so pruning is safe |
| AddrFile.LoadSound | src/addrman.h:411-554 | a file with distinct addresses and sensible times loads into a consistent manager under any bucketing and any bucket lists |
| AddrFile.ReadableIff | src/addrman.h:430-459 | a file is turned down exactly if its compatibility byte is not one of 32 to 35 or it has more entries than there are slots |
| AddrFile.HomeIs | src/addrman.h:492-505 | an entry is read into the last bucket that lists it, or into the first bucket if none does |
| AddrFile.ListsIgnored | src/addrman.h:515-537 | the bucket lists make no difference in an older format, for another AS map, or with another number of buckets |
| AddrFile.FormatsAlike | src/addrman.h:515-537 | formats 2 and 3 are read alike |
| AddrFile.SavedReadable | src/addrman.h:453-459 | a saved file never exceeds the limits the loader checks |
| AddrFile.RoundTrip | src/addrman.h:350-554 | saving and loading under the same bucketing loses no address: tried table identical up to renaming of ids, every new entry in exactly one of its old slots, invariant again |
| AddrStore.CountersSuffice | src/addrman.h:376-390 | the two assertions on the counters hold |
| AddrStore.WriteEntries | src/addrman.h:372-391 | the loops write the entries in order and number the new ones |
| AddrStore.Serialize | src/addrman.h:350-409 | the loops produce the saved file |
| AddrStore.ReadTried | src/addrman.h:471-490 | tried entries go to their slots, and those whose slot is taken are counted as lost |
| AddrStore.Unserialize | src/addrman.h:411-554 | throws exactly on unreadable files, otherwise produces the loaded state; every record is an entry or counted as lost |
| AddrStore.SaveAndLoad | src/addrman.h:350-554 | the round trip as it runs: success, nothing lost, same entries |
| CheckQueue.TakeBatch | src/checkqueue.h:107-113 | the batch is the end of the queue, last check first |
| CheckQueue.BatchIsFair | src/checkqueue.h:101-106 | a batch of several checks leaves as many for each other thread, and is as large as that and the limit allow |
| CheckQueue.EverySchedule | src/checkqueue.h:66-157 | no schedule is excluded: each thread can go on from where it is, and notify_one may wake any blocked worker |
| CheckQueue.NextInv | src/checkqueue.h:66-157 | every atomic step of any thread keeps the protocol invariant |
| CheckQueue.RunInv | src/checkqueue.h:66-157 | so does every run of any length |
| CheckQueue.CountersExact | src/checkqueue.h:66-157 | nTodo is the queued checks plus those of unfinished batches; no check runs more often than it was added; the batch divisor is positive |
| CheckQueue.WaitIsExact | src/checkqueue.h:88-96 | Wait returns exactly the conjunction of all checks added since it last returned, and true only if each ran once |
| CheckQueue.NoLostWakeup | src/checkqueue.h:75-100 | when the master is blocked and not notified, the queue is empty and a running worker still has checks to count |
| CheckQueue.NeverStuck | src/checkqueue.h:66-157 | before Wait returns some thread can always take a step |
| CheckQueue.NextAwake | src/checkqueue.h:145-157 | every step keeps: while checks are queued, some worker is not blocked |
| CheckQueue.WorkersNeverStuck | src/checkqueue.h:75-157 | no wake-up of the workers is lost: in every reachable state with queued checks some worker is not blocked and can go on, without the master and without a spurious wake-up |
| CheckQueue.WorkersDrain | src/checkqueue.h:66-157 | so with at least one worker the workers alone can always empty the queue |
| CheckQueue.StepShrinks | src/checkqueue.h:66-157 | every step but Add, Wait and a spurious wake-up decreases a measure |
| CheckQueue.WaitReturns | src/checkqueue.h:139-142 | so runs without new checks are bounded by their spurious wake-ups: Wait returns |
| Miner.AncestorCountOrders | src/miner.h:109-116 | ordering by ancestor count puts parents before children |
| Miner.UpdateDescendants | src/miner.cpp:349-364 | the inner loop lowers exactly the entries of descendants that are not being added, in all three sums |
| Miner.UpdatePackagesForAdded | src/miner.cpp:342-367 | every affected package has an entry, with size and sigops reduced by exactly the transactions added, and fees by their base fees or, for a new entry, by the modified fee of the first |
| Miner.UpdateKeepsSums | src/miner.cpp:342-367 | every entry keeps holding the sums over what is missing of its package and over the ancestors that were in the block when it last failed, and the fees less those of the ancestors included since; no entry is in the block |
| Miner.SortForBlock | src/miner.cpp:384-393 | a permutation of the package in the order of ancestor counts |
| Miner.SortedFollows | src/miner.cpp:384-393 | in that order every transaction comes after its ancestors |
| Miner.FindBest | src/miner.h:125-131 | the first modified entry by score: none is better, if the comparison is an order |
| Miner.BlockAssembler.Select | src/miner.cpp:434-458 | a modified entry is used only if it is better than the next one of mapTx; if the comparison is an order and mapTx sorted by it, nothing left to choose from is better than the choice |
| Miner.BlockAssembler.TestPackageTransactions | src/miner.cpp:312-321 | true exactly if every transaction may be included |
| Miner.BlockAssembler.OnlyUnconfirmed | src/miner.cpp:285-296 | removes exactly what is in the block |
| Miner.BlockAssembler.AddToBlock | src/miner.cpp:323-340 | appends the transaction, its fee and its sigop cost to the three lists and adds its weight, sigops and fee to the totals |
| Miner.BookedNext | src/miner.cpp:323-340 | the fee and sigop lists stay those of the block's transactions in order, and the fee total their sum |
| Miner.BlockAssembler.TestedFits | src/miner.cpp:298-306 | a package whose entry passes the test fits the limits |
| Miner.BlockAssembler.IncludePackage | src/miner.cpp:519-526 | the loop appends the sorted package and erases its entries |
| Miner.BlockAssembler.AddPackage | src/miner.cpp:517-531 | including a tested package keeps the block valid and the sums right |
| Miner.PickedIsOutside | src/miner.cpp:432-467 | the candidate is not in the block, as asserted, and its sums are what they should be |
| Miner.BlockAssembler.Evaluate | src/miner.cpp:469-531 | a candidate is included with its package exactly if its sums pass the test and all of it may be included, and is unfit otherwise; the entries and the failures stay right in both cases |
| Miner.BlockAssembler.UnfitStands | src/miner.cpp:469-531 | a reason to leave a transaction out stands whatever is included later, even its own ancestors |
| Miner.BlockAssembler.UnfitIff | src/miner.cpp:298-321 | when its ancestors in the block weigh what their sizes say, a transaction is unfit exactly if it would not pass the tests with the exact sums; in any case the sums of its whole package would not pass, or part of it may not be included |
| Miner.BlockAssembler.AddPackageTxs | src/miner.cpp:405-532 | selection terminates with an ancestor-closed, parent-before-child block within both limits and with the right fee and sigop lists and fee total; every choice is recorded: what was left to choose from is everything not unfit with the sums held for it, the choice was the best of it, and it became of it what its fees, sums and transactions say; if selection is not cut short every transaction left out is unfit; it is cut short exactly by a choice with too low a fee, or by 1001 choices in a row that do not fit while the block is within 4000 of its limit |
| Miner.RefusedThoughItFits | src/miner.cpp:355-360 | a child refused between its two parents is refused again after them although only a small part is missing |
| Miner.FeesExactIff | src/miner.h:139-151 | the fees of an entry are the modified fees of what it counts plus what was added to the fees of the ancestors included after the first |
| Miner.ChainFees | src/miner.h:139-151 | in a chain of three the error is what was added to the fee of the middle one |
| MinerScore.ScoreDecides | src/txmempool.h:320-358 | the comparison is by the lower of the fee rates of the transaction and of its package, ties by hash |
| MinerScore.RestIsOrder | src/txmempool.h:320-358 | it is an order on everything left to choose from |
| MinerScore.ChoicesAreBest | src/miner.cpp:426-458 | so in every selection no candidate left has a higher score than the one chosen |
| MinerScore.NothingPaysBoth | src/miner.cpp:473-476 | when selection stops for a low fee, nothing left pays the minimum rate both for itself and for its package |
| MinerScore.GetFeeIs | src/policy/feerate.cpp:21-37 | the rate times the size, rounded down, but at least one unless nothing is due |
| MinerScore.BelowFee | src/policy/feerate.cpp:21-37 | fees below the minimum for a size are below the rate |
| MinerScore.CheaperThanLeft | src/miner.cpp:473-476 | a pool in which a package that pays enough is left all the same |
| CuckooModel.InsertConserves | src/cuckoocache.h:392-440 | what is stored afterwards plus the one element discarded is what was stored before plus the new element |
| CuckooModel.InsertStores | src/cuckoocache.h:397-415 | an element already stored, or one of whose slots can be had, ends in one of its slots, kept and of the current epoch, and nothing else moves |
| CuckooModel.InsertPlaces | src/cuckoocache.h:392-440 | every element stays in one of its eight slots and in only one |
| CuckooModel.FindDecides | src/cuckoocache.h:469-479 | looking in eight slots decides whether an element is stored |
| CuckooModel.InsertLive | src/cuckoocache.h:392-440 | an insert adds at most one live entry to the current epoch and none to the old |
| CuckooModel.AgedLive | src/cuckoocache.h:304-310 | ageing empties the current epoch and makes it the old one |
| CuckooModel.EpochCheckLeavesRoom | src/cuckoocache.h:288-320 | after the check there is room for the insert that follows |
| CuckooModel.StepInv | src/cuckoocache.h:288-479 | every call keeps placement and the epoch bounds |
| CuckooModel.RunBounds | src/cuckoocache.h:288-479 | on every run since setup: at most B live entries in the current epoch, 2B in all, and contains is exact |
| CuckooKeep.QueryEffect | src/cuckoocache.h:469-479 | without erase a query changes nothing; with it, only the flag of the slot that holds the element; either way it finds exactly what is stored |
| CuckooKeep.EraseStillFound | src/cuckoocache.h:442-460 | an erased element is still found, as is every other |
| CuckooKeep.NextLocIs | src/cuckoocache.h:416-430 | which slot is displaced next, case by case; with distinct slots never the one last used, so the element just put in is not moved |
| CuckooKeep.FirstDeadIsFirst | src/cuckoocache.h:407-415 | of several slots that can be had the first is used |
| CuckooKeep.InsertRetains | src/cuckoocache.h:392-440 | an insert keeps every kept element but the one discarded, in its epoch, and the new element in the current one |
| CuckooKeep.AgedKeeps | src/cuckoocache.h:304-310 | a new epoch keeps exactly the elements of the current one |
| CuckooKeep.ScanSpacing | src/cuckoocache.h:311-319 | the next scan comes when the epoch could be full, but not after fewer inserts than a sixteenth of one |
| CuckooKeep.StepRetains | src/cuckoocache.h:288-479 | what one call does to a kept element |
| CuckooKeep.RunRetains | src/cuckoocache.h:288-479 | over every run a kept element stays kept and is found, unless it is erased, is the one discarded, or a second new epoch starts |
| CuckooKeep.OneAging | src/cuckoocache.h:288-320 | two new epochs are more than an epoch of inserts apart |
| CuckooKeep.KeptForAnEpoch | src/cuckoocache.h:179-187 | so an element of the current epoch is found for that many further inserts, unless it is erased or discarded |
| CuckooLoad.LoadIff | src/cuckoocache.h:339-352 | the live entries of two epochs are at most the number of slots, for every 32-bit size except 2, 3, 5, 7 and 9 |
| CuckooLoad.LoadStrictIff | src/cuckoocache.h:339-352 | they leave a slot over exactly from 21 slots on and at the odd sizes from 11 |
| CuckooLoad.RunLoad | src/cuckoocache.h:288-479 | so on every run since setup the live entries stay within two epochs, which fit in the table at all but five sizes, and at those sizes below the number of slots |
| CuckooLoad.NeverFull | src/cuckoocache.h:288-479 | so at those sizes some slot can always be discarded |
| CuckooLoad.AddNext | src/cuckoocache.h:288-415 | adding the next element of a partly filled table, in each of the three cases of the epoch check |
| CuckooLoad.EraseAndAdd | src/cuckoocache.h:312-319 | erasing and adding the last element of a whole epoch again buys one more insert before the scan |
| CuckooLoad.FillingRun | src/cuckoocache.h:288-479 | at every other size some run keeps an entry in every slot |
| CuckooLoad.NeverFullIff | src/cuckoocache.h:288-479 | whatever the hashes and the calls, the table never fills up, exactly at the sizes that leave a slot over |
| CuckooCache.BitPackedFlags.BitSet | src/cuckoocache.h:90-93 | sets exactly one flag of the packed bytes |
| CuckooCache.BitPackedFlags.BitUnset | src/cuckoocache.h:101-104 | clears exactly one flag of the packed bytes |
| CuckooCache.Cache.CountUnused | src/cuckoocache.h:296-299 | counts the live entries of the current epoch |
| CuckooCache.Cache.Age | src/cuckoocache.h:305-309 | the loop ages every entry |
| CuckooCache.Cache.EpochCheck | src/cuckoocache.h:288-320 | refines EpochCheck of the model |
| CuckooCache.Cache.Displace | src/cuckoocache.h:406-439 | the loop swaps slots as the model does, up to the depth limit |
| CuckooCache.Cache.Insert | src/cuckoocache.h:392-440 | refines Insert, conserves elements and keeps the invariant |
| CuckooCache.Cache.Contains | src/cuckoocache.h:469-479 | refines Contains of the model: finds exactly what is stored, and changes nothing unless asked to erase |
| MerkleModel.WidthHalves | src/merkleblock.h:70-72 | each level is half as wide as the one below, rounded up |
| MerkleModel.EqualNodesCollide | src/merkleblock.cpp:57-75 | with distinct txids, equal hashes at one level exhibit a collision |
| MerkleModel.ExtractBuilt | src/merkleblock.cpp:77-131 | extraction at any node reads back exactly what was built there, and finds it bad exactly if an expanded node below has two equal children |
| MerkleModel.RoundTripIff | src/merkleblock.cpp:77-180 | for every block and mask, extraction of a built tree reports exactly the matched txids, and returns the root exactly if no expanded node has two children with the same hash |
| MerkleModel.RoundTrip | src/merkleblock.cpp:77-180 | extraction of a built tree, with padding, returns the true root and exactly the matched txids with their positions, or there is a collision |
| MerkleExact.TwinsIff | src/merkleblock.cpp:118-124 | that is, if no node on the way to a match has two equal children |
| MerkleExact.NothingLeftOver | src/merkleblock.cpp:170-178 | accepted data, continued, is accepted exactly if there is no further hash and no further byte of flags |
| MerkleExact.Impossible | src/merkleblock.cpp:151-162 | no transactions, more than fit in a block, more hashes than transactions or fewer bits than hashes are turned down |
| MerkleSize.BuildBits | src/merkleblock.cpp:77-93 | at every node the bits are twice the hashes minus one, plus the single children above matches on the right edge |
| MerkleSize.FlagBitsExact | src/merkleblock.h:51-51 | the exact number of flag bits; the documented 2N - 1 holds exactly when no node with a single child lies above a match |
| MerkleSize.FlagBitsForAllMasks | src/merkleblock.h:51-51 | it holds whatever is matched exactly when the number of transactions is a power of two |
| MerkleSize.ThreeLeavesExceed | src/merkleblock.h:51-51 | three transactions with only the last one matched take 4 bits for 2 hashes |
| MerkleSize.EncodingBounds | src/merkleblock.h:40-51 | hashes N are at most the transactions and at most 1 + matched * height; bits are at most 2N - 1 + height |
| MerkleSize.EncodeAll | src/merkleblock.cpp:77-93 | with everything matched every txid is stored |
| MerkleSize.WireSizeExact | src/merkleblock.h:35-52 | the exact number of bytes, for any number of transactions |
| MerkleSize.WireSizeIff | src/merkleblock.h:35-38 | for a block within the limit on transactions, the guaranteed 10 + ceil(32.25 * N) holds exactly when the flag bits take fewer than 253 bytes or the single children do not push them into another byte |
| MerkleSize.PromiseExceeded | src/merkleblock.h:35-38 | 1012 transactions, all matched, take one byte more than guaranteed |
| MerkleModel.ExtractGenuine | src/merkleblock.cpp:95-131 | a node whose extracted hash is right reports only genuine pairs, or there is a collision |
| MerkleModel.ExtractSound | src/merkleblock.cpp:149-180 | for arbitrary data: if the returned root is that of a block, every reported pair is genuine, in order and at most once, or there is a collision |
| MerkleModel.ExtractLeft | src/merkleblock.cpp:95-131 | bits that lead to the first leaf and end there report that leaf and then run out |
| MerkleModel.NullRootForged | src/merkleblock.cpp:149-180 | for every block whose root is the null hash, any wrong first txid is reported by data that returns that root |
| MerkleModel.SoundIff | src/merkleblock.cpp:149-180 | returning a block's root proves membership, up to a collision, for every block whose root is not null, and for no other unless every wrong first txid collides with its tree |
| MerkleModel.NullRootUnsound | src/merkleblock.cpp:149-156 | such data need not involve a hash collision |
| Bits.StoreBit | src/merkleblock.cpp:12-19 | storing a bit in its byte changes only that bit |
| MerkleBlock.BitsToBytes | src/merkleblock.cpp:12-19 | packs the bits, padding with zeros |
| MerkleBlock.BytesToBits | src/merkleblock.cpp:21-28 | unpacks every bit of every byte |
| MerkleBlock.CalcHeight | src/merkleblock.cpp:138-141 | the loop finds the smallest height with one node |
| MerkleBlock.FindMatch | src/merkleblock.cpp:79-81 | whether a leaf below the node is matched |
| MerkleBlock.PartialMerkleTree.FromTxids | src/merkleblock.cpp:133-145 | the constructor appends the encoding of the whole tree |
| MerkleBlock.PartialMerkleTree.TraverseAndBuild | src/merkleblock.cpp:77-93 | appends the encoding of a node |
| MerkleBlock.PartialMerkleTree.TraverseAndExtract | src/merkleblock.cpp:95-131 | advances the counters, sets fBad and appends matches as the model does |
| MerkleBlock.PartialMerkleTree.ExtractMatches | src/merkleblock.cpp:149-180 | refines ExtractMatches of the model |
| MerkleBlock.Relay | src/merkleblock.h:88-96 | building, packing, unpacking and extracting returns root, txids and indexes |
| Arith.ArithUint256.Add | src/arith_uint256.h:137-147 | limb addition is addition modulo 2^256, also of a number to itself |
| Arith.ArithUint256.Complement | src/arith_uint256.h:71-77 | 2^256 - 1 minus the value |
| Arith.ArithUint256.Negate | src/arith_uint256.h:79-86 | negation modulo 2^256 |
| Arith.ArithUint256.Subtract | src/arith_uint256.h:149-153 | subtraction modulo 2^256 |
| Arith.ArithUint256.Increment | src/arith_uint256.h:175-182 | plus one modulo 2^256 |
| Arith.ArithUint256.Decrement | src/arith_uint256.h:192-199 | minus one modulo 2^256 |
| Arith.ArithUint256.MultiplySmall | src/arith_uint256.cpp:55-64 | multiplication by a 32-bit number modulo 2^256 |
| Arith.ArithUint256.MultiplyRow | src/arith_uint256.cpp:70-77 | one row of the long multiplication, and what it drops |
| Arith.ArithUint256.Multiply | src/arith_uint256.cpp:67-80 | multiplication modulo 2^256 |
| Arith.ArithUint256.ShiftLeft | src/arith_uint256.cpp:21-35 | multiplication by a power of two modulo 2^256, for any shift count |
| Arith.ArithUint256.ShiftRight | src/arith_uint256.cpp:38-52 | division by a power of two, for any shift count |
| Arith.ArithUint256.CompareTo | src/arith_uint256.cpp:109-118 | compares the values |
| Arith.ArithUint256.EqualTo | src/arith_uint256.cpp:121-132 | equality with a 64-bit number |
| Arith.ArithUint256.Bits | src/arith_uint256.cpp:171-183 | the bit length of the value |
| Arith.ArithUint256.SetBit | src/arith_uint256.cpp:99-99 | setting a quotient bit adds that power of two |
| Arith.ArithUint256.DivideStep | src/arith_uint256.cpp:96-103 | one step keeps quotient times divisor plus remainder |
| Arith.ArithUint256.Divide | src/arith_uint256.cpp:83-106 | the exact quotient with a remainder below the divisor; throws exactly on zero |
| Compact.OverflowExact | src/arith_uint256.cpp:216-219 | the overflow flag is set exactly when mantissa * 256^(exponent - 3) reaches 2^256 |
| Compact.Decoded | src/arith_uint256.cpp:203-244 | decoding an encoded number zeroes its low bytes and nothing else |
| Compact.CompactRoundTrip | src/arith_uint256.cpp:203-244 | for both signs: there is no overflow, the sign comes back unless the number is zero, and encoding again gives the same word |
| Compact.CanonicalIff | src/arith_uint256.cpp:203-244 | a word comes back from decoding and encoding exactly when it is zero or its mantissa is at least 0x8000 and has no bits below the point |
| Compact.SetCompact | src/arith_uint256.cpp:203-221 | the value modulo 2^256 and exact flags |
| Compact.GetLow64 | src/arith_uint256.h:247-251 | the value modulo 2^64 |
| Compact.GetCompact | src/arith_uint256.cpp:223-244 | the encoding of the value; both assertions hold |
| Compact.TargetBelow | src/chain.cpp:122-134 | a target that does not overflow can be incremented without wrapping |
| Compact.GetBlockProof | src/chain.cpp:122-135 | floor(2^256 / (target + 1)) for every usable word, without wrap or division by zero; zero otherwise |
| Compact.WorkPositiveIff | src/chain.cpp:122-135 | a block counts as work exactly if its target is not negative, does not overflow and has a mantissa; the work then fits in 256 bits |
| Compact.WorkOrder | src/chain.cpp:122-135 | a lower target is at least as much work |
| Chain.InvertIsAnd | src/chain.cpp:71-71 | clearing the lowest one bit is n & (n - 1) |
| Chain.LowestOne | src/chain.cpp:70-71 | it subtracts the largest power of two dividing the number |
| Chain.GetSkipHeight | src/chain.cpp:74-82 | the height to jump to is lower |
| Chain.AncestorTwice | src/chain.cpp:84-109 | an ancestor of an ancestor is the ancestor |
| Chain.BlockIndex.GetAncestor | src/chain.cpp:84-109 | following skip pointers ends where walking the parents ends, in exactly the counted number of steps when every skip pointer is set |
| ChainSteps.OddNext | src/chain.cpp:92-101 | from an odd height the skip is taken whenever it does not go too far |
| ChainSteps.EvenNext | src/chain.cpp:92-101 | from an even height, unless the skip of the parent is better |
| ChainSteps.OnesSteps | src/chain.cpp:84-109 | from a height that ends in m ones, the steps to a distance below 2^m are bounded by a quadratic function of m |
| ChainSteps.OnesBoundClosed | src/chain.cpp:84-109 | that function is (m * m + 6 * m) / 4, rounded up |
| ChainSteps.StepsBound | src/chain.cpp:78-109 | from any height, going back less than 2^n blocks takes at most (n * n + 10 * n + 13) / 4 steps |
| Chain.BlockIndex.BuildSkip | src/chain.cpp:116-120 | the pointer set is the ancestor it should be, and the tree stays right |
| Chain.AddBlock | src/chain.cpp:116-120 | a block added on top of any block extends a right tree, in which every skip pointer is set |
| Chain.LinkedIsPath | src/chain.h:452-488 | a linked vector is the list of ancestors of its last block |
| Chain.CChain.FoundByHeight | src/chain.h:461-488 | the blocks of the chain are exactly those found by height, from 0 up to the tip |
| Chain.CChain.SetTip | src/chain.cpp:11-21 | whatever the chain was, it becomes the ancestors of the tip |
| Chain.CChain.FindFork | src/chain.cpp:51-60 | the highest ancestor in the chain; null exactly if there is none |
| Chain.LastCommonAncestor | src/chain.cpp:156-171 | the highest common ancestor; null exactly for different roots; the assertion holds |
| Chain.CChain.StepBack | src/chain.cpp:36-43 | both ways of stepping back give the ancestor |
| Chain.LocatorSize | src/chain.cpp:23-49 | at most 12 + ceil(log2(height + 1)) entries |
| Chain.LocatorGaps | src/chain.cpp:30-46 | the first twelve entries are consecutive, then every gap is twice the one before |
| Chain.CeilLog2Is | src/chain.cpp:23-49 | the logarithm in that bound is the least exponent that reaches the number |
| Chain.CChain.LocatorFrom | src/chain.cpp:30-46 | ancestors at distances 0 to 11 and then at doubling steps, strictly descending, ending at height 0 |
| Chain.CChain.GetLocator | src/chain.cpp:23-49 | the same from a block or from the tip |
| Bech32.PolyMod | src/bech32.cpp:33-90 | the loop computes the checksum state |
| Bech32.StepLinear | src/bech32.cpp:61-88 | the step is linear over exclusive or |
| Bech32.StepInjective | src/bech32.cpp:61-88 | only the zero state leads to zero |
| Bech32.PolyLinear | src/bech32.cpp:33-90 | the checksum of a sum is the sum of the checksums |
| Bech32.PolyInjective | src/bech32.cpp:33-90 | different states stay different whatever follows |
| Bech32.BurstDetected | src/bech32.cpp:33-90 | words of any length differing within six consecutive symbols have different checksums |
| Bech32.ChecksumVerifies | src/bech32.cpp:114-135 | the created checksum is accepted |
| Bech32.ChecksumUnique | src/bech32.cpp:114-135 | and no other is |
| Bech32.ExpandHRP | src/bech32.cpp:99-111 | high bits, zero, low bits |
| BechExact.ExpandedIs | src/bech32.cpp:99-111 | each character of the prefix is split in its upper and lower bits, with a zero between the two halves |
| Bech32.VerifyChecksum | src/bech32.cpp:114-121 | decides acceptance |
| Bech32.CreateChecksum | src/bech32.cpp:124-135 | the loop extracts the six symbols |
| Bech32.BurstRejected | src/bech32.cpp:114-121 | changing up to six consecutive symbols of an accepted word makes it rejected |
| BechDistance.Period | src/bech32.cpp:44-47 | multiplying 1023 times by the chosen element of GF(1024) is the identity |
| BechDistance.OrderExact | src/bech32.cpp:44-47 | exactly the exponents that are multiples of 1023 fix a nonzero element: it is primitive |
| BechDistance.FeedbackValue | src/bech32.cpp:82-87 | what is fed back has, at three consecutive powers of that element, the value of the top symbol times x^6: they are roots of the generator |
| BechDistance.StepValue | src/bech32.cpp:61-88 | a step multiplies the value at a root by the root and adds the symbol |
| BechDistance.RemainderKeepsValue | src/bech32.cpp:33-90 | the checksum state of a word has the value of the word at each of the three roots |
| BechDistance.Vandermonde | src/bech32.cpp:44-47 | three terms with different exponents that vanish at three consecutive powers are zero |
| BechDistance.ThreeErrorsDetected | src/bech32.cpp:44-46 | words of any length that differ in up to three symbols within a window of 1023 have different checksums |
| BechDistance.ThreeErrorsRejected | src/bech32.cpp:114-121 | changing up to three symbols of an accepted word within such a window makes it rejected |
| Bech32.DecodeEncoded | src/bech32.cpp:143-190 | decoding inverts encoding for every lowercase printable prefix and data within 90 characters |
| Bech32.EncodeDecoded | src/bech32.cpp:143-190 | whatever is decoded encodes to the same string in lower case |
| BechExact.DecodedIff | src/bech32.cpp:159-190 | a string is decoded to a prefix and data exactly if, apart from case, it is their encoding, the prefix is not empty, and it has at most 90 characters, all printable and not of mixed case |
| BechExact.KnownEncoding | src/test/bech32_tests.cpp:14-30 | the prefix a without data is encoded as a12uel5l, and the same in upper case is decoded |
| Bech32.Encode | src/bech32.cpp:143-156 | the loop builds the encoded string |
| Bech32.CheckCharacters | src/bech32.cpp:160-167 | accepts exactly printable strings without mixed case |
| Bech32.Decode | src/bech32.cpp:159-190 | returns prefix and data, or nothing on each of the error paths |
| Radix.DigitsUnique | src/base58.cpp:96-117 | digits without a leading zero are the digits of their value |
| Radix.EncodeFits | src/base58.cpp:97-98 | 256^n <= 58^(n * 138 / 100 + 1): the buffer always suffices |
| Radix.DecodeFits | src/base58.cpp:51-53 | 58^n <= 256^(n * 733 / 1000 + 1): the buffer always suffices |
| Base58.MultiplyAdd | src/base58.cpp:61-68 | the in-place loop multiplies and adds, keeps the digits minimal and uses up the carry |
| Base58.ConvertBytes | src/base58.cpp:96-113 | the buffer holds the bytes in base 58; the assertion on the carry holds |
| Base58.Encode | src/base58.cpp:87-125 | zeros become '1's, the rest its digits |
| Base58.DecodeDigits | src/base58.cpp:51-71 | the digits become bytes, or a bad character or the length limit is reported; the assertion on the carry holds |
| Base58.Decode | src/base58.cpp:38-85 | white space around is skipped, other white space refused, the limit respected |
| Base58.DecodeEncoded | src/base58.cpp:38-125 | decoding inverts encoding whenever the result may be that long |
| Base58.EncodeDecoded | src/base58.cpp:38-125 | encoding what was decoded gives the text without the white space around it |
| Base58.DecodedIff | src/base58.cpp:38-125 | a text decodes to some bytes exactly when, apart from white space around it, it is their encoding, and there are not too many |
| RollingBloom.FastModBelow | src/bloom.cpp:209-211 | the position is within the filter |
| RollingBloom.CellExact | src/bloom.cpp:213-242 | a position holds the generation of its last write for exactly as long as that is at most two generations back |
| RollingBloom.ContainsExact | src/bloom.cpp:250-262 | the filter contains exactly the keys all of whose positions were set that recently |
| RollingBloom.FastModIs | src/bloom.cpp:206-211 | a 32-bit hash is scaled down to equal parts of its range |
| RollingBloom.EveryCell | src/bloom.cpp:233-241 | every position can be hit by some hash |
| RollingBloom.LiveIff | src/bloom.cpp:213-232 | the inserts at most two generations back are exactly the last two to three generations, counted exactly |
| RollingBloom.LiveContained | src/bloom.h:93-94 | every key at most two generations back is contained |
| RollingBloom.RecentContained | src/bloom.h:93-94 | so the last two to three generations of keys are contained |
| RollingBloom.LastElementsContained | src/bloom.h:93-94 | a filter for n elements contains the last n keys, and the last 1.5 n when the current generation is full |
| RollingBloom.WipeLevel | src/bloom.cpp:224-228 | the word masks clear exactly the positions of the reused generation |
| RollingBloom.RollingBloomFilter.Wipe | src/bloom.cpp:221-229 | the loop does so for every position |
| RollingBloom.RollingBloomFilter.MarkOne | src/bloom.cpp:238-240 | setting a position writes the generation there and nowhere else |
| RollingBloom.RollingBloomFilter.Mark | src/bloom.cpp:233-241 | the loop writes exactly the positions of the key |
| RollingBloom.RollingBloomFilter.Insert | src/bloom.cpp:213-242 | the filter holds what the history of inserts says |
| RollingBloom.RollingBloomFilter.Contains | src/bloom.cpp:250-262 | decides containment |
| RollingBloom.RollingBloomFilter.Reset | src/bloom.cpp:270-276 | an empty history |

## Left out

- Coins.CoinsViewCache.BatchWrite: the best-block hash it also sets is not modelled.
- Cursors, `AccessCoin`, `HaveInputs` and the error catcher: easy members.
- Recovery after a failed flush, and the split of a database write into several batches.
- Thread interruption, the memory order of atomics and the locks themselves: the steps of the check queue are atomic where the code holds the mutex; the cuckoo cache is sequential.
- `Select_` and `GetChance` of the address manager: floating point, and they end only with probability one.
- AddrStore.Serialize: the file is a record of its parts; the byte stream, the key and the XOR of the bucket count are not modelled.
- AddrStore.Unserialize: builds a new manager, so collisions waiting in a manager that is overwritten are not part of it.
- AddrMan.AddrMan.MakeTried: the counter of new entries is adjusted together with the move instead of before it; the state after the call is the same.
- AddrMan.AddrMan.ResolveCollisions: the order in which waiting entries are visited is left open.
- AddrCheck.Check: reading a missing address does not insert it into the index, as the original's lookup would.
- Miner.BlockAssembler.AddPackageTxs: the counters of packages and updates kept for logging are not modelled.
- MinerScore.ScoreDecides: the products are exact; the rounding of the code's doubles is not modelled. The results of Miner hold for any comparison.
- `CreateNewBlock` beyond package selection, and proof-of-stake mining.
- CuckooCache.Cache.Insert: the memory-based sizing of the cache is not modelled.
- MerkleBlock.Relay: the bloom-filter matching that produces the mask is not modelled.
- Arith.ArithUint256.Divide: conversions to hexadecimal, to double and to byte order, and the bitwise operators, are not modelled.
- Chain.CChain.GetLocator: the entries are blocks rather than their hashes; `FindEarliestAtLeast` and `GetBlockProofEquivalentTime` are not modelled.
- BechDistance.ThreeErrorsRejected: that four errors within 89 characters are detected as well, which the source found by search, is not proved.
- Base58.Decode: the checksummed variants, which add a hash, are not modelled.
- RollingBloom.RollingBloomFilter.Insert: the sizing formulas and false-positive rates are floating point and not modelled.
- `CBloomFilter`, compact blocks, block filters, bans, networking, RPC, wallet and start-up.
