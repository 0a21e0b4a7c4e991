# A verified model of the node's core structures

This project models, in Dafny, the algorithmic core of a Bitcoin/Dash-derived node and proves what its code and
documentation promise of it. Nothing was executed; every statement below is a contract that the verifier checks.
`dafny verify dfyconfig.toml` checks the whole project.

| file | models |
|---|---|
| `CheckQueue.dfy` | the master/worker queue for script checks, as code under one mutex and as a transition system over all interleavings |
| `Coins.dfy` | the stack of write-back coin caches and its agreement with plain maps |
| `AddrMan.dfy`, `AddrManStore.dfy`, `AddrManCheck.dfy` | the address manager, its consistency over whole runs, its file format and its self-check |
| `Arith.dfy`, `Compact.dfy` | multi-limb integers, the compact target encoding and the work of a block |
| `RollingBloom.dfy` | the rolling Bloom filter with generation labels |
| `Chain.dfy` | the block tree with skip pointers, the active chain, forks and locators |
| `Bits.dfy`, `Gcs.dfy` | bit streams and Golomb-coded set filters (section "Golomb-Coded Sets" of BIP 158) |
| `Cuckoo.dfy` | the cuckoo cache with lazy erasure and epochs |
| `DbTransaction.dfy` | nestable database transactions and their merge iterator |
| `CompactBlock.dfy` | compact block reconstruction (BIP 152) |
| `Base58.dfy`, `Bech32.dfy`, `Bech32Field.dfy` | the two text codecs (the second after section "Bech32" of BIP 173), and the second's checksum as a remainder over GF(32) |
| `Basics.dfy` | what several modules share |

Objects that the source updates in place are classes, buffers worked on in place are arrays, and every loop of the
source is a method with invariants; the functions and lemmas beside them say what those methods mean.

## Where the code departs from what is said about it

The model follows the code. In these places the documentation or the obvious expectation says something else.

- A coin added without declaring a possible overwrite, while the parent cache still holds it unspent, gets the FRESH flag
  wrongly: `Coins.MisappliedFreshResurrects` shows the failure and `Coins.AddKeepsLayerIff` the exact condition.
- `SpendCoin` also returns true for a coin that is cached as spent, although its comment promises no effect then.
- `Add_` returning true does not mean that the address stayed: `AddrMan.AddrManager.Add` gives the exact condition.
- In `ResolveCollisions_` the branch for a tried slot that is free again is never taken, and in `Good_` neither is the one
  for an entry in no bucket.
- `Clear` of the address manager keeps the collision candidates: `AddrMan.AddrManager.Clear` has the exact condition, and
  `AddrMan.ReachCandidate` with `AddrMan.StaleCandidate` a run in which it matters.
- An address file read with ports not told apart builds its index with full ports: `AddrManStore.IndexRule` and
  `AddrManStore.IndexAfter`. The self-check looks up full addresses too, so it then rejects a consistent manager:
  `AddrManCheck.ConsistentPasses`.
- A refused `AddCoin` has already lowered the memory account: `Coins.CoinsView.AddCoin`.
- A built block filter with more than 0x02000000 elements is refused by the decoding constructor and by every match,
  because the count reader has a size limit: `Gcs.BuiltIsAccepted`.
- The epoch size of the cuckoo cache is documented as 45 percent of the size; the product is computed in 32 bits:
  `Cuckoo.EpochSizeIff`. The comment on the first displacement names the first position, the code takes the second.
- `FillBlock` is meant not to be called twice, but a call with too few transactions returns before the object is spent and
  after transactions were moved out: `CompactBlock.PartialBlock.FillBlock` and `CompactBlock.Retry` have the exact rules,
  `CompactBlock.RetrySmallest` a block.
- A received block filter whose differences add up to 2^64 or more is accepted, and then a stored value may not be found:
  `Gcs.MatchInternal` says which are, `Gcs.WrappedFilter` is such a filter.

## Model

| member | source | states |
|---|---|---|
| `CheckQueue.BatchSize` | src/checkqueue.h:110-111 | a thread takes at least one check, never more than are queued, and never more than the batch limit |
| `CheckQueue.SharedQueue.Add` | src/checkqueue.h:166-186 | the new checks end up behind the queued ones in order, and the outstanding count grows by their number |
| `CheckQueue.SharedQueue.Loop` | src/checkqueue.h:68-129 | one pass through the critical section moves the shared state exactly as the transition system's section does |
| `CheckQueue.SharedQueue.Settle` | src/checkqueue.h:90-111 | after the clean-up the thread returns the verdict, sleeps, or takes a batch |
| `CheckQueue.SharedQueue.TakeBatch` | src/checkqueue.h:110-121 | the batch is the tail of the queue in reverse, the rest of the queue is untouched |
| `CheckQueue.RunKeepsInv` | src/checkqueue.h:68-186 | in every state of every interleaving of one master and any number of workers the counters are exact, no check is lost or duplicated, the verdict is that of the checks that ran, and a sleeping master is awaited |
| `CheckQueue.RunIsSafe` | src/checkqueue.h:68-129 | the outstanding count is the queue plus the batches out, idle and total counts are exact, and no check is run twice |
| `CheckQueue.WaitReturnsVerdict` | src/checkqueue.h:89-101 | when the master returns, it returns true exactly if every check added since its last return is true; then each was run exactly once, and otherwise each was run or skipped exactly once |
| `CheckQueue.SleepingMasterIsAwaited` | src/checkqueue.h:79-107 | a sleeping master has been notified or a worker holds a batch whose completion will notify it |
| `CheckQueue.StepUsesWork` | src/checkqueue.h:68-129 | every step of any thread during a wait either changes nothing or uses up work |
| `CheckQueue.WaitIsBounded` | src/checkqueue.h:160-163 | a wait lasts at most as many effective steps as there is work |
| `CheckQueue.WaitIsNeverStuck` | src/checkqueue.h:160-163 | during a wait some thread can always take a useful step or return: no deadlock |
| `Coins.AddPuts` | src/coins.cpp:68-100 | adding an unspent coin shows the old view with the coin put in, whatever flags result |
| `Coins.AddKeepsLayerIff` | src/coins.cpp:68-100 | the flags stay truthful about the parent exactly when the overwrite was declared possible, the coin is cached already, or the parent has none |
| `Coins.MisappliedFreshResurrects` | src/coins.h:137-160 | an undeclared overwrite of an uncached coin, followed by a spend, leaves the coin visible: the concrete failure behind the condition |
| `Coins.SpendRemoves` | src/coins.cpp:114-130 | spending removes the coin from the view and keeps the flags truthful |
| `Coins.FetchKeeps` | src/coins.cpp:42-57 | caching what the parent shows changes nothing visible and keeps the flags truthful |
| `Coins.UncacheKeeps` | src/coins.cpp:224-231 | dropping a clean entry changes nothing visible |
| `Coins.MergeEntry` | src/coins.cpp:161-215 | one entry of a truthful child merges without the misapplied-FRESH failure, leaves the parent entry truthful about the grandparent, and makes the parent show what the child showed |
| `Coins.FlushLaw` | src/coins.cpp:161-222 | a whole child cache merges with no misapplied flag, the merged cache is truthful, and its view is the child's view |
| `Coins.DbFlushLaw` | src/coins.cpp:161-222 | writing only the dirty entries of a truthful cache to the database gives the cache's view |
| `Coins.UsageRemove` | src/coins.cpp:38-40 | the tracked memory is the sum over entries: taking one away lowers it by that entry |
| `Coins.UsagePut` | src/coins.cpp:68-100 | replacing an entry changes the tracked memory by the difference |
| `Coins.CoinsView.GetCoin` | src/coins.cpp:59-66 | finds exactly the unspent coins of the view, changing nothing visible on any level |
| `Coins.CoinsView.FetchCoin` | src/coins.cpp:42-57 | finds cached entries and coins below, and caches a coin read from below as clean |
| `Coins.CoinsView.AddCoin` | src/coins.cpp:68-100 | refuses exactly an undeclared overwrite of a cached unspent coin, after taking its memory out of the account; otherwise the view gains the coin, and unspendable coins change nothing |
| `Coins.CoinsView.SpendCoin` | src/coins.cpp:114-130 | the view loses the coin, levels below are untouched, and the moved-out coin is the one that was visible |
| `Coins.CoinsView.HaveCoin` | src/coins.cpp:141-144 | true exactly for a visible coin |
| `Coins.CoinsView.Uncache` | src/coins.cpp:224-231 | drops exactly a clean entry and changes nothing visible |
| `Coins.CoinsView.BatchWrite` | src/coins.cpp:161-215 | fails exactly for a misapplied FRESH flag; for a truthful child it never fails and the view becomes the child's view |
| `Coins.CoinsView.Flush` | src/coins.cpp:217-222 | never fails, the base shows what this view showed, the cache is empty, and this view is unchanged |
| `Coins.AddCoins` | src/coins.cpp:102-112 | all spendable outputs are put in, none fails, levels below are untouched |
| `Coins.RunNested` | src/coins.cpp:36-231 | a cache opened over a stack, used and flushed or dropped, acts like a copy of the top map |
| `Coins.Run` | src/coins.cpp:36-231 | every lawful run over every stack of caches shows, on every level, what the same run shows on plain maps |
| `AddrMan.AddrManager.Find` | src/addrman.cpp:74-90 | with the index in order, the one entry of this port-normalised address, and nothing exactly if there is none |
| `AddrMan.AddrManager.Create` | src/addrman.cpp:92-107 | a fresh id, entered in the id map, the address index and the random order, which stay consistent |
| `AddrMan.AddrManager.SwapRandom` | src/addrman.cpp:109-127 | two places of the random order are swapped and the stored positions follow |
| `AddrMan.AddrManager.Delete` | src/addrman.cpp:129-146 | an entry without references leaves all structures, the counter follows, the others keep their data |
| `AddrMan.AddrManager.ClearNew` | src/addrman.cpp:148-161 | the slot becomes empty, its entry loses one reference, and is deleted exactly when that was the last |
| `AddrMan.AddrManager.MakeTried` | src/addrman.cpp:163-209 | the entry leaves every new bucket for its tried slot, an occupant goes back to its new slot, an entry displaced there loses one reference, and the counters follow; all its asserts hold |
| `AddrMan.PromotedCounts` | src/addrman.cpp:163-209 | moving an entry to tried changes the two counters by exactly the entries moved and lost |
| `AddrMan.AddrManager.Good` | src/addrman.cpp:211-279 | the whole consistency invariant is kept; the entry is promoted, or becomes a test candidate while fewer than ten wait; the bail-out for an entry in no bucket is never taken |
| `AddrMan.AddrManager.Add` | src/addrman.cpp:281-352 | the invariant is kept; a new address gets a fresh id and stays exactly if its slot has room, else it is gone again; a known one is refreshed and gets one more reference exactly under the tests of the code |
| `AddrMan.AddrManager.Attempt` | src/addrman.cpp:354-374 | only the try statistics of the exact address change |
| `AddrMan.AddrManager.Connected` | src/addrman.cpp:522-540 | the time of the exact address is raised when it is more than twenty minutes old, nothing else changes |
| `AddrMan.AddrManager.GetAddr` | src/addrman.cpp:501-520 | at most the allowed number and share of distinct addresses worth passing on; the random order is only permuted |
| `AddrMan.AddrManager.ResolveOne` | src/addrman.cpp:577-634 | a candidate waits, wins its tried slot, or is dropped without effect, each under the exact condition of the code |
| `AddrMan.AddrManager.ResolveCollisions` | src/addrman.cpp:577-634 | no candidate is added, ids are never reused, no tried slot is emptied, and the invariant is kept |
| `AddrMan.AddrManager.SelectTriedCollision` | src/addrman.cpp:636-661 | an existing candidate always has an occupant in its tried slot, which is returned; a vanished candidate is dropped |
| `AddrMan.AddrManager.Clear` | src/addrman.h:561-595 | everything is emptied but the candidates: the invariant holds afterwards exactly if there were none |
| `AddrMan.StaleCandidate` | src/addrman.h:561-595 | from any consistent manager with candidate 0: after Clear and one Add the whole consistency check holds, yet the candidate now names the new entry, whose tried slot is empty, so the lookup of its occupant reads -1 |
| `AddrMan.ReachCandidate` | src/addrman.cpp:211-352 | such a manager is reached from an empty one by two additions and two successes |
| `AddrMan.Run` | src/addrman.cpp:424-498 | the full consistency predicate holds after every sequence of operations with positive times; ids are never reused and tried slots once filled stay filled |
| `AddrManStore.Serialize` | src/addrman.h:337-395 | the stream holds every new entry, every tried entry and every bucket of a consistent manager, and the counter asserts hold |
| `AddrManStore.Unserialize` | src/addrman.h:397-559 | fails exactly for counts out of range; any accepted stream, also with another asmap or bucket count, gives consistent tables and counters, the new table of the one-by-one placement, in each tried slot the first record that claims it, the saved data of every entry that found a place, and, for distinct addresses, a right index exactly if ports are told apart or no loaded address has one; a lossless stream gives back every slot |
| `AddrManStore.Prune` | src/addrman.h:543-553 | exactly the new entries without a slot go, with their keys; all others keep everything but their place in the random order |
| `AddrManStore.PlaceOne` | src/addrman.h:516-541 | a saved bucket entry gets its own slot, else its primary one, else none, and no more than eight in all; nothing else changes |
| `AddrManStore.CleanTable` | src/addrman.h:516-541 | placing the pairs of a table one by one gives back the table |
| `AddrManStore.IndexAfter` | src/addrman.h:454-553 | after loading and pruning the index is right exactly if ports are told apart or all are zero |
| `AddrManStore.CountersFit` | src/addrman.h:437-445 | the counters of a consistent manager always fit the tables, so its own stream is accepted |
| `AddrManStore.SavedIsLossless` | src/addrman.h:337-395 | what a consistent manager saves loses no entry and no slot |
| `AddrManStore.RoundTrip` | src/addrman.h:337-559 | saving and loading gives, under a one-to-one renaming of ids onto those of the loaded manager, the same new table, tried table, counters, reference counts and entry data, with times in order; the address index is whole exactly if ports are told apart or all are zero, and then, without candidates, the loaded manager is consistent |
| `AddrManStore.RunAfterLoad` | src/addrman.h:337-559 | a loaded manager stays consistent over every sequence of operations |
| `AddrManCheck.Check` | src/addrman.cpp:424-498 | returns 0 exactly if every entry, both counters, both tables, the reference counts and the random order pass; the lookups may add zeros to the index and change nothing else |
| `AddrManCheck.CheckEntry` | src/addrman.cpp:434-456 | the tests on one entry pass exactly together, and the codes for them name what failed |
| `AddrManCheck.ConsistentPasses` | src/addrman.cpp:424-498 | a manager kept by the operations passes exactly if its key is not null and no entry but number 0 has a port that is normalised away |
| `AddrManCheck.PassingIsConsistent` | src/addrman.cpp:424-498 | a manager that passes, with ids in range and the index in order, is consistent in every structure and in its times |
| `AddrManStore.IndexRule` | src/addrman.h:454-472 | the index built with full ports is the right one exactly if ports are told apart or all are zero |
| `Arith.Add` | src/arith_uint256.h:132-142 | addition of values modulo two to the width |
| `Arith.Sub` | src/arith_uint256.h:144-148 | subtraction modulo two to the width |
| `Arith.Negate` | src/arith_uint256.h:74-81 | negation modulo two to the width |
| `Arith.Complement` | src/arith_uint256.h:66-72 | two to the width minus one minus the value |
| `Arith.Increment` | src/arith_uint256.h:170-177 | value plus one modulo two to the width |
| `Arith.Decrement` | src/arith_uint256.h:187-194 | value minus one modulo two to the width |
| `Arith.MulLimb` | src/arith_uint256.cpp:54-64 | multiplication by a limb modulo two to the width |
| `Arith.Mul` | src/arith_uint256.cpp:66-80 | multiplication modulo two to the width, with no 64-bit overflow in any cell |
| `Arith.ShiftLeft` | src/arith_uint256.cpp:20-35 | any left shift is multiplication by a power of two modulo two to the width |
| `Arith.ShiftRight` | src/arith_uint256.cpp:37-52 | any right shift is division by a power of two |
| `Arith.SpreadValue` | src/arith_uint256.cpp:20-52 | the limb-wise split of both shifts is multiplication by a power of two over one more limb |
| `Arith.Div` | src/arith_uint256.cpp:82-106 | fails exactly for a zero divisor and otherwise leaves the quotient |
| `Arith.Divide` | src/arith_uint256.cpp:94-105 | the shift-and-subtract loop leaves the floor quotient and, in num, the remainder |
| `Arith.CompareTo` | src/arith_uint256.cpp:108-118 | compares as the values do |
| `Arith.EqualTo` | src/arith_uint256.cpp:120-132 | true exactly if the value is the given 64-bit number |
| `Arith.SetU64` | src/arith_uint256.h:85-92 | the value becomes the given 64-bit number |
| `Arith.GetLow64` | src/arith_uint256.h:242-246 | the value modulo two to the 64 |
| `Arith.Bits` | src/arith_uint256.cpp:170-183 | the bit length of the value |
| `Arith.ValueInjective` | src/arith_uint256.h:217-217 | equal values have equal limbs |
| `Compact.SetCompact` | src/arith_uint256.cpp:203-221 | the value is the mantissa scaled by powers of 256, cut to 256 bits; the overflow flag is set exactly if the number is two to the 256 or more, the negative flag exactly for a nonzero number with the sign bit |
| `Compact.OverflowRule` | src/arith_uint256.cpp:216-219 | the size and mantissa tests are the comparison with two to the 256 |
| `Compact.GetCompact` | src/arith_uint256.cpp:223-244 | the size and mantissa are the normal form of the value, the sign bit follows, and both asserts hold |
| `Compact.EncodingUnique` | src/arith_uint256.cpp:223-244 | a number has one normal form |
| `Compact.RoundTrip` | src/arith_uint256.cpp:203-244 | decoding the encoding of x is x without the bytes below the mantissa, never more than x and off by less than one part in 2^15 |
| `Compact.Monotone` | src/arith_uint256.cpp:223-244 | a larger number never has a smaller encoding, as a number and as a compact word |
| `Compact.CanonicalIff` | src/arith_uint256.cpp:203-244 | re-encoding gives a compact word back exactly when its mantissa is normal and holds no byte below the point |
| `Compact.Idempotent` | src/arith_uint256.cpp:203-244 | the encoding of the decoded encoding is the encoding again, and zero only for zero |
| `Compact.Reencode` | src/arith_uint256.cpp:203-244 | encode, decode, encode: the same word, no overflow, the sign kept unless the number is zero, and the number cut off after its leading bytes |
| `Compact.Decoded` | src/arith_uint256.cpp:203-244 | decode, encode: a word without overflow comes back exactly if it is canonical and no minus sign stands on a zero |
| `Compact.GetBlockProof` | src/chain.cpp:122-135 | work is floor(2^256 / (target + 1)) for a usable target and zero otherwise; the division never fails |
| `Compact.WorkAntitone` | src/chain.cpp:122-135 | work is positive, fits in 256 bits, and never grows with the target |
| `Compact.TargetHasSuccessor` | src/chain.cpp:134-134 | no compact target is 2^256 - 1, so target + 1 never wraps to zero |
| `Basics.FastMod` | src/bloom.cpp:325-327 | always an index below n |
| `RollingBloom.WipedTag` | src/bloom.cpp:338-345 | the mask empties exactly the cells that carry the reused label |
| `RollingBloom.StoredTag` | src/bloom.cpp:355-356 | storing a label changes that cell and no other |
| `RollingBloom.WipeKeeps` | src/bloom.cpp:331-346 | wiping the reused label spares every key of the last two generations |
| `RollingBloom.RollingFilter.Roll` | src/bloom.cpp:331-346 | a new generation keeps every live key live |
| `RollingBloom.RollingFilter.Mark` | src/bloom.cpp:349-357 | exactly the cells of the key get the current label |
| `RollingBloom.RollingFilter.Insert` | src/bloom.cpp:329-358 | the cells of the key are relabelled, on a new generation the others with that label are emptied, nothing else changes, and every live key stays live |
| `RollingBloom.RollingFilter.Contains` | src/bloom.cpp:366-378 | true exactly if no cell of the key is empty, and true for every key among the last two generations and this one |
| `RollingBloom.RollingFilter.Reset` | src/bloom.cpp:386-392 | everything is forgotten |
| `Chain.InvertLowestOne` | src/chain.cpp:71-71 | strictly lower, and even numbers stay even |
| `Chain.SkipHeight` | src/chain.cpp:74-82 | strictly lower than the height for every height above zero |
| `Chain.Block.constructor` | src/chain.cpp:116-120 | a linked block gets the right skip pointer, so every tree grown this way is linked |
| `Chain.GetAncestor` | src/chain.cpp:84-109 | the skip-list walk returns what the plain walk along prev returns, for every height, and null out of range |
| `Chain.ActiveChain.ContainsIff` | src/chain.h:516-527 | the vector lookup tells exactly the ancestors of the tip, and Next is the successor among them |
| `Chain.ActiveChain.SetTip` | src/chain.cpp:11-21 | from any valid chain the early-stopping loop leaves the new tip's ancestor at every height |
| `Chain.ActiveChain.FindFork` | src/chain.cpp:51-60 | the highest common ancestor of the tip and the block, or null if there is none |
| `Chain.ActiveChain.GetLocator` | src/chain.cpp:23-49 | ancestors of the start block down to the root, at the heights given by doubling steps |
| `Chain.HeightClosed` | src/chain.cpp:44-45 | entry i is i below the start up to ten, then 9 + 2^(i-10) below |
| `Chain.LocatorShort` | src/chain.cpp:23-49 | heights go strictly down and a start below 2^k gives at most 11 + k entries |
| `Chain.ActiveChain.FindEarliestAtLeast` | src/chain.cpp:62-68 | the lowest block late enough and high enough, null exactly if there is none |
| `Chain.LastCommonAncestor` | src/chain.cpp:156-171 | the highest common ancestor; null exactly for blocks of different trees, and the final assert holds |
| `Bits.BitWriter.Write` | src/streams.h:567-582 | exactly the low bits of the word are appended, most significant first; fails exactly for a width out of range |
| `Bits.BitWriter.Flush` | src/streams.h:587-595 | the open byte is filled with zeros |
| `Bits.BitReader.Read` | src/streams.h:519-538 | the next bits are returned and removed; fails exactly when too few remain |
| `Bits.TopBitsOf` | src/streams.h:532-533 | shifting a word left and right cuts out exactly its next bits |
| `Gcs.MapIntoRange` | src/blockfilter.cpp:62-86 | the piecewise multiplication is floor(x * n / 2^64) with no intermediate overflow |
| `Gcs.GolombRiceEncode` | src/blockfilter.cpp:26-41 | the quotient in unary, a zero, the remainder in P bits |
| `Gcs.GolombRiceDecode` | src/blockfilter.cpp:43-55 | reads exactly one code, or fails exactly when the bits run out |
| `Gcs.DecodeCode` | src/blockfilter.cpp:26-55 | decoding undoes encoding for every P and every 64-bit number, whatever follows |
| `Gcs.DecodeCodes` | src/blockfilter.cpp:26-55 | the same for whole lists |
| `Gcs.CompactSizeRoundTrip` | src/serialize.h:289-351 | a count is read back exactly when it is within the size limit of the reader |
| `Gcs.BuildHashedSet` | src/blockfilter.cpp:96-105 | the hashes in ascending order, each as often as it occurs |
| `Gcs.Build` | src/blockfilter.cpp:134-162 | fails exactly for 2^32 elements or more; otherwise the filter codes the sorted hashes of the elements |
| `Gcs.Load` | src/blockfilter.cpp:111-132 | accepts exactly a readable count followed by that many codes and less than a byte, and then holds their 64-bit sums |
| `Gcs.BuiltIsAccepted` | src/blockfilter.cpp:111-162 | a built filter is accepted by the decoding constructor, and holds its hashes, exactly if its count is at most the reader's limit |
| `Gcs.MatchInternal` | src/blockfilter.cpp:164-194 | for sorted queries true exactly if one of them is stored before any larger value; fails exactly for an oversized count; for every filter either constructor makes |
| `Gcs.Match` | src/blockfilter.cpp:196-200 | true exactly if the scan reaches the hash of the element |
| `Gcs.MatchAny` | src/blockfilter.cpp:202-206 | true exactly if the scan reaches the hash of one of the elements |
| `Gcs.SortedReached` | src/blockfilter.cpp:164-194 | in ascending values everything stored is reached |
| `Gcs.BuildAndMatch` | src/blockfilter.cpp:134-206 | no false negatives end to end: an element of the built set is found, another exactly if its hash collides; a set beyond the reader limit is built but never matched |
| `Gcs.SendAndMatch` | src/blockfilter.cpp:111-206 | the same through the decoding constructor of another node |
| `Gcs.EncodedIsAccepted` | src/blockfilter.cpp:111-132 | the codes of any numbers, with their count, are accepted and hold the 64-bit sums |
| `Gcs.WrappedFilter` | src/blockfilter.cpp:111-200 | a filter whose sums wrap around is accepted, stores 5, and does not match an element hashed to 5 |
| `Cuckoo.EpochSizeIff` | src/cuckoocache.h:346-347 | the epoch size is 45 percent of the size exactly up to 95443717 slots; above that the 32-bit product wraps |
| `Cuckoo.Cache.constructor` | src/cuckoocache.h:338-352 | an empty cache of at least two slots |
| `Cuckoo.Cache.EpochCheck` | src/cuckoocache.h:287-319 | an ageing happens exactly when the counter is zero and the live recent slots number at least the epoch size; it keeps exactly the recent entries, now no longer recent, and otherwise no entry changes |
| `Cuckoo.Cache.Insert` | src/cuckoocache.h:391-437 | up to the ageing the content gains the element as recent and loses at most one entry, which is then gone, and none if one of the eight positions was open; all others keep their epoch; every element stays at one of its own positions and none is held twice |
| `Cuckoo.Cache.Displace` | src/cuckoocache.h:405-436 | the displacement loop conserves the content plus the element in hand |
| `Cuckoo.Cache.Contains` | src/cuckoocache.h:468-478 | true exactly if the element is in the table, also when marked discardable; erasing removes exactly its entry |
| `Cuckoo.Cache.Run` | src/cuckoocache.h:287-478 | every run of insertions and lookups moves from moment to moment by the exact step of its operation, and gives the answers recorded in the trace |
| `Cuckoo.RecentSurvives` | src/cuckoocache.h:287-478 | over any stretch with at most epoch size plus one insertions there is at most one ageing, and an element recent at its start is live and found throughout unless it was erased or left in hand |
| `Cuckoo.StaysOneAgeing` | src/cuckoocache.h:287-478 | a recent element outlives one ageing |
| `Cuckoo.AgeingsApart` | src/cuckoocache.h:287-319 | two ageings are more than an epoch size of insertions apart |
| `Cuckoo.LoadCounts` | src/cuckoocache.h:293-299 | the count the scan makes is the number of recent elements, unless the zero hash is live |
| `DbTransaction.LessTotal` | src/dbwrapper.h:557-561 | lexicographic comparison is total |
| `DbTransaction.Store.Write` | src/dbwrapper.h:610-623 | the visible map gains the pair; writes and deletes stay disjoint and the memory count exact |
| `DbTransaction.Store.Erase` | src/dbwrapper.h:671-680 | the visible map loses the key; the same invariants are kept |
| `DbTransaction.Store.Read` | src/dbwrapper.h:631-647 | the visible value on any nesting |
| `DbTransaction.Store.Exists` | src/dbwrapper.h:654-664 | true exactly for a visible key |
| `DbTransaction.Store.Clear` | src/dbwrapper.h:682-686 | the transaction shows its parent again |
| `DbTransaction.Store.Commit` | src/dbwrapper.h:688-696 | afterwards the parent shows what the transaction showed, and so does the emptied transaction |
| `DbTransaction.Store.GetMemoryUsage` | src/dbwrapper.h:702-713 | the sum of the sizes of all stored keys and values; the negative case never arises |
| `DbTransaction.MergeWalks` | src/dbwrapper.h:522-544 | the kept parent keys merged with the own ones are the visible keys in order |
| `DbTransaction.Cursor.Seek` | src/dbwrapper.h:434-439 | afterwards exactly the visible keys from the sought one on are to come, in order |
| `DbTransaction.Cursor.SeekToFirst` | src/dbwrapper.h:422-427 | afterwards all visible keys are to come, in order |
| `DbTransaction.Cursor.Next` | src/dbwrapper.h:445-458 | exactly one key is passed; both asserts hold |
| `DbTransaction.Cursor.GetKey` | src/dbwrapper.h:487-496 | the first key to come |
| `DbTransaction.Cursor.GetValue` | src/dbwrapper.h:510-519 | the visible value of that key |
| `DbTransaction.Collect` | src/dbwrapper.h:396-544 | a whole pass visits every visible key from the sought one on, once, in order, with its value, on any nesting |
| `CompactBlock.Announce` | src/blockencodings.cpp:21-31 | the message prefills the first transaction and has the short ids of the others |
| `CompactBlock.PartialBlock.Prefill` | src/blockencodings.cpp:61-77 | succeeds exactly if every prefilled transaction passes the checks, and puts each at its position |
| `CompactBlock.PlacedOpen` | src/blockencodings.cpp:61-77 | after prefilling exactly as many slots are open as there are short ids |
| `CompactBlock.PartialBlock.MapShortIds` | src/blockencodings.cpp:83-105 | the i-th short id is mapped to the i-th open slot, always below the transaction count; fails exactly for a repeated id or a bucket of more than twelve |
| `CompactBlock.PartialBlock.ScanPool` | src/blockencodings.cpp:107-134 | the pool count is the number of filled slots, every filled slot matches its short id, and in a pool without repeats no slot is lost again |
| `CompactBlock.PartialBlock.ScanExtra` | src/blockencodings.cpp:136-165 | the same for the extra transactions, where the same transaction again does no harm |
| `CompactBlock.PartialBlock.InitData` | src/blockencodings.cpp:51-170 | the exact conditions for each status; when it succeeds every matching pool or extra transaction is in its slot, short ids being injective |
| `CompactBlock.OnlyOwn` | src/blockencodings.cpp:51-170 | without a short-id collision every slot is open or holds the block's own transaction |
| `CompactBlock.PartialBlock.FillBlock` | src/blockencodings.cpp:178-211 | invalid exactly for the wrong number of missing transactions; the open slots are filled in order; the object is spent exactly if there were enough, and otherwise keeps its header with every slot before the first unserved one empty |
| `CompactBlock.Retry` | src/blockencodings.cpp:178-200 | after a call with too few, a second one with the number missing at first is accepted exactly if no transaction stood before the first unserved slot |
| `CompactBlock.RetryAnnounced` | src/blockencodings.cpp:178-200 | with the first transaction in place, as every announced block has it, it never is |
| `CompactBlock.RetrySmallest` | src/blockencodings.cpp:51-200 | the smallest such block: one prefilled and one missing transaction, an empty first answer and the right second one |
| `CompactBlock.FillRestores` | src/blockencodings.cpp:178-196 | the slots together with the missing transactions give back the block |
| `CompactBlock.Relay` | src/blockencodings.cpp:21-211 | end to end: with injective short ids an announced block comes out whole, and only a repeated transaction or an overfull bucket makes it fail |
| `CompactBlock.DifferenceFormatter.Ser` | src/blockencodings.h:23-28 | sends the distance from the index after the previous one; fails exactly for an index that does not climb or is too large |
| `CompactBlock.DifferenceFormatter.Unser` | src/blockencodings.h:30-36 | gives back the index; fails exactly when it leaves the index type, also when the 64-bit sum wraps |
| `CompactBlock.SendIndexes` | src/blockencodings.h:38-49 | succeeds exactly for strictly climbing lists, and the distances stand for the list |
| `CompactBlock.ReceiveIndexes` | src/blockencodings.h:38-49 | gives back the list the distances stand for, unless an index leaves the type |
| `Base58.LettersSuffice` | src/base58.cpp:97-97 | 138 letters for 100 bytes, plus one, are enough at every length |
| `Base58.BytesSuffice` | src/base58.cpp:52-52 | 733 bytes for 1000 letters, plus one, are enough at every length |
| `Base58.Accumulate` | src/base58.cpp:102-112 | the buffer becomes the old number times the base plus the digit, in as many places as needed, and the carry never leaves it |
| `Base58.EncodeBase58` | src/base58.cpp:87-125 | a 1 for every leading zero byte, then the rest as one number in base 58 without leading zeros |
| `Base58.DecodeBase58` | src/base58.cpp:38-85 | succeeds exactly for letters between spaces that give no more bytes than allowed, and gives the bytes they stand for |
| `Base58.DecodeEncoded` | src/base58.cpp:38-125 | decoding gives back every byte string |
| `Base58.EncodeDecoded` | src/base58.cpp:38-125 | encoding gives back every string of letters |
| `Base58.RoundTrip` | src/base58.cpp:38-125 | decode after encode gives the bytes back exactly if they are within the limit |
| `Base58.RoundTripText` | src/base58.cpp:38-125 | encode after a successful decode gives the text without the spaces around it |
| `Base58.EncodeBase58Check` | src/base58.cpp:140-147 | the bytes with their four checksum bytes, encoded |
| `Base58.DecodeBase58Check` | src/base58.cpp:149-164 | the payload exactly of texts that decode, within the limit, to bytes ending in their own checksum |
| `Base58.RoundTripCheck` | src/base58.cpp:140-164 | bytes encoded with their checksum come back exactly if they are within the limit |
| `Base58.RoundTripCheckText` | src/base58.cpp:140-164 | an accepted text is what its payload encodes to, but for the spaces around it |
| `Base58.DigitsUnique` | src/base58.cpp:87-125 | a number has one digit string without leading zeros |
| `Bech32.PolyMod` | src/bech32.cpp:33-90 | the loop computes the state that Bech32Field.PolyIsRemainder shows to be the remainder |
| `Bech32Field.PolyIsRemainder` | src/bech32.cpp:33-90 | the groups of the state are the one remainder of the values, with the coefficients of the start in front, divided by the generator over GF(32) |
| `Bech32Field.RemainderOf` | src/bech32.cpp:33-120 | a string checks out exactly if, after an implicit one, it leaves the remainder one |
| `Bech32Field.DivisionUnique` | src/bech32.cpp:40-45 | quotient and remainder by the generator are unique |
| `Bech32Field.Constants` | src/bech32.cpp:82-87 | the five constants of the loop are the tail of the generator times 1, 2, 4, 8 and 16 |
| `Bech32Field.GroupStep` | src/bech32.cpp:62-88 | one step is multiplication by x plus the value, less the multiple of the generator that cancels the leading coefficient |
| `Bech32Field.TimesAssociates` | src/bech32.cpp:47-53 | multiplication modulo a^5 + a^3 + 1 is associative |
| `Bech32Field.TimesAdds` | src/bech32.cpp:47-53 | it distributes over exclusive or |
| `Bech32Field.NoZeroDivisors` | src/bech32.cpp:47-53 | only zero annihilates |
| `Bech32.PolyLinear` | src/bech32.cpp:33-90 | the checksum of a sum of two strings is the sum of their checksums |
| `Bech32.ShiftInjective` | src/bech32.cpp:76-86 | one step loses nothing on 30-bit states |
| `Bech32.BurstDetected` | src/bech32.cpp:33-90 | every error confined to six neighbouring values, so also every single one, changes the checksum at any length |
| `Bech32.ExpandHRP` | src/bech32.cpp:99-111 | the high bits of every character, a zero, the low bits |
| `Bech32.CreateChecksum` | src/bech32.cpp:124-135 | the created values verify |
| `Bech32.ChecksumUnique` | src/bech32.cpp:114-135 | six values make a string verify exactly if they are the created checksum |
| `Bech32.VerifyChecksum` | src/bech32.cpp:114-121 | true exactly if the remainder is one |
| `Bech32.Encode` | src/bech32.cpp:143-156 | prefix, separator, values and checksum as text |
| `Bech32.Decode` | src/bech32.cpp:159-190 | accepts exactly the strings that are, in one case, the text of some prefix and values, and gives those back |
| `Bech32.EncodeDecode` | src/bech32.cpp:143-190 | decoding undoes encoding exactly for a non-empty printable prefix and at most 90 characters |

## Left out

- Hash functions (SHA-256, SipHash, MurmurHash3) and randomness are arbitrary functions or parameters, clocks are parameters.
- Floating point: the sizing of the Bloom filter, the depth limit of the cuckoo cache and the selection chances of the address manager are inputs or left out.
- CheckQueue: the stop request and thread start-up and shutdown; every run is one with no stop requested, and counters are unbounded integers.
- Coins: forwarding of the best block, cursors and the memory allocator's share of the usage.
- AddrMan: `Select_`, `SetServices_`, asmap decoding and the 32-bit width of counters and ids; one clock reading per call.
- AddrMan.Run: covers the mutating operations from any consistent manager; when a Clear or a load leaves one is stated by separate members.
- AddrManStore: the byte format below the level of fields, and old format versions before buckets were saved.
- AddrManStore.Unserialize: claims the address index only for streams with distinct addresses; with repeated ones the last wins.
- AddrManCheck: which code is returned when several tests fail depends on the order of the entries, which is a parameter.
- Arith: hexadecimal text, conversion to double, and the bitwise operators between numbers.
- Compact: `GetBlockProofEquivalentTime`.
- RollingBloom.RollingFilter.Contains: no false-positive rate is claimed.
- Chain: median times, disk positions and validity flags; a skip pointer is set when a block is linked and never changes.
- Gcs: filter headers and the choice of elements of a block; a filter's parameter P is below 64, where shifting a 64-bit word is defined.
- Cuckoo: the packing of flags into bytes and concurrent lookups; the zero element is excluded from the claims of uniqueness.
- DbTransaction: value types (a read with another type than written throws), serialization of keys, and changing a transaction during iteration; a transaction commits into the store it reads from.
- CompactBlock: the extra-transaction statistics, the block check itself and the message byte format; the message has at most 65535 transactions, as its deserializer enforces.
- CompactBlock.PartialBlock.InitData: which bucket an id falls into is a parameter, as the hash table is the standard library's.
- Base58: the letter table is given by its runs.
- Bech32: detection of errors spread over more than six neighbouring values.
