# CLOGS, modelled in Dafny

CLOGS is an OpenCL library with three parallel primitives (radix sort, exclusive scan, reduction), an
autotuner that chooses their parameters, and a persistent typed cache that remembers the choice. This
project models the host side of the library, which decides everything but the inner loops of the kernels:
how the input is cut into blocks, in which order the phases run and what they wait for, which buffer holds
what, which sweep program the kernels are compiled with, which parameters are admissible.

Device kernels appear as methods that do what the reference loops of the repository's unit tests and the
header postconditions say, under every interleaving of the work-groups where the work-groups touch shared
data; the bounds of their blocks are computed in 32 bits, as the kernels of the sort and the reduction do. The
host code is modelled in its own form: classes whose methods update fields and arrays, and loops with their
invariants, each tied to a mathematical description that is independent of the loop.

| file | source | what it holds |
|---|---|---|
| `Blocks`, `Sums`, `Partition`, `Buffers` | src/utils.h | rounding, block cuts, doubling loops, sums modulo the element width |
| `StableSort`, `RadixKernels`, `RadixOrder`, `Radixsort` | src/radixsort.cpp | stable orders, the three phases of a pass, the digit-by-digit argument, the class |
| `CommandQueue`, `RadixsortSchedule`, `ScanSchedule`, `ReduceSchedule` | src/radixsort.cpp, src/scan.cpp, src/reduce.cpp | wait lists, every schedule they allow, and the results of the sort, the scan and the reduction under all of them |
| `Sweep`, `SweepLevels`, `SweepGenerator`, `SweepBytes` | src/radixsort.cpp | the meaning of the upsweep and downsweep programs, what they leave where they stop, their generator, and why bytes suffice |
| `Scan`, `Reduce` | src/scan.cpp, src/reduce.cpp | reduce-then-scan; block reduction with a shared counter |
| `Tune`, `TuneProperties`, `TuneRounds`, `RadixsortTune`, `ScanTune` | src/tune.cpp, src/radixsort.cpp, src/scan.cpp | the selection loop, its promises, who goes on from pass to pass, and exactly which parameters tuning can return |
| `Lexicographic`, `Database`, `Reflection`, `Cache`, `CacheTypes` | src/parameters.h, src/cache.cpp, src/cache_types.cpp | struct flattening, a relational model, the table as a map, the four shipped tables |
| `Ownership` | src/core.cpp, src/utils.cpp, include/clogs/core.h | moves, swaps and callbacks as a state machine over all runs |
| `Extensions` | src/utils.cpp | looking up a device extension |

The main results:

- **Sort.** Every accepted call of `enqueue` whose blocks the kernels can address leaves, in the user's own buffers,
  the pairs sorted stably by the least number of whole digits that has `maxBits` bits (all bits of the key if that is
  zero), for every number of passes, block geometry and work-group schedule; if no key has more than `maxBits` bits,
  the keys ascend, the pairs are the same and equal keys keep their order. The same
  holds when the commands take effect whenever an out-of-order device finishes them, in any schedule the wait lists
  allow. The block bounds of the kernels are those of the host if and only if all blocks together are shorter than
  2^32.
- **Sweep generator.** For every `radixBits >= 1` and power-of-two warp size the emitted program stays inside
  its memory, turns the counters into their exclusive prefix sums, and on the way leaves the counts of the digits,
  and then of the smaller digits, where the kernel reads them. With the tuner's bound on the scale the byte program
  goes through exactly the states of the unbounded one, and the byte program returns the true sums if and only if
  all counters but the last add up to at most 255.
- **Scan and reduce.** For sizes the kernels can address, the result is that of the original input and offset
  although buffers may be shared, does not depend on stale partial sums, and is the same for every order in which
  work-groups finish and in every schedule the wait lists allow.
- **Tuner.** Which candidates go on from one problem size to the next and which of the last ones is chosen, for rates
  that change from pass to pass; when the loop aborts, when pruning empties it, and that pruning does not change the
  choice for steady rates. For the scan and the radix sort, exactly which parameters tuning can return, over all
  measurements; every set meets the asserts of its primitive. The sort's generator can offer nothing but zero blocks, with which no
  sort can be constructed, so that tuning fails whatever is measured: it can come to that if and only if the widest
  scatter work-group that can be constructed has no room for its blocks, and never if a slice is at most twice the
  radix.
- **Cache.** For any nested struct, bind then read restores the value; the table is a map from keys to values,
  across sessions and sequences of adds of which some fail; `operator<` is the lexicographic strict total order
  of the flattened members.
- **Ownership.** Over every run each implementation object is deleted once and each accepted user datum freed
  once, never while it is registered; and after each operation, who owns what and holds which callback.

Where the code and its documentation differ, the model follows the code:

- include/clogs/radixsort.h:218 says that a `maxBits` of zero is an error; the code (src/radixsort.cpp:196-197)
  and the text above it take zero to mean all bits of the key. `Radixsort.Radixsort.BitsCheckExactly` says which
  calls are rejected.
- include/clogs/radixsort.h:225-227 and include/clogs/reduce.h:192-198 promise sorted keys and a sum for every
  accepted call. The kernels compute the end of a block in cl_uint (kernels/radixsort.cl:253-254, 917-919,
  kernels/reduce.cl:128-129); a last block that ends at 2^32 or later wraps, and its elements are neither counted,
  moved nor summed. `Partition.KernelBoundsExactly` says exactly when the bounds are right,
  `Radixsort.Radixsort.LastBlockLost` and `Reduce.Reduce.LastGroupLost` give accepted calls of 2^32 - 1 elements that
  lose a block. The scatter phase compares distances as signed numbers (kernels/radixsort.cl:859), which fails for
  blocks of 2^31 elements or more: `RadixKernels.TileCountExactly`, `Radixsort.Radixsort.SingleBlockLost`.
- include/clogs/radixsort.h:217, include/clogs/scan.h:232 and 320 promise an error whenever a range overruns a buffer.
  The checks multiply in size_t (src/radixsort.cpp:177-184, src/scan.cpp:433-440), so a range whose size in bytes
  wraps passes: `Buffers.LargeEnoughExactly`, `Radixsort.Radixsort.RangeChecksExactly` and
  `Scan.Scan.RangeCheckExactly` say exactly when, `Buffers.LongRangePasses` gives an input.
- include/clogs/scan.h:323 promises an error whenever the offset index overruns its buffer; the check
  (src/scan.cpp:451) adds one in 32 bits, so it lets the index 2^32 - 1 pass. `Scan.Scan.OffsetCheckExactly`
  says exactly when the promise is kept.
- src/tune.h:120-145 speaks of rates in general; with negative rates the pruning step of the code drops even the
  best candidate. `TuneProperties.PruneEmptyExactly` says exactly when, `TuneProperties.NegativeRatesAreLost`
  gives an input.
- The comment at src/radixsort.cpp:721 adds the upper limit as a candidate; the limit is zero, and nothing else is
  offered, when local memory does not hold one scatter work-group's blocks. `RadixsortTune.BlockCountsMeaning` says
  exactly when, `RadixsortTune.StuckExactly` on which devices tuning can come to that and then fails, and
  `RadixsortTune.WideWarpsStuck` names such a device.
- include/clogs/core.h:355-363 allocates a wrapper before the handle is checked, so registering a callback with
  an uninitialised handle loses it. `Ownership.AcceptedExactly` says exactly when, `Ownership.WrapperLost` is a
  run in which it happens.

## Model

| member | source | states |
|---|---|---|
| `Blocks.RoundDown` | src/utils.h:157-161 | the result is a multiple, at most the argument and less than one step below it |
| `Blocks.RoundUp` | src/utils.h:163-167 | the result is a multiple, at least the argument and less than one step above it |
| `Blocks.RoundDownGreatest` | src/utils.h:157-161 | no larger multiple fits |
| `Blocks.RoundUpLeast` | src/utils.h:163-167 | no smaller multiple is enough |
| `Blocks.CastUint` | src/radixsort.cpp:105-107 | kernel arguments survive the cast to cl_uint exactly when they are below 2^32, and are reduced otherwise |
| `Blocks.CeilDivLeast` | src/radixsort.cpp:92 | the number of pieces is the least that covers the elements |
| `Blocks.GridBlock` | src/scan.cpp:467-468 | the block size is a multiple of the tile, the grid of blocks covers the elements with less than one tile per block to spare |
| `Blocks.DoublingMeaning` | src/scan.cpp:277 | a doubling loop visits exactly start times the powers of two up to the limit |
| `Blocks.DoublingExactly` | src/radixsort.cpp:661 | a number is visited if and only if it is start times a power of two within the limit |
| `Blocks.Pow2Meaning` | src/radixsort.cpp:281 | powers of two start at one and double |
| `Blocks.LargestDoublingIsLargest` | src/radixsort.cpp:677 | the last size a doubling loop visits is the largest |
| `Buffers.LargeEnoughExactly` | src/scan.cpp:433 | a range passes the check exactly if it fits or its size in bytes wraps to one that does |
| `Buffers.LargeEnoughShort` | src/radixsort.cpp:177 | below 2^32 elements the check is right |
| `Buffers.LongRangePasses` | src/scan.cpp:433 | 2^62 + 1 elements of four bytes pass as one element |
| `Partition.BlockOf` | test/test_radixsort.cpp:513-514 | the blocks cover the input: every element lies in some block |
| `Partition.BlockUnique` | test/test_radixsort.cpp:513-514 | the blocks are disjoint |
| `Partition.KernelBounds` | kernels/radixsort.cl:253-254 | bounds computed in cl_uint are those of the blocks if the blocks together are shorter than 2^32 |
| `Partition.KernelBoundsExactly` | kernels/reduce.cl:128-129 | they are so for all blocks if and only if that holds, for every input at least one block long |
| `Partition.FirstTooLong` | kernels/radixsort.cl:917-919 | otherwise some block that should reach the end of the input ends before the end of the first block |
| `Partition.PartialsTotal` | src/reduce.cpp:293-309 | the partial sums of the groups add up to the sum of the window |
| `Sums.SumMeaning` | test/test_scan.cpp:166-172 | the sum of nothing is zero, of one element that element, and of two parts the sum of their sums |
| `StableSort.OrderIsStable` | test/test_radixsort.cpp:538 | the ranks are a stable order: smaller keys first, equal keys in input order |
| `StableSort.StableOrderUnique` | test/test_radixsort.cpp:538 | there is only one stable order, so any stable sort gives the same result |
| `StableSort.MovedIsPermutation` | include/clogs/radixsort.h:225-227 | moving elements along a stable order loses and duplicates nothing |
| `StableSort.OutputSorted` | include/clogs/radixsort.h:225-227 | keys moved along their stable order ascend |
| `StableSort.ComposeOrders` | src/radixsort.cpp:229-240 | a stable order by one key followed by one by a more significant key is a stable order by both |
| `RadixKernels.ReduceKernel` | test/test_radixsort.cpp:409-414 | each cell of the block-major table counts the elements of its block that have its digit |
| `RadixKernels.ScanKernel` | test/test_radixsort.cpp:440-449 | each cell of the block-major table is replaced by the sum of all cells before it in digit-major order |
| `RadixKernels.ScannedHistogram` | test/test_radixsort.cpp:520-527 | scanning the histogram gives each block, for each digit, the place of its first element with that digit, whatever the block length and with empty trailing blocks |
| `RadixKernels.CountsFit` | test/test_radixsort.cpp:440-449 | no counter and no offset exceeds the number of elements |
| `RadixKernels.TileCountExactly` | kernels/radixsort.cl:859 | the signed comparison writes exactly the pairs before the block's end if and only if the distance fits 31 bits and a sign |
| `RadixKernels.TilesExact` | kernels/radixsort.cl:914-941 | if the host's sizes fit 32 bits, in every tile of every block no address wraps and exactly the pairs before the block's end are written |
| `RadixKernels.LongBlockLost` | kernels/radixsort.cl:859 | of a block of 2^31 elements or more the first tile is not written |
| `RadixKernels.AdvanceOffset` | test/test_radixsort.cpp:538-545 | a block's running offset for a digit is the stable rank of its next element with that digit, and stays so after the element has moved |
| `RadixKernels.ScatterKernel` | test/test_radixsort.cpp:538-550 | keys and values move to the stable order of the digit for every interleaving of the blocks; nothing past the elements changes |
| `RadixOrder.LowSplit` | src/radixsort.cpp:229 | the bits below a pass and the digit of the pass make up the bits below the next pass |
| `RadixOrder.LowCompare` | src/radixsort.cpp:229 | comparing the combined bits is comparing the digit first and the lower bits second |
| `RadixOrder.PassExtends` | src/radixsort.cpp:229-240 | one stable pass extends a stable sort by the lower bits to one by the bits including the digit |
| `RadixOrder.LowIsWhole` | include/clogs/radixsort.h:224 | if all keys are below 2^bits, their low bits are the keys |
| `RadixOrder.SortedMeaning` | include/clogs/radixsort.h:225-227 | output ascends in the low bits, pairs are a permutation of the input pairs, ties keep their order |
| `RadixOrder.OrderSortsStably` | include/clogs/radixsort.h:225-227 | moving pairs along the order of their low bits sorts them stably by key modulo a power of two |
| `RadixOrder.SortedOutright` | include/clogs/radixsort.h:224-227 | if no key has more bits than that, the keys ascend, keys and pairs are the same, equal keys keep their order |
| `CommandQueue.ChainInOrder` | src/radixsort.cpp:217-258 | on an out-of-order queue no command of a chain starts before the caller's events and all earlier commands are complete |
| `CommandQueue.LastEventCompletesChain` | src/radixsort.cpp:257-258 | the returned event completes only after everything enqueued and the caller's events |
| `CommandQueue.InOrderCompletes` | src/radixsort.cpp:217-258 | commands that wait for earlier ones only can all be completed, in the order in which they were enqueued |
| `CommandQueue.ChainSequential` | src/radixsort.cpp:217-258 | at any point of any allowed schedule memory is that of the completed commands run in order |
| `CommandQueue.AnyScheduleIsSequential` | src/radixsort.cpp:217-258 | every allowed schedule that completes the returned event has the effect of running the commands in order |
| `CommandQueue.Launch` | src/utils.cpp:50-54 | the command is enqueued and its event passed to the callback, after those before it |
| `CommandQueue.AnyScheduleInSequence` | src/radixsort.cpp:217-258 | the same for commands known only by their contracts: memory has gone through their effects one after the other |
| `RadixsortSchedule.PassSorts` | src/radixsort.cpp:231-237 | any histogram, scan and scatter that meet their contracts sort by one more digit |
| `RadixsortSchedule.AnyScheduleSorts` | src/radixsort.cpp:217-258 | in every allowed schedule of the named kernels, each doing what its kernel's contract allows, once the returned event is complete the user's buffers hold the stable order by the bits of all passes and their tails are untouched |
| `RadixsortSchedule.HostCallReady` | src/radixsort.cpp:225-256 | the sizes the host chooses satisfy what the kernels rely on |
| `RadixsortSchedule.HostCallSorts` | src/radixsort.cpp:217-258 | whatever an out-of-order device does with the chain of kernels that enqueue promises, once the returned event is complete the pairs in the user's buffers are sorted by as many whole digits as the caller's bits need, and outright if no key has more bits |
| `ScanSchedule.AnyScheduleScans` | src/scan.cpp:499-526 | in every allowed schedule, once the returned event is complete, memory holds the scan of the original window and offset, also in place, and nothing else but the sums has changed |
| `ScanSchedule.HostSizesReady` | src/scan.cpp:464-472 | the sizes the host chooses satisfy what the kernels rely on |
| `ScanSchedule.HostCallScans` | src/scan.cpp:499-526 | whatever an out-of-order device does with the kernels that enqueueInternal promises, the output is the scan from zero, from the caller's value, or from the element the caller named as it was before the call |
| `ReduceSchedule.AnyScheduleReduces` | src/reduce.cpp:331-341 | in every allowed schedule, once the returned event is complete, the host has the sum of the window as it was, and the input is unchanged |
| `ReduceSchedule.HostSizesReady` | src/reduce.cpp:293 | the sizes the host chooses satisfy what the kernel relies on |
| `CommandQueue.Queue.Enqueue` | src/radixsort.cpp:110-114 | appends one command with its wait list and returns the event of that command |
| `Radixsort.ScatterSlice` | src/radixsort.cpp:282 | the larger of the warp size and the radix, never zero |
| `Radixsort.Radixsort.constructor` | src/radixsort.cpp:267-282 | sizes are those of the parameters, the radix is two to the number of bits, the histogram has a row of counters for each block and the callback has heard of no event |
| `Radixsort.Radixsort.SetTemporaryBuffers` | src/radixsort.cpp:261-265 | replaces both temporary buffers |
| `Radixsort.Radixsort.GetTileSize` | src/radixsort.cpp:78-81 | the larger of the two tiles, never empty |
| `Radixsort.Radixsort.GetBlockSize` | src/radixsort.cpp:83-87 | a multiple of the tile size with which scanBlocks blocks cover the elements, with less than a tile per block to spare |
| `Radixsort.Radixsort.GetBlocks` | src/radixsort.cpp:89-96 | the blocks cover the elements and fill whole scatter work-groups |
| `Radixsort.Radixsort.BlocksLeast` | src/radixsort.cpp:89-96 | no smaller number of whole work-groups covers the elements |
| `Radixsort.Radixsort.BlocksFit` | src/radixsort.cpp:94 | for every number of elements the block count meets the assert: positive and at most scanBlocks |
| `Radixsort.Radixsort.ShortSortsFit` | src/radixsort.cpp:225-227 | with room for a tile in each block below 2^31 the kernels' arithmetic is exact |
| `Radixsort.Radixsort.LastBlockLost` | kernels/radixsort.cl:253-254 | of an accepted call with 2^32 - 1 elements the kernels take the last of 504 blocks to be empty |
| `Radixsort.Radixsort.SingleBlockLost` | kernels/radixsort.cl:859 | of an accepted call with 2^31 elements in a single block the first tile is not written |
| `Radixsort.Radixsort.EnqueueReduce` | src/radixsort.cpp:98-118 | one command; afterwards the table is the histogram of every block |
| `Radixsort.Radixsort.EnqueueScan` | src/radixsort.cpp:120-135 | one command; afterwards the table is scanned in digit-major order |
| `Radixsort.Radixsort.EnqueueScatter` | src/radixsort.cpp:137-167 | one command; afterwards the pairs are in the stable order of the digit, the rest of the output buffers is untouched |
| `Radixsort.Radixsort.EnqueuePass` | src/radixsort.cpp:231-237 | three commands, each waiting for the one before, sort the pairs stably by one digit whatever the block cut |
| `Radixsort.Radixsort.SortPass` | src/radixsort.cpp:230-240 | one pass sorts by one more digit and continues the chain |
| `Radixsort.Radixsort.SortPasses` | src/radixsort.cpp:229-240 | the ping-pong ends with the stable order by all digits, in the user's buffers exactly after an even number of passes |
| `Radixsort.Radixsort.CopyBack` | src/radixsort.cpp:241-256 | keys and then values are copied, each copy waiting for the previous command |
| `Radixsort.Radixsort.CopyBuffer` | src/radixsort.cpp:247-252 | the first elements become those of the source, the others stay |
| `Radixsort.Radixsort.ChooseBuffer` | src/radixsort.cpp:205-215 | the user's temporary buffer if it is large enough, otherwise a new one of the right size |
| `Radixsort.Radixsort.RangeChecksExactly` | src/radixsort.cpp:177-184 | the range checks reject exactly the ranges that do not fit, except those whose size in bytes wraps to one that does |
| `Radixsort.Radixsort.BitsCheckExactly` | src/radixsort.cpp:194-199 | a call that passes the other checks is rejected exactly if it asks for more bits than a key has; zero stands for all bits |
| `Radixsort.Radixsort.ErrorsExactly` | src/radixsort.cpp:177-199 | each error is reported exactly if its check fails and all earlier ones pass |
| `Radixsort.Radixsort.AcceptedExactly` | src/radixsort.cpp:177-199 | calls are accepted exactly for positive ranges that fit readable and writable buffers and bits that fit the key |
| `Radixsort.SortedByBits` | src/radixsort.cpp:229-240 | the order by whole digits is a stable sort by key modulo a power of two, and a sort outright for keys without more bits |
| `Radixsort.Radixsort.SortWith` | src/radixsort.cpp:217-258 | the sorted pairs end in the user's buffers, with copies after an odd number of passes only; the commands form one chain |
| `Radixsort.Radixsort.SortChecked` | src/radixsort.cpp:201-258 | the same, with the temporary buffers and the block size chosen as the source does |
| `Radixsort.Radixsort.Enqueue` | src/radixsort.cpp:169-259 | rejects with the first failing check and changes nothing; or sorts stably by at least the bits asked for, all of the key's for zero, and less than a digit more, sorts outright if no key has more bits, leaves the rest of the buffers alone, and chains exactly the kernels of as many passes and the copies after an odd number |
| `Radixsort.LastBit` | src/radixsort.cpp:229 | the passes cover exactly roundUp(maxBits, radixBits) bits |
| `Radixsort.PassDone` | src/radixsort.cpp:229-240 | a pass over keys sorted by the lower bits sorts the original pairs by the lower bits and the digit |
| `Radixsort.SortedByWholeKey` | include/clogs/radixsort.h:224-227 | if maxBits bounds the keys: ascending keys, the same pairs, equal keys in input order |
| `Sweep.LevelScan` | test/test_radixsort.cpp:311-337 | sums of groups, scanned and swept down, give the scan of the data; a forced zero suffices for a single group |
| `Sweep.LevelsDisjoint` | src/radixsort.cpp:348-370 | each step writes a level entirely below the one it reads and all earlier ones |
| `Sweep.CascadeScans` | src/radixsort.cpp:346-371 | the program of any cascade turns the level it starts from into its prefix sums and touches nothing above it |
| `Sweep.SweepScans` | src/radixsort.cpp:373-383 | upsweep then downsweep turns the counters into their exclusive prefix sums, in bytes and in unbounded integers |
| `Sweep.ProgramInBounds` | src/radixsort.cpp:337-371 | no statement of the program reads or writes outside the slice's memory |
| `Sweep.StepsComputeScan` | src/radixsort.cpp:326-383 | the program of the generator's steps is in bounds and computes the scan, for all memories |
| `SweepLevels.GroupsOfGroups` | kernels/radixsort.cl:811-812 | sums of groups of group sums are the sums of the larger groups |
| `SweepLevels.UpsweepLevels` | kernels/radixsort.cl:811-812 | after the upsweep every level holds the sums of its groups of counters |
| `SweepLevels.ProgramLevels` | kernels/radixsort.cl:816-822 | after the whole program every level but the last holds what comes before each of its groups |
| `SweepLevels.RadixLevel` | kernels/radixsort.cl:814-827 | at the radix the upsweep leaves the count of each digit, and the whole program the count of all smaller digits |
| `SweepGenerator.SweepStops` | src/radixsort.cpp:327-332 | the stops, and that each is the one before times a power of two |
| `SweepGenerator.GenerateStage` | src/radixsort.cpp:348-370 | divides by four as often as possible and then by two at most once, which lands exactly on the stop; zero is forced exactly on the step to a single sum |
| `SweepGenerator.GenerateSweep` | src/radixsort.cpp:320-383 | for every radix and power-of-two warp size the emitted lists stay in bounds and compute the exclusive prefix sums, and leave the counts of the digits, then of the smaller digits, at the radix; the steps are exactly one to a sum for each work item, the quarterings and halvings to the radix, and those to one |
| `SweepBytes.SweepSame` | src/radixsort.cpp:675-689 | with counters that add up to at most 255, bytes and unbounded integers go through the same states |
| `SweepBytes.TileFitsByte` | src/radixsort.cpp:680 | the bound on the scale keeps a tile at no more than 255 elements |
| `SweepBytes.TileSweepExact` | src/radixsort.cpp:675-689 | on every tile the tuner allows, after every statement, the bytes hold the unbounded values |
| `SweepBytes.TileCountsExact` | kernels/radixsort.cl:814-827 | on every tile the tuner allows the bytes the kernel reads at the radix are the true counts |
| `SweepBytes.ByteSweepExactly` | src/radixsort.cpp:675-689 | the byte program returns the true prefix sums if and only if all counters but the last add up to at most 255 |
| `Scan.ReduceKernel` | src/scan.cpp:503-512 | afterwards the sums of the launched blocks are there; nothing is said of the others |
| `Scan.ScanSmallKernel` | src/scan.cpp:513-517 | every sum is replaced by the offset plus all sums before it |
| `Scan.BlockOffsets` | src/scan.cpp:503-517 | each block's starting value is the offset plus everything before the block, whatever the unwritten sums hold |
| `Scan.ScanOne` | src/scan.cpp:519-523 | one step of any block, with input and output possibly the same, keeps finished elements right and unread ones unread |
| `Scan.ScanKernel` | test/test_scan.cpp:165-172 | every interleaving of the blocks gives the exclusive scan of the original input, even in place |
| `Scan.ScanAccumulates` | test/test_scan.cpp:166-172 | being the scan is starting with the offset and adding, from each element to the next, the input before it, modulo the element width |
| `Scan.Scan.BlocksFit` | src/scan.cpp:470-472 | the three asserts hold for every number of elements, and all blocks but the last are full |
| `Scan.Scan.BlockSizeAligned` | src/scan.cpp:464-468 | with power-of-two sizes the block size is a multiple of both work-group tiles |
| `Scan.Scan.RangeCheckExactly` | src/scan.cpp:433-440 | the range check rejects exactly the ranges that do not fit both buffers, except those whose size in bytes wraps to one that does |
| `Scan.Scan.BlockSize` | src/scan.cpp:467-468 | a multiple of the tile with which the blocks cover the elements, with less than a tile per block to spare |
| `Scan.Scan.ErrorsExactly` | src/scan.cpp:432-462 | each error is reported exactly if its check fails and all earlier ones pass |
| `Scan.Scan.AcceptedExactly` | src/scan.cpp:432-462 | calls are accepted exactly for positive ranges and offsets that fit buffers with the right access |
| `Scan.Scan.ReduceBlocks` | src/scan.cpp:499-508 | with more than one block, one command; afterwards the sums of all blocks but the last are there |
| `Scan.Scan.OffsetCheckExactly` | src/scan.cpp:449-453 | the check reports an overrun exactly if there is one and the index is not 2^32 - 1 |
| `Scan.Scan.SumBlocks` | src/scan.cpp:499-518 | the first two phases give every block its starting value, with no reduction for a single block |
| `Scan.Scan.ScanChecked` | src/scan.cpp:464-526 | the whole scan after the checks: result, untouched rest, chain of two or three commands |
| `Scan.Scan.EnqueueInternal` | src/scan.cpp:422-527 | rejects with the first failing check and changes nothing; or scans the original input modulo the element width, from zero without an offset, from the value for one in host memory, and from the original element for one in a buffer, in place or with the offset inside the output, and chains exactly the kernels in order |
| `Scan.Scan.constructor` | src/scan.cpp:78-98 | fields are those of the parameters; one sum for each block |
| `Reduce.AfterSum` | src/reduce.cpp:98-101 | storing a partial sum keeps the protocol's invariant |
| `Reduce.AfterCount` | src/reduce.cpp:98-101 | exactly the group that brings the counter to zero becomes the last |
| `Reduce.LastIsAlone` | src/reduce.cpp:98-101 | when a group is last, all others are done and all partial sums are there |
| `Reduce.NotAllDone` | src/reduce.cpp:98-101 | the groups cannot all finish without one of them storing the result |
| `Reduce.Reduce.constructor` | src/reduce.cpp:77-107 | one partial sum for each group and a spare slot; the counter starts at the number of groups |
| `Reduce.Reduce.BlockSize` | src/reduce.cpp:293 | a multiple of the work-group size with which the groups' blocks cover the elements |
| `Reduce.Reduce.ShortWindowsFit` | src/reduce.cpp:293 | with room for a work-group in each block below 2^32 the kernel's bounds are exact |
| `Reduce.Reduce.LastGroupLost` | kernels/reduce.cl:128-129 | of an accepted call with 2^32 - 1 elements the last of 64 groups adds up none of its 2^26 - 1 |
| `Reduce.Reduce.ReduceKernel` | kernels/reduce.cl:116-155 | for every schedule of the groups, with block bounds computed in cl_uint, the result is the sum of the window modulo the element width, and the counter is ready for the next call |
| `Reduce.Reduce.InputCheckExactly` | src/reduce.cpp:272-279 | the wrapping check rejects exactly the windows that do not fit the buffer |
| `Reduce.Reduce.ErrorsExactly` | src/reduce.cpp:271-291 | each error is reported exactly if its check fails and all earlier ones pass |
| `Reduce.Reduce.AcceptedExactly` | src/reduce.cpp:271-291 | the checks accept exactly the non-empty windows and positions that fit buffers with the right access |
| `Reduce.Reduce.Enqueue` | src/reduce.cpp:261-313 | rejects with the first failing check and changes nothing, or stores the sum at the output position and nowhere else |
| `Reduce.Reduce.EnqueueToHost` | src/reduce.cpp:315-342 | the spare slot delivers the sum to the host; the two commands are the reduction and a read that waits for it |
| `Tune.OnlySurvivorsMatter` | src/tune.cpp:128-156 | failed candidates change neither the maximum nor what pruning keeps |
| `Tune.MeasureAll` | src/tune.cpp:122-158 | what is retained, its results, index by index, and the largest A |
| `Tune.KeepFast` | src/tune.cpp:165-172 | keeps exactly the candidates whose A reaches the threshold, in order |
| `Tune.PickFirst` | src/tune.cpp:174-178 | the first candidate whose B reaches the largest A, if any |
| `Tune.TuneOne` | src/tune.cpp:105-182 | the loop computes the outcome of measuring, pruning and selecting, or the error |
| `TuneProperties.MaxRateMeaning` | src/tune.h:124 | every rate is at most Amax and one is Amax |
| `TuneProperties.PruneKeepsMax` | src/tune.cpp:165-172 | pruning keeps Amax if the threshold does not exceed it, and nothing otherwise |
| `TuneProperties.PruneEmptyExactly` | src/tune.cpp:165-172 | pruning leaves nothing if and only if ratio times Amax exceeds Amax |
| `TuneProperties.PruneKeepsSomething` | src/tune.cpp:165-172 | with rates of at least zero and a ratio from zero to one something is left |
| `TuneProperties.NegativeRatesAreLost` | src/tune.cpp:165-172 | a candidate that never fails, with negative rates, ends in an error |
| `TuneProperties.KeptInOrder` | src/tune.cpp:165-172 | what is kept is a subsequence in the original order |
| `TuneProperties.SelectMeaning` | src/tune.h:124-125 | with A <= B the last pass returns the first candidate with B >= Amax |
| `TuneProperties.AbortsExactly` | src/tune.cpp:180 | abort is reached if and only if there is no problem size |
| `TuneProperties.ChosenSucceeded` | src/tune.h:140-142 | the result is one of the candidates and was measured without failure in every pass |
| `TuneProperties.SelectPruned` | src/tune.h:135-138 | one pruning step does not change the choice if ratio * B <= A |
| `TuneProperties.PruningSound` | src/tune.h:133-138 | for steady rates any number of passes chooses what one unpruned pass chooses |
| `TuneProperties.CallersAreClose` | src/radixsort.cpp:599 | B = A and B = 1.05 A meet that condition with the ratio of one half |
| `TuneRounds.KeptExactly` | src/tune.cpp:165-172 | exactly the candidates whose A reaches the bound are kept, in order |
| `TuneRounds.PruneGoesOn` | src/tune.cpp:165-172 | a measured candidate goes on exactly if its A is at least the ratio times that of every measured candidate |
| `TuneRounds.SelectDecides` | src/tune.cpp:174-180 | the last pass chooses the first measured candidate whose B reaches every A, and aborts if there is none |
| `TuneRounds.RoundsOf` | src/tune.cpp:117-180 | tuning goes through such passes, ends in an error in the first in which nothing is measured, and otherwise with the decision of the last |
| `TuneRounds.InRoundExactly` | src/tune.cpp:117-172 | a candidate is in a pass if and only if it kept up in all earlier ones |
| `TuneRounds.ChosenKeptUp` | src/tune.cpp:117-180 | the chosen candidate kept up in every pass but the last and is the first that wins that one among all that did |
| `TuneRounds.SlowStartLoses` | src/tune.cpp:165-172 | a candidate less than half as fast as another in the first pass is not chosen, however fast it is later |
| `TuneProperties.OnlyOneChosen` | src/tune.cpp:105-182 | the only candidate that is ever measured is chosen |
| `RadixsortTune.ReduceCandidates` | src/radixsort.cpp:661-667 | exactly one candidate for each doubling of the radix up to the device's limit |
| `RadixsortTune.ScatterCandidates` | src/radixsort.cpp:677-689 | the exact list of work-group sizes and scales |
| `RadixsortTune.ScaleCandidates` | src/radixsort.cpp:680-688 | one candidate for each scale from one to 255 divided by the slice, in order |
| `RadixsortTune.ScatterShaped` | src/radixsort.cpp:677-689 | every scatter candidate has one of the doubled sizes up to the device's limit, is a whole number of slices, has aligned blocks and obeys the byte bound |
| `RadixsortTune.LimitPositiveExactly` | src/radixsort.cpp:703-705 | the limit rounded down twice is positive if and only if one scatter work-group's blocks fit |
| `RadixsortTune.SliceGeometry` | src/radixsort.cpp:700-705 | the divisors of the generator are positive and multiples of the slices of a work-group |
| `RadixsortTune.CollectCounts` | src/radixsort.cpp:703-722 | a count is collected if and only if it is the limit, or four or the slices of a work-group doubled within it, or the compute units doubled within it and rounded down to at least four |
| `RadixsortTune.OfferedExactly` | src/radixsort.cpp:703-722 | the same of the set of counts as a mathematical object |
| `RadixsortTune.BlockCountsMeaning` | src/radixsort.cpp:697-722 | every block count is a multiple of the slices of a work-group; zero is not among them if one scatter work-group's blocks fit, and is the only one otherwise |
| `RadixsortTune.BlockCandidates` | src/radixsort.cpp:724-730 | one candidate for each count, ascending |
| `RadixsortTune.AscendsUnique` | src/radixsort.cpp:706 | the order of a std::set is unique |
| `RadixsortTune.ShapedIsAdmissible` | src/radixsort.cpp:89-96 | parameters of the tuned shape with a positive aligned block count meet what the sort requires |
| `RadixsortTune.ScatterChosen` | src/radixsort.cpp:602-694 | whatever the first two steps measure, what they choose has the tuned shape and started with the blocks of at least one scatter work-group |
| `RadixsortTune.ScatterTries` | src/radixsort.cpp:677-689 | every doubled work-group size is tried |
| `RadixsortTune.FirstExactly` | src/radixsort.cpp:658-667 | the first step tries exactly the doublings of the radix within the device's limit, with half of the blocks that fit |
| `RadixsortTune.FirstAscends` | src/radixsort.cpp:661-667 | smallest first |
| `RadixsortTune.SecondExactly` | src/radixsort.cpp:675-689 | the second step tries exactly the doublings of the slice within the device's limit with every scale that keeps a tile within 255 elements |
| `RadixsortTune.ScatterAscends` | src/radixsort.cpp:677-689 | smaller work-groups first, and of one size smaller scales |
| `RadixsortTune.ThirdExactly` | src/radixsort.cpp:697-736 | for some measurements the third step ends with a given count, if and only if it is offered and not zero |
| `RadixsortTune.MaxBlocks` | src/radixsort.cpp:637-638 | as many blocks as leave local memory room for eight counters for each digit |
| `RadixsortTune.StartBlocks` | src/radixsort.cpp:642-643 | a multiple of four, and half of the most blocks up to rounding |
| `RadixsortTune.TunedExactly` | src/radixsort.cpp:602-744 | the parameters that tuning returns for some measurements are exactly those of doubled sizes within the device's limits, scales within a byte, and block counts offered to that scatter work-group |
| `RadixsortTune.TunedIsAdmissible` | src/radixsort.cpp:602-744 | whatever the callbacks measure, chosen parameters meet the asserts of the sort and keep the sweep within bytes: a candidate with zero blocks cannot be constructed and drops out |
| `RadixsortTune.StuckExactly` | src/radixsort.cpp:697-736 | timings of the first two steps after which the third is offered only zero blocks and fails whatever it measures exist if and only if the widest scatter work-group that can be constructed has no room for its blocks |
| `RadixsortTune.NarrowSliceHasRoom` | src/radixsort.cpp:643-644 | it has room whenever a slice is at most twice the radix |
| `RadixsortTune.WideWarpsStuck` | src/radixsort.cpp:721-722 | a device with work-groups of 8192, warps of 64 and 32 KiB of local memory can get stuck so |
| `RadixsortTune.TunedSweepExact` | src/radixsort.cpp:675-689 | with tuned parameters the generated byte program goes through the unbounded states on every tile, ends with the true prefix sums and shows the true counts at the radix |
| `RadixsortTune.TuneRadixsort` | src/radixsort.cpp:602-744 | the outcome is that of the three selections one after the other; chosen parameters are admissible and among those that can be tuned; nothing is tuned exactly if work-groups are smaller than the radix |
| `ScanTune.ReduceCandidates` | src/scan.cpp:276-287 | one candidate for each power of two up to the device's limit |
| `ScanTune.ScanCandidates` | src/scan.cpp:300-315 | the exact list of work-group sizes and scales |
| `ScanTune.ScaleCandidates` | src/scan.cpp:303-314 | one candidate for each power of two up to the largest scale, in order |
| `ScanTune.BlockCandidates` | src/scan.cpp:328-339 | one candidate for each power of two from two to the limit |
| `ScanTune.ScanShaped` | src/scan.cpp:300-315 | sizes and scales are powers of two |
| `ScanTune.FirstExactly` | src/scan.cpp:269-287 | the first step tries exactly the powers of two within the device's limit |
| `ScanTune.SecondExactly` | src/scan.cpp:300-315 | the second step tries exactly the powers of two as sizes within the device's limit, and as scales up to 16 whose tile fits local memory |
| `ScanTune.ScanAscends` | src/scan.cpp:300-315 | smaller work-groups first, and of one size smaller scales |
| `ScanTune.ThirdExactly` | src/scan.cpp:328-339 | the third step tries exactly the powers of two from two on within twice the largest work-group and local memory |
| `ScanTune.TunedExactly` | src/scan.cpp:244-364 | the parameters that tuning returns for some measurements are exactly the combinations of these |
| `ScanTune.TunedIsAdmissible` | src/scan.cpp:244-364 | whatever the timings, chosen parameters are admissible powers of two, with an even block count that fits local memory |
| `ScanTune.TuneScan` | src/scan.cpp:244-364 | the outcome is that of the three selections one after the other; chosen parameters are among those that can be tuned |
| `Lexicographic.LexConcat` | src/parameters.h:150-152 | comparing concatenations is comparing the first parts, then the second |
| `Lexicographic.LexTotal` | src/parameters.h:150-152 | of two sequences with comparable elements one is less, or they are equal |
| `Lexicographic.LexTransitive` | src/parameters.h:150-152 | lexicographic comparison is transitive |
| `Reflection.NarrowCongruent` | src/parameters.h:88-93 | the conversion yields the value of the target type that is congruent to the number modulo its width |
| `Reflection.NarrowUnique` | src/parameters.h:88-93 | only one value of a type is congruent to the converted number |
| `Reflection.IntegerRoundTrip` | src/parameters.h:85-93 | every integer type of up to 64 bits survives storage as a signed 64-bit integer |
| `Reflection.StoredExactly` | src/parameters.cpp:46-52 | the stored number is the value itself if and only if it is below 2^63 |
| `Reflection.BindFields` | src/parameters.h:138-139 | the leaves go to consecutive parameters in declaration order, the position advances by the number of leaves, and it fails exactly for lack of parameters or without a reset |
| `Reflection.BindMembers` | src/parameters.h:174-178 | the same for the members of a struct, one after the other |
| `Reflection.ReadFields` | src/parameters.h:141-142 | the result is a value of the type whose leaves are the decoded columns, and the position advances by the number of leaves |
| `Reflection.LeavesInjective` | src/parameters.h:179-183 | a value is determined by its leaves |
| `Reflection.RoundTrip` | src/parameters.h:174-183 | for every nesting, reading the cells that were bound restores the value and nothing else |
| `Reflection.FlattenInjective` | src/parameters.h:174-178 | different keys have different cells |
| `Reflection.FieldNames` | src/parameters.h:184-187 | appends the names of the leaves |
| `Reflection.FieldTypes` | src/parameters.h:188-191 | appends the SQL types of the leaves |
| `Reflection.ColumnsAgree` | src/parameters.h:138-148 | the i-th name, type and cell belong to the same scalar member, wherever it is nested |
| `Reflection.ColumnMeaning` | src/parameters.h:174-191 | a column has the SQL type of its member's type, INT, TEXT or BLOB, and holds the member's bytes as they are, or its number modulo 2^64 as a signed one |
| `Reflection.ColumnsComplete` | src/parameters.h:174-191 | every scalar member has a column |
| `Reflection.ColumnsInOrder` | src/parameters.h:174-191 | columns come in declaration order, nested members in place |
| `Reflection.LessIsLexicographic` | src/parameters.h:192-196 | operator< is the lexicographic order of the leaves, for every nesting |
| `Reflection.LessExactly` | src/parameters.h:192-196 | one value is less than another exactly if at the first leaf that differs its number is smaller or its bytes come first |
| `Reflection.LessIsStrictTotalOrder` | src/parameters.h:192-196 | operator< is irreflexive, transitive and total |
| `Database.Connection.CreateTable` | src/cache.cpp:227-249 | keeps an existing table; otherwise fails exactly for missing or repeated columns |
| `Database.Connection.Prepare` | src/cache.cpp:273-277 | fails exactly if the table or a column is missing, or a list is empty or of the wrong length |
| `Database.Statement.Bind` | src/parameters.cpp:46-52 | fails exactly for a number out of range or a statement that was stepped and not reset |
| `Database.Statement.Step` | src/cache.cpp:298-328 | an insert replaces the rows with its key; a query shows one matching row, or is done if there is none |
| `Database.RowOfParts` | src/cache.cpp:251-278 | a row made of key and value cells shows each under its own columns |
| `Cache.SameKeyExactly` | src/cache.cpp:251-296 | the database takes two rows for one key, or finds a row by a key, exactly if the keys are equal |
| `Cache.ReplaceUpdates` | src/cache.cpp:298-310 | replacing on the primary key is updating the map |
| `Cache.FindsEntry` | src/cache.cpp:312-328 | the query shows the value of the key's entry, and finds nothing exactly if there is none |
| `Cache.StatementsCompile` | src/cache.cpp:251-296 | the two statements fit the table that createTable makes |
| `Cache.Table.WriteFieldDefinitions` | src/cache.cpp:203-212 | appends one column definition for each leaf, names and types in step |
| `Cache.Table.CreateTable` | src/cache.cpp:227-249 | fails exactly if two columns have the same name and the table is new |
| `Cache.Table.PrepareAdd` | src/cache.cpp:251-278 | succeeds exactly if the table has the named columns |
| `Cache.Table.PrepareQuery` | src/cache.cpp:280-296 | succeeds exactly if the table has the named columns |
| `Cache.Table.constructor` | src/cache.cpp:330-337 | succeeds exactly if the columns of a new table have different names, or an existing one has the columns the statements name; a table made for the same structs keeps its entries |
| `Cache.Table.Add` | src/cache.cpp:298-310 | stores the entry in place of any with the same key, fails only if the storage does and then changes nothing, and touches no other table |
| `Cache.Table.Lookup` | src/cache.cpp:312-328 | returns the value of the key's entry, or false if there is none, and changes nothing |
| `Cache.LastAddWins` | src/cache.h:107-117 | in the map after a sequence of adds a key maps to the value last added with it |
| `Cache.NeverAdded` | src/cache.h:107-117 | in that map a key that was not added maps to what was there before, if anything |
| `Cache.AddAll` | src/cache.cpp:298-310 | any sequence of adds, some of which fail, leaves the table with the map of those that went through |
| `Cache.AddAllThenLookup` | src/cache.cpp:298-328 | after any sequence of attempts to add, of which some fail, a lookup returns the value of the last that went through with the key, or what was stored before, or false |
| `CacheTypes.ShippedTablesOpen` | src/cache_types.cpp:47-103 | the columns of each of the four tables have different names, so all four can be created |
| `CacheTypes.SameStructTwice` | src/parameters.h:104-108 | a struct that nests the same struct type twice cannot be stored: nested names carry no prefix |
| `Ownership.StepKeeps` | src/core.cpp:261-320 | every operation keeps: one owner for each live object, deletion once, freeing once, wrappers accounted for |
| `Ownership.WhoOwnsWhat` | src/core.cpp:274-295 | who owns which object after each operation, and that no object that is left has another callback than before |
| `Ownership.RunIsSafe` | src/core.cpp:261-320 | in every state of every run: no object with two owners or none, none deleted twice or while owned, no user data freed twice or while registered |
| `Ownership.NothingRemains` | src/utils.cpp:56-77 | when the last handle is gone every object was deleted once and the data freed is exactly the data accepted; remaining wrappers are exactly the leaked ones |
| `Ownership.StepExtends` | src/utils.cpp:56-66 | what was deleted or freed stays so |
| `Ownership.AcceptedExactly` | include/clogs/core.h:355-384 | user data is accepted exactly if the handle is initialised; a wrapper leaks exactly if it is not |
| `Ownership.WrapperLost` | include/clogs/core.h:355-364 | a run that sets a wrapped callback on an uninitialised handle ends with the wrapper live and the data not freed |
| `Ownership.Library.StealPointer` | src/core.cpp:274-278 | the new handle has the pointer, the other is null, all others are as they were |
| `Ownership.Library.ExchangePointer` | src/core.cpp:280-290 | returns the replaced pointer; moving onto itself changes nothing |
| `Ownership.Library.CallFree` | include/clogs/core.h:263-269 | frees the user data if there is a free function, and the wrapper if there is one |
| `Ownership.Library.DeleteDetail` | src/utils.cpp:73-77 | the object is gone and what it held has been freed |
| `Ownership.Library.Construct` | src/scan.cpp:611-626 | the handle owns a new object, or neither comes into being if its constructor throws |
| `Ownership.Library.DefaultConstruct` | src/core.cpp:261-263 | the handle is null |
| `Ownership.Library.MoveConstruct` | include/clogs/scan.h:141-144 | the object changes hands, the other handle is null; no object, callback or other handle changes |
| `Ownership.Library.MoveAssign` | src/scan.cpp:628-631 | the object changes hands, the other handle is null, the previous object is deleted with its callback and no other is; onto itself nothing changes |
| `Ownership.Library.Swap` | src/core.cpp:292-295 | each handle has the pointer of the other; no object, callback or other handle changes |
| `Ownership.Library.SetEventCallback` | src/core.cpp:313-320 | throws exactly if the handle is null; otherwise frees the old data and holds the new |
| `Ownership.Library.Destroy` | src/scan.cpp:633-636 | the handle is gone and its object deleted |
| `Extensions.Find` | src/utils.cpp:82-92 | the first occurrence from a position on |
| `Extensions.FoundExactly` | src/utils.cpp:86-91 | a delimited occurrence is a whole word of the list |
| `Extensions.DeviceHasExtension` | src/utils.cpp:79-95 | true if and only if the extension is one of the reported words |

## Left out

- Scan.Scan.EnqueueInternal: an accepted offset index of 2^32 - 1 with a smaller offset buffer is left out; the wrapped check lets it pass (`Scan.Scan.OffsetCheckExactly`) and what the device then reads is undefined. Accepted calls with 2^32 or more elements, or such a block size, are left out as well, because kernel arguments are cast to cl_uint; all ranges that wrap past the range check are among them.
- Radixsort.Radixsort.Enqueue: accepted calls for which the 32-bit arithmetic of the kernels is not exact (`RadixKernels.Fits32`) are left out: an argument is cast, a block's end or a position in a tile wraps, or a distance needs more than 31 bits. The sort loses pairs then (`Radixsort.Radixsort.LastBlockLost`, `Radixsort.Radixsort.SingleBlockLost`). Rejected calls are covered for all sizes.
- Reduce.Reduce.Enqueue: accepted calls whose first element or output position is 2^32 or more, or whose blocks together reach 2^32, are left out: arguments are cast and the last block's end wraps (`Reduce.Reduce.LastGroupLost`).
- Reduce.Reduce.EnqueueToHost: the same calls are left out.
- Radixsort.Radixsort.constructor: the warp sizes, which only become defines of the program, and the built program are not fields of the model.
- Tune.TuneOne: an exception other than InternalError and cl::Error, which leaves the loop in the source, is not modelled; every failure of a callback drops its candidate.
- The inside of the kernels (kernels/*.cl): apart from the block bounds, the tile's write condition and the places where the sweep programs leave counts, kernels do what the tests' reference loops and the header say; barriers, warps and races inside a work-group are not modelled.
- Floating-point elements and vector types: elements are integers modulo 2^bits.
- The OpenCL runtime: contexts, devices, memory allocation failures and errors of enqueue calls. Two callers that share buffers without waiting for each other's events are not modelled: between its commands nothing else changes the memory of a call.
- The timing callbacks of the tuner are arbitrary functions of pass, size and candidate; NaN counts as failure, and equal candidates within a pass get equal results. Of what the callbacks do, only that the radix sort's fail for zero blocks is modelled.
- The candidate lists of the reduction (src/reduce.cpp) are not modelled.
- Overflow of the doubling loops for devices whose limits are near 2^64, and devices that report no compute units.
- Real SQLite: SQL text, quoting, file location, case-insensitive column names, locks and transactions. The model has named columns, replacement on the primary key and numbered parameters.
- What a table holds that another version of the program made with other columns: opening it and preparing the statements is covered, the entries are not; the version number in a table's name is there to avoid that.
- Ownership numbers user data so that every registration passes different data; the events passed to callbacks appear only as the list of events in the primitives.
- roundDownPower2, the Type tables, logging, problem and policy objects, handle reference counting (retainWrap, unwrap), the kernel-binary cache in build, benchmarks, option parsing and the build scripts.
- Several source functions are split into a method for each part (the passes, the copy back, the checks), so that each part has its own contract; the order of their effects is that of the source.
