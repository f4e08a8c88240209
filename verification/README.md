# Parallax runtime: verified model

A Dafny model of three parts of the Parallax runtime and proofs of what they promise.

**The heap pool** (`src/memory/heap_pool.cpp`). A boundary-tag, segregated-fit allocator that
keeps headers, footers, free-list links and back-pointers inside the memory it manages.
`HeapModel` is the heap as a value (physical tiling and 44 bins), `HeapMemory` says how words
encode it, and `HeapPool.Pool` is the imperative allocator over an array of 8-byte words,
proved against both. Its invariant `Pool.Valid` ties the tiling, the tags, the doubly linked
bins and the live allocations together; every operation keeps it. `PoolClient` runs arbitrary
client programs on it and compares them with the result computed from the program alone.
`HeapRequest` holds the request arithmetic, `HeapCheck` the meaning of the consistency check.

**The data-parallel primitives** (`launch_*` in `src/kernel/kernel_launcher.cpp`, `shaders/`,
and the funnels of `include/parallax/stdpar.hpp`). A dispatch is a loop that picks workgroups
and lanes in any order (`Lanes`), with barriers as the boundaries between such loops, so the
results hold for every order. `BitonicMerge` and `BitonicSort` cover the sort, `Scan`,
`Reduce` and `Compact` the other primitives, and `Funnels` the host, in-place and staged paths.
Elements are exact integers.

**The unified arena and its migration protocol** (`src/memory/arena.cpp` and
`ArenaSyncScope`). `Arena.UnifiedArena` is the suballocator, with `Arena.Allocated` and
`Arena.Released` as its meaning, and `ArenaAccounting` the conservation of its bytes. `Migration`
gives programs of host accesses, allocations and nested operations a meaning over one memory
(`Events`, `OneMemory`, `Legal`) and proves that `Migration.Machine`, the depth-counted scope over
a host and a device memory, refines it. `Launches` runs the launchers on that machine with their
scratch in the arena. `Elements` reads buffers of bytes as integers and says what the kernels mean
on them, which carries the results of the primitives over to the bytes that the caller finds;
`ByteKernels` has kernels on one-byte elements that meet all these assumptions.

`Bits` defines `&`, `^` and 64-bit addition bit by bit and proves the facts about powers of
two that the sources rely on; `Sums` and `Chunks` are shared arithmetic of the primitives.

Statements that the sources or their comments suggest and that fail for some inputs are given
with the condition under which they hold:

- A pool request has room for its payload exactly when its size computation does not wrap
  (`HeapRequest.RoomIffNoWrap`).
- A passing heap check means that a tiling exists exactly when no step of the walk wrapped
  around 2^64 (`HeapCheck.CheckDecidesTiling`, with a passing counterexample in
  `HeapCheck.CheckCanPassWithoutTiling`); with words too small to wrap, the check passes exactly
  when a tiling exists (`HeapPool.Pool.CheckLocked`).
- The walk of the heap check visits no offset twice, unless a header leads back to offset 0. The
  model stops there with `OutOfRange`, which happens exactly then; the source reads the word
  before its mapping, and when that word matches it starts over and never ends
  (`HeapCheck.CheckCanRunForever`).
- The sort schedule ends for n = 2^m exactly when m <= 30 (`BitonicSort.ScheduleEndsIff`); for
  powers of two from 2^32 on, the 32-bit count is 0 and the launcher reports success without
  sorting (`BitonicSort.LaunchSort`). So `device_sort` does not return for more than 2^30 and at
  most 2^31 elements, and returns more than 2^31 elements unsorted (`Funnels.DeviceSort`).
- The funnels do not look at the result of a launch. Their contracts say what the caller gets
  after a failed one: `init` from a reduction, 0 kept elements from a compaction, blockwise sums
  or the input itself from a scan, and old elements or padding from a sort.
- The high-water mark of the arena is described as a mark apart from the bump pointer
  (`include/parallax/arena.hpp`); in the code the two are always equal
  (`Arena.UnifiedArena.Valid`).

Check the project with `dafny verify dfyconfig.toml`.

## Model

| member | source | states |
|---|---|---|
| Bits.XorPow2 | shaders/bitonic.comp:18 | the partner i ^ 2^e is the index 2^e away in the other half of its block |
| Bits.XorInvolutive | shaders/bitonic.comp:5-6 | the partner of the partner is the index itself |
| Bits.AndPow2 | shaders/bitonic.comp:22 | i & 2^e is zero exactly when bit e of i is clear |
| Bits.AndPredecessor | src/kernel/kernel_launcher.cpp:1576 | count & (count - 1) is zero exactly for powers of two |
| Bits.AndMask | src/memory/heap_pool.cpp:37 | masking with ~(2^e - 1) clears the low e bits |
| Bits.RoundUpIsLeastMultiple | src/memory/heap_pool.cpp:37 | round_up / align_up give the least multiple of a power of two not below the argument, unless the addition wraps |
| HeapModel.BinIndexMonotone | src/memory/heap_pool.cpp:66-72 | larger sizes never fall in a lower bin |
| HeapModel.BinOfSize | src/memory/heap_pool.cpp:66-72 | bin i holds exactly the sizes from 16 * 2^i below 32 * 2^i, the first bin also smaller and the last all larger ones |
| HeapModel.SearchComplete | src/memory/heap_pool.cpp:112-134 | if nothing listed from the request's bin upwards fits, no free block of the heap fits |
| HeapModel.FirstFitUnique | src/memory/heap_pool.cpp:114-117 | the search order names at most one first fitting block |
| HeapModel.FirstFitLeastClass | src/memory/heap_pool.cpp:114-117 | the block found is of the least size class that has a block of the requested size |
| HeapModel.CarveTakes | src/memory/heap_pool.cpp:118-126 | an allocation takes less than 32 bytes more than asked for, and leaves the rest of a longer block as one free block |
| HeapModel.Predecessor | src/memory/heap_pool.cpp:145-147 | every block but the first has a block that ends where it begins |
| HeapModel.CarveKeepsInv | src/memory/heap_pool.cpp:118-126 | splitting or taking a free block keeps exact tiling, full coalescing and complete bins |
| HeapModel.MergeTiles | src/memory/heap_pool.cpp:140-153 | joining two adjacent blocks keeps the tiling exact |
| HeapModel.AbsorbNextKeepsInv | src/memory/heap_pool.cpp:140-144 | forward coalescing keeps the invariant and leaves no free successor |
| HeapModel.AbsorbIntoKeepsInv | src/memory/heap_pool.cpp:145-153 | backward coalescing keeps the invariant and leaves no free neighbour on either side |
| HeapModel.SetFreeKeepsInv | src/memory/heap_pool.cpp:154-155 | a block without free neighbours can be marked free and binned |
| HeapModel.ReleaseUnique | src/memory/heap_pool.cpp:136-156 | freeing a block leaves exactly one possible heap |
| HeapModel.AllFreeIsOneBlock | src/memory/heap_pool.cpp:8-13 | a heap whose blocks are all free is a single block covering the reservation |
| HeapModel.LayoutIsCanonical | src/memory/heap_pool.cpp:112-156 | the whole physical layout is determined by the allocated blocks, whatever the history |
| HeapMemory.InsertLinked | src/memory/heap_pool.cpp:74-81 | the writes of bin_insert put the block at the head of its doubly linked list and touch only link words |
| HeapMemory.RemoveLinked | src/memory/heap_pool.cpp:83-88 | the writes of bin_remove take the block out of its list, wherever it stands, and touch only link words |
| HeapMemory.LinksKeepTags | src/memory/heap_pool.cpp:8-13 | link writes never change a header or footer |
| HeapMemory.PayloadIsNotLink | src/memory/heap_pool.cpp:10-11 | no word of an allocated block is a free-list link |
| HeapMemory.SplitFixesTags | src/memory/heap_pool.cpp:119-123 | after a split both parts have matching header and footer |
| HeapMemory.PayloadWrite | src/memory/heap_pool.cpp:15-17 | a write between header and footer of an allocated block disturbs no tag, no link and no other allocation |
| HeapMemory.AllocationsDisjoint | src/memory/heap_pool.cpp:178-203 | distinct live allocations, back-pointers included, share no address |
| HeapRequest.AlignForIsLeastPow2 | src/memory/heap_pool.cpp:179-180 | the alignment used is the least power of two that is at least 16 and at least the request |
| HeapRequest.RoomIffNoWrap | src/memory/heap_pool.cpp:184-187 | the block size has room for back-pointer, slack and payload exactly when its computation does not wrap |
| HeapRequest.RequestIsLeast | src/memory/heap_pool.cpp:184-187 | the block size asked for is the least multiple of 16 with room for header, back-pointer, alignment slack, payload and footer |
| HeapRequest.PayloadFits | src/memory/heap_pool.cpp:190-192 | the pointer is aligned, its back-pointer lies after the header and its last byte before the footer |
| HeapRequest.PayloadIsFirst | src/memory/heap_pool.cpp:190-191 | the pointer is the first multiple of the alignment from 16 bytes after the block base on, and 16 bytes after it for alignments up to 16 |
| HeapCheck.WalkNeverRepeats | src/memory/heap_pool.cpp:163-170 | on any words the check never comes back to an offset it has stepped to, so its walk ends |
| HeapCheck.TilingIsWalked | src/memory/heap_pool.cpp:158-172 | a header/footer tiling is walked end to end |
| HeapCheck.WalkIsTiling | src/memory/heap_pool.cpp:158-172 | a walk that only ascends spells out a header/footer tiling |
| HeapCheck.CheckDecidesTiling | src/memory/heap_pool.cpp:158-172 | when the check passes, a tiling exists exactly when no step wrapped |
| HeapCheck.SmallHeadersAscend | src/memory/heap_pool.cpp:167 | when no word exceeds 2^64 minus the reservation, every walk ascends |
| HeapCheck.CheckCanPassWithoutTiling | src/memory/heap_pool.cpp:167 | concrete words on which the check passes although no tiling exists |
| HeapCheck.CheckCanRunForever | src/memory/heap_pool.cpp:164-169 | concrete words on which every test of the source passes at offset 64 and the next offset is 0 again |
| HeapPool.HeaderMasks | src/memory/heap_pool.cpp:57-58 | the masks on a header word split it into size and flag |
| HeapPool.Pool.constructor | src/memory/heap_pool.cpp:90-109 | a successful initialisation yields one free block over the whole reservation, in its bin |
| HeapPool.Pool.SetBlock | src/memory/heap_pool.cpp:59-62 | header and footer of the region are written and nothing else |
| HeapPool.Pool.BinInsert | src/memory/heap_pool.cpp:74-81 | the memory encodes the lists with the block in front of its bin |
| HeapPool.Pool.BinRemove | src/memory/heap_pool.cpp:83-88 | the memory encodes the lists without the block |
| HeapPool.Pool.Search | src/memory/heap_pool.cpp:114-117 | the first fitting block in search order, or null exactly when no free block fits |
| HeapPool.Pool.BlockAlloc | src/memory/heap_pool.cpp:112-134 | null exactly when no free block has the requested size, else a block of the least size class that has one, less than 32 bytes too long, with the rest of it free again, all allocations unchanged, high-water updated |
| HeapPool.Pool.ForwardCoalesce | src/memory/heap_pool.cpp:140-144 | the block absorbs a free successor found from its header |
| HeapPool.Pool.BackwardCoalesce | src/memory/heap_pool.cpp:145-153 | the block joins a free predecessor found from its footer |
| HeapPool.Pool.BlockFree | src/memory/heap_pool.cpp:136-156 | the invariant holds with the block freed and merged both ways, and all other allocations are unchanged |
| HeapPool.Pool.Alloc | src/memory/heap_pool.cpp:178-195 | the first aligned pointer of a block with usable size at least the request, exhaustion exactly when no free block has the size the request needs, other payloads and back-pointers unchanged; pointer and heap are determined by the heap before |
| HeapPool.Pool.Free | src/memory/heap_pool.cpp:197-203 | the block recovered from the back-pointer is released, leaving the one possible heap, and everything else stays |
| HeapPool.Pool.UsableSize | src/memory/heap_pool.cpp:205-211 | the bytes from the pointer to the footer, 8 bytes before the end of the block |
| HeapPool.Pool.Realloc | src/memory/heap_pool.cpp:213-223 | the pointer itself when the new size fits, else a move or null exactly when nothing fits; the first min(old usable, new) bytes are kept, failed growth changes nothing, other allocations are unchanged |
| HeapPool.Pool.UserWrite | src/memory/heap_pool.cpp:15-17 | a client write inside its payload keeps the invariant and every other allocation |
| HeapPool.Pool.CheckLocked | src/memory/heap_pool.cpp:158-172 | passes exactly when a walk reaches the end, stops out of range exactly when a header leads back to 0, passes on every tiling, and decides tiling when no step wraps |
| HeapPool.Pool.Check | src/memory/heap_pool.cpp:240 | every reachable pool passes the check |
| HeapPool.Pool.NothingLive | src/memory/heap_pool.cpp:136-156 | with nothing allocated the reservation is one free block again |
| PoolClient.WordKept | tests/unit/test_heap.cpp:38-66 | a word written through a pointer survives every later step but a write over it and the end of its own allocation |
| PoolClient.Client.Perform | tests/unit/test_heap.cpp:38-66 | one client step changes the pointers, the remembered words and the heap exactly as computed from the state before |
| PoolClient.Client.Run | tests/unit/test_heap.cpp:38-66 | over every program the run ends in the pointers and words computed from the program, every such word is in memory, and no check fails |
| PoolClient.Client.RunAndFree | tests/unit/test_heap.cpp:38-66 | freeing whatever a program left restores the single free block |
| BitonicMerge.UpDownIsBitonic | shaders/bitonic.comp:20-21 | an ascending run followed by a descending one is bitonic |
| BitonicMerge.HalfDoesNotAlternate | shaders/bitonic.comp:22-28 | at every threshold, the low and the high half of a cleaned bitonic sequence alternate at most once |
| BitonicMerge.HalvesOrdered | shaders/bitonic.comp:22-28 | after cleaning, every element of the low half is in order with every element of the high half |
| BitonicSort.LanesCommute | shaders/bitonic.comp:15-30 | any two invocations of a stage commute |
| BitonicSort.BitonicLane | shaders/bitonic.comp:15-30 | one invocation exchanges its pair at most once and keeps the elements |
| BitonicSort.DispatchStage | src/kernel/kernel_launcher.cpp:1481-1566 | in any lane order the stage gives the same memory and a permutation of it |
| BitonicSort.StageKeepsMerged | src/kernel/kernel_launcher.cpp:1598-1601 | a stage turns bitonic 2j-blocks into ordered bitonic j-blocks |
| BitonicSort.NextPhase | src/kernel/kernel_launcher.cpp:1597 | the sorted blocks of one phase form the bitonic blocks of the next |
| BitonicSort.MergedAtEnd | src/kernel/kernel_launcher.cpp:1595-1602 | after the last phase the whole buffer ascends |
| BitonicSort.ScheduleSorts | src/kernel/kernel_launcher.cpp:1595-1602 | the whole (k, j) schedule sorts every sequence of 2^m elements and only rearranges it |
| BitonicSort.ScheduleLength | src/kernel/kernel_launcher.cpp:1597-1598 | the schedule of 2^m elements has m (m + 1) / 2 stages |
| BitonicSort.RunSchedule | src/kernel/kernel_launcher.cpp:1595-1602 | the 32-bit loops run exactly the stages of the schedule in order, up to a failing dispatch |
| BitonicSort.LaunchSort | src/kernel/kernel_launcher.cpp:1568-1606 | an ascending permutation after exactly m(m+1)/2 stages for count 2^m up to 2^30, refusal with no change for other counts, no change at all from 2^32 on, and the stages run so far when a dispatch fails |
| BitonicSort.ScheduleEndsIff | src/kernel/kernel_launcher.cpp:1597 | the 32-bit outer loop ends for n = 2^m exactly when m <= 30 |
| BitonicSort.SortedIsUnique | include/parallax/stdpar.hpp:151-154 | a sorted arrangement of given elements is unique |
| Scan.WindowDoubles | shaders/scan.comp:24-30 | a round doubles the window each lane has summed |
| Scan.HillisSteele | shaders/scan.comp:20-30 | the rounds leave every prefix sum of the chunk, in any lane order within a phase |
| Scan.ScanWorkgroup | shaders/scan.comp:16-36 | the block holds its own prefix sums and the block total is stored |
| Scan.DispatchScanAdd | shaders/scan_add.comp:14-20 | every block after the first gets the scanned total of its predecessors added |
| Chunks.SumOfTotals | src/kernel/kernel_launcher.cpp:1322-1332 | sums of block totals are sums of the data up to block ends |
| Scan.LaunchScan | src/kernel/kernel_launcher.cpp:1280-1342 | for every count, unless an allocation or a dispatch fails, data[i] ends as the sum of the original data[0..i]; after a failure the data is unchanged or scanned block by block |
| Scan.LaunchExclusiveScan | src/kernel/kernel_launcher.cpp:1437-1475 | unless something fails, out[i] is init plus the sum of the input before i; after a failure the output is unchanged |
| Lanes.GroupsShrink | src/kernel/kernel_launcher.cpp:1325-1328 | the group count is positive and strictly below a count of at least two |
| Reduce.TreeReduce | shaders/reduce.comp:29-35 | the halving rounds leave the chunk total in cell 0 |
| Reduce.DispatchLevel | src/kernel/kernel_launcher.cpp:966-970 | a level writes one block total per group into a buffer other than its source and large enough |
| Reduce.LaunchReduce | src/kernel/kernel_launcher.cpp:908-985 | the exact sum for every count unless something fails, with the source untouched, ping-pong buffers never read and written in one level, and every level within the two scratch sizes |
| Sums.SumFolded | shaders/reduce.comp:30-33 | adding the upper half onto the lower half keeps the total |
| Compact.FlagSumIsPlace | shaders/scatter.comp:2-4 | the scanned flags count the kept elements |
| Compact.PlacesDistinct | shaders/scatter.comp:20-22 | scatter destinations of different kept elements differ |
| Compact.KeeperOfPlace | shaders/scatter.comp:20-22 | each output place below the kept count has exactly one element that lands there |
| Compact.DispatchFlags | shaders/flags.comp:14-19 | flags are 1 for kept elements and 0 otherwise |
| Compact.DispatchScatter | shaders/scatter.comp:15-23 | in any lane order the output is filled with the kept elements and nothing else changes |
| Compact.LaunchCompact | src/kernel/kernel_launcher.cpp:1701-1791 | unless something fails, output[0..kept) is the filtered input in order, kept its length, the rest of the output untouched; after a failure nothing is written |
| Funnels.DeviceScan | include/parallax/stdpar.hpp:186-211 | the in-place, staged and host paths give the same inclusive sums; after a failed launch the input or its blockwise sums |
| Funnels.DeviceExclusiveScan | include/parallax/stdpar.hpp:218-239 | the staged path agrees with the sequential exclusive scan |
| Funnels.DeviceReduce | include/parallax/stdpar.hpp:127-149 | every path returns init plus the sum, and init after a failed launch |
| Funnels.DeviceCopyIf | include/parallax/stdpar.hpp:300-323 | every path copies the kept elements in order into an output with room for them and returns their number; 0 and no change after a failed launch |
| Funnels.PaddingSortsToTheEnd | include/parallax/stdpar.hpp:151-154 | padding with the greatest value, sorting and truncating is sorting |
| Funnels.DeviceSort | include/parallax/stdpar.hpp:156-179 | the zero-copy, padded and host paths all leave the sorted permutation up to 2^30 elements, and the device paths leave more than 2^31 elements as they were |
| Arena.BumpKeepsInv | src/memory/arena.cpp:370-379 | bump allocation keeps the byte ownership exact |
| Arena.ReuseKeepsInv | src/memory/arena.cpp:349-367 | reuse with padding, shrinking or erasing keeps the byte ownership exact |
| Arena.DeallocateKeepsInv | src/memory/arena.cpp:387-393 | freeing moves a live block to the free list and keeps the byte ownership exact |
| Arena.FitsIffOffers | src/memory/arena.cpp:350-352 | the fit test passes exactly when the freed block has an aligned range of the requested size |
| Arena.AllocatedServes | src/memory/arena.cpp:336-381 | a request gets the first aligned range of the first freed block that has one, else the first one from the bump pointer on, and null only when there is none |
| Arena.ReallocateReleased | src/memory/arena.cpp:349-367 | after a release the same request does not get null |
| Arena.RoomServes | src/memory/arena.cpp:369-380 | room behind the bump pointer always serves a request of default alignment, and without freed blocks nothing else does |
| Arena.UnifiedArena.Allocate | src/memory/arena.cpp:336-381 | as above on the fields of the arena; padding is dropped only for alignments above the default; pointer and space are determined by the space before |
| Arena.UnifiedArena.Deallocate | src/memory/arena.cpp:383-394 | a live block moves to the free list, any other pointer is ignored |
| Arena.UnifiedArena.LiveBlocksCovered | src/memory/arena.cpp:376-377 | every live byte lies below the high-water mark and in one live block only |
| Arena.UnifiedArena.BytesPartitioned | src/memory/arena.cpp:336-394 | every byte below the bump pointer is live, freed or dropped, and only one of these |
| Arena.UnifiedArena.FlushToDevice | src/memory/arena.cpp:296-299 | the bytes below the high-water mark are copied to the device, nothing on UMA |
| Arena.UnifiedArena.InvalidateFromDevice | src/memory/arena.cpp:301-304 | the bytes below the high-water mark are copied to the host, nothing on UMA |
| ArenaAccounting.BytesConserved | src/memory/arena.cpp:336-394 | live, freed and dropped sizes add up to the bump pointer, and to live plus freed alone when nothing was dropped |
| Migration.EffectAgrees | src/kernel/kernel_launcher.cpp:34-38 | a kernel that reads only agreeing bytes keeps both memories in agreement and extends it to what it writes |
| Migration.CopyAgrees | src/memory/arena.cpp:296-304 | copying the bytes below the high-water mark carries the agreement over |
| Migration.Machine.Enter | src/kernel/kernel_launcher.cpp:42-47 | the outermost scope flushes, nested scopes keep the device authoritative |
| Migration.Machine.Exit | src/kernel/kernel_launcher.cpp:48-50 | the outermost scope migrates back, nested scopes do nothing |
| Migration.Machine.Dispatch | src/kernel/kernel_launcher.cpp:895-905 | a completed dispatch matches the one-memory run of the same kernel |
| Migration.Machine.Perform | src/kernel/kernel_launcher.cpp:34-51 | one step has exactly its meaning over one memory; stores need an idle machine and a live byte, loads a written byte and a current mapping, kernels an operation, written sources and live targets, and nothing else is refused |
| Migration.Machine.Run | src/kernel/kernel_launcher.cpp:34-51 | a program with operations nested to any depth has exactly its meaning over one memory |
| Migration.LegalEvents | src/kernel/kernel_launcher.cpp:34-51 | a legal program does exactly the stores, kernels and loads of its text |
| Migration.LegalOnOneMemory | src/kernel/kernel_launcher.cpp:34-51 | what a staged machine allows, a one-memory machine allows with the same effect |
| Migration.RunsAsOneMemory | src/kernel/kernel_launcher.cpp:34-51 | after a legal program every byte that the one-memory run of its text has written has on the host the value of that run, and host loads returned the values of that run |
| Migration.LastStore | src/kernel/kernel_launcher.cpp:34-38 | the one memory holds the last value stored to a byte until something writes the byte again |
| Migration.StoreSurvives | src/kernel/kernel_launcher.cpp:34-51 | a byte stored by the host reads back as stored, whatever nested operations run in between, as long as none may write it |
| Migration.OperationOnHost | src/kernel/kernel_launcher.cpp:39-51 | after an operation with one kernel the host holds the outputs of the kernel for the host values of its sources, and every other written byte as before |
| Migration.StagedRefinesUnified | src/kernel/kernel_launcher.cpp:34-51 | a program legal on a staged machine runs on a one-memory machine too, and both end with the same loads and the same host value in every byte written |
| Elements.TotalsFit | src/kernel/kernel_launcher.cpp:1322-1332 | when no sum of the elements wraps, no sum of the block totals does |
| Elements.ScanCombines | src/kernel/kernel_launcher.cpp:1316-1337 | block scans, scanned totals and offsets on the bytes of the arena make the inclusive scan |
| Elements.LevelKeepsTotal | src/kernel/kernel_launcher.cpp:966-975 | a reduction level on the bytes of the arena keeps the sum, which still fits |
| Elements.FlagsScanned | src/kernel/kernel_launcher.cpp:1753-1761 | the scanned flags on the bytes of the arena are the places of the kept elements |
| ByteKernels.StageHolds | shaders/bitonic.comp:15-30 | on one-byte elements there is a kernel with the meaning and the reads and writes that the sort assumes |
| ByteKernels.ScanHolds | shaders/scan.comp:16-36 | the same for the scan kernel and the offset kernel |
| ByteKernels.LevelHolds | shaders/reduce.comp:21-41 | the same for the reduction kernel |
| ByteKernels.CompactHolds | shaders/scatter.comp:15-23 | the same for the flags and scatter kernels, for every predicate |
| Launches.Scan | src/kernel/kernel_launcher.cpp:1280-1342 | at any depth the recursion dispatches exactly the kernels of its levels, succeeds whenever its scratch fits, returns its scratch on success, changes no other live byte, and leaves the prefix sums |
| Launches.LevelsAreLeast | src/kernel/kernel_launcher.cpp:1325-1328 | the recursion has the least number L of levels with count at most 256^L |
| Launches.ScanDispatches | src/kernel/kernel_launcher.cpp:1316-1337 | a successful scan of L levels takes 2 L - 1 dispatches |
| Launches.ScanFits | src/kernel/kernel_launcher.cpp:1310-1311 | a scan succeeds when its scratch fits behind the bump pointer, and in an arena without freed blocks exactly then |
| Launches.ScanRoomSmall | src/kernel/kernel_launcher.cpp:1310-1330 | the scratch of all levels is at most a 255th of the data plus an element and 255 bytes a level |
| Launches.Sort | src/kernel/kernel_launcher.cpp:1568-1606 | one dispatch per point of the schedule in its order inside one scope, and no other live byte changes |
| Launches.SortOnHost | src/kernel/kernel_launcher.cpp:1568-1606 | after an outermost sort the caller finds its elements on the host in ascending order, on a staged machine too |
| Launches.ScanOnHost | src/kernel/kernel_launcher.cpp:1280-1342 | after an outermost scan the caller finds the prefix sums on the host, on a staged machine too |
| Launches.Reduce | src/kernel/kernel_launcher.cpp:908-985 | exactly the dispatches of its levels and one host read, which returns the sum; succeeds whenever its scratch fits, returns its scratch on success and changes no live byte |
| Launches.TreeDispatches | src/kernel/kernel_launcher.cpp:941-975 | a reduction takes one dispatch per level |
| Launches.ReduceFits | src/kernel/kernel_launcher.cpp:928-938 | a reduction succeeds when its two scratch buffers fit behind the bump pointer, and in an arena without freed blocks exactly then |
| Launches.Compact | src/kernel/kernel_launcher.cpp:1701-1791 | flags, nested scan, migration, host read and scatter in this order; the read returns the number of kept elements, the output begins with them in order, and no other live byte changes |
| Launches.CompactFits | src/kernel/kernel_launcher.cpp:1745-1751 | a compaction succeeds when its positions and the scratch of its scan fit behind the bump pointer, and in an arena without freed blocks exactly then |
| Launches.CompactDispatches | src/kernel/kernel_launcher.cpp:1753-1762 | a compaction dispatches its flags once before the nested scan |
| Launches.StaleCopyIsRight | src/kernel/kernel_launcher.cpp:919 | a host copy taken before kernels reach the host is right for every kernel exactly when none of its bytes is a target |
| Launches.CopyAfterKernel | src/kernel/kernel_launcher.cpp:919 | the one-element copy under an enclosing scope returns the bytes from before the kernel on a staged machine, and the current ones on a one-memory machine |

## Left out

- Vulkan objects, descriptor sets, command buffers and device limits: a dispatch is one completed step, as it is where the launcher waits before returning.
- mmap failure, environment variables, lazy initialisation, the spin lock and logging of the pool: each locked call is atomic and the pool starts initialised, so the answer of the check on an uninitialised pool is not modelled.
- HeapPool.Pool.Alloc: asks for requests whose size computation does not wrap (`HeapRequest.Representable`); what the pool does to its memory after a wrapped request is not modelled.
- HeapPool.Pool.Realloc: asks for the same of its new size, and is one atomic step, while the source locks its three calls separately.
- HeapPool.Pool.UserWrite: client writes are whole 8-byte words; payloads consist of whole words, so byte writes are word writes with the other bytes kept.
- HeapPool.Pool.CheckLocked: stops with `OutOfRange` where the source reads the word before its mapping; what that read does is not modelled.
- BitonicSort.LaunchSort: asks for a count other than 2^31, for which the schedule does not end.
- Scan.LaunchScan: counts below 2^32, the width of the kernels' count, and integers without wrap-around.
- Reduce.LaunchReduce: counts below 2^32 and integers without wrap-around.
- Compact.LaunchCompact: counts below 2^32 and exact flag sums; float flags are exact only up to 2^24 elements.
- Funnels.DeviceExclusiveScan: after a failed launch the output is what a scratch buffer happened to hold, so nothing is stated.
- Funnels.DeviceSort: asks on the device paths for at most 2^30 or more than 2^31 elements, because the schedule does not end in between; a type whose numeric maximum is its greatest value; infinities and NaN are not modelled, and std::sort is known by its result only.
- Scan.DispatchShift: the shader is generated elsewhere and is modelled by the behaviour its dispatch site states.
- Arena.UnifiedArena.Allocate: power-of-two alignments and sizes whose 64-bit arithmetic does not wrap; a pool-backed arena is the heap pool and is covered there.
- Launches.Scan: dispatches inside a migration scope succeed; failing dispatches are covered by the primitives' own modules. Buffers are in the arena. What a kernel computes on bytes enters as `Elements.ScanMeaning` and its relatives, the relations that the primitives' modules prove of the shaders, for sums that fit the element type.
- Launches.Reduce: asks for a current host mapping when the count is 1; every launcher that reduces does so outermost, where it is current (`Launches.StaleCopyIsRight` says what is at stake).
- launch, launch_transform and launch_with_captures under migration: their scope migrates back before the caller waits.
- Registered external buffers (dirty-block tracking), the descriptor cache, the kernel registry and the allocation shim.
- Partition, unique, shift, find, mismatch and argminmax: their shaders are not part of the repository, and the host minimum over block winners adds only easy members.
