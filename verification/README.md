# OpenVirtualization secure kernel: verified models

This project models the data structures and arithmetic inside the secure kernel of OpenVirtualization
(SierraTEE) and proves what they keep, over single calls and over whole runs. `dafny verify dfyconfig.toml`
checks it all.

Where the source changes state, the model does too: node arrays, tables and buffers are arrays, the global
structures are classes, and each method is proved against a function on values or states its effect
outright. The laws are then proved about those functions, for every input and every run.

- **Buddy allocator** (`BuddySpec`, `BuddyTiling`, `BuddyRuns`, `BuddyWalk`, `BuddyNodes`, `BuddyHeap`). Free, live and lost
  blocks tile the memory exactly in every reachable state. The node pools suffice when they are as large as
  the memory has least blocks. With the shipped sizes (512 and 341 nodes for 12288 least blocks) they do not:
  a malloc can then lose blocks, and lemmas say exactly when, and exactly when it still
  returns one.
- **Private heaps and tasks** (`HeapLive`, `HeapSlots`, `TaskHeaps`). Slots, owners, counts and live blocks agree.
  They stop agreeing in three ways, each an if and only if on the state before the call: freeing a pointer that is not live,
  allocating while no task is current (the number -1 also marks unassigned slots), and a failed creation that
  frees the not yet initialised stack field. When a creation succeeds is read off the state before the call.
- **Big integers** (`BigNat`, `BigAdd`, `BigBits`, `BigMult`, `BigDiv`), section 8 of the GlobalPlatform TEE
  Internal API Specification v1.0. The carry test of addition and the borrow test of subtraction lose a carry
  exactly when a word is all ones; from that follow the exact conditions for multiplication (no 32 one bits
  above a lower one bit) and, for divisors without such a run, for division: below the top word it is right for
  every dividend if and only if the divisor is a power of two or reaches within two bits of the top word.
- **FAT32 files** (`Bytes`, `Products`, `FatSpec`, `FatGrowth`, `FatVolume`, `FatWrite`), the "FAT Data Structure"
  section of Microsoft's EFI FAT32 File System Specification v1.03. Chains refine flat byte rows; writing, seeking
  and reading agree; other files are untouched. A write that begins after the start and runs past the end leaves
  the size too small, and a seek can come out one cluster short; both are stated exactly.
- **Timer** (`TimeVal`, `TimerSpec`, `TimerRuns`, `TimerCpu`). Packed time arithmetic is exact when it fits; the
  queue is a stable priority queue; each start is answered once. Resetting the recorded expiry after an interrupt
  makes a later start program the tick too late, and a stop leave it as it is; when exactly are lemmas.
- **Lists and scheduler** (`SwList`, `Seqs`, `SchedSpec`, `Scheduler`). The intrusive ring refines sequences; the
  ready list is served strictly in order and no runnable task is lost.
- **Parameter marshalling** (`MarshalSpec`, `Marshal`). Encoder and decoder agree on every offset, both ways, and
  each answer reaches the address the client gave for it.
- **Page bitmaps** (`Pages`). The first free run searched is taken and nothing else is marked; freeing restores both maps
  exactly when no run began in the slack behind its region.

Assumptions that the source leaves to its headers and callers are visible as preconditions: one sector per
cluster, cluster numbers below the end marks, free table entries above the last cluster given out for what a
write needs, ordinary times below TIMEVAL_MAX, heaps at positive addresses. Addresses are unbounded integers.
Clock readings, page-table answers, permission checks and whether a processor context could be set up are
parameters. Locked sections are single steps.

## Model

| member | source | states |
|---|---|---|
| BuddyRuns.Run | tzone_sdk/otzone/src/lib/sw_buddy.c:447-566 | in every run of mallocs (of at most a largest block) and frees the heap invariant holds: node pools not overdrawn, every live block large enough, no two list neighbours of a bin below the top touch, and free, live and lost blocks together fill the memory |
| BuddyRuns.Step | tzone_sdk/otzone/src/lib/sw_buddy.c:447-566 | one malloc or free keeps that invariant |
| BuddyRuns.InitInv | tzone_sdk/otzone/src/lib/sw_buddy.c:119-176 | buddy_init establishes it, when there are free nodes for the first row of blocks |
| BuddyRuns.BlocksDisjoint | tzone_sdk/otzone/src/lib/sw_buddy.c:119-176 | in a tiled heap any two blocks, free, live or lost, are disjoint, none is listed twice, and all lie in the memory at multiples of the least block size |
| BuddyRuns.EveryByteOnce | tzone_sdk/otzone/src/lib/sw_buddy.c:119-176 | each byte of the memory lies in exactly one block of the layout |
| BuddyTiling.SplitLayout | tzone_sdk/otzone/src/lib/sw_buddy.c:265-305 | replacing a block by its two halves keeps a layout contiguous |
| BuddyTiling.MergeLayout | tzone_sdk/otzone/src/lib/sw_buddy.c:366-410 | replacing two touching blocks by their union keeps a layout contiguous, wherever the two sit in the bins |
| BuddyTiling.GetBlockLays | tzone_sdk/otzone/src/lib/sw_buddy.c:265-305 | recursive splitting keeps the tiling, counting the block in hand, also when it fails half way |
| BuddyTiling.MallocFromLays | tzone_sdk/otzone/src/lib/sw_buddy.c:447-509 | so does allocation |
| BuddyTiling.CoalesceLays | tzone_sdk/otzone/src/lib/sw_buddy.c:366-410 | coalescing with restart keeps the tiling: no byte is lost or doubled |
| BuddyTiling.FreeLays | tzone_sdk/otzone/src/lib/sw_buddy.c:550-566 | freeing keeps the tiling, counting a block whose free found no node as lost |
| BuddyTiling.InitLays | tzone_sdk/otzone/src/lib/sw_buddy.c:119-176 | the first row of blocks tiles the memory |
| BuddyRuns.CoalesceClean | tzone_sdk/otzone/src/lib/sw_buddy.c:366-410 | after coalescing from a bin no bin from there to below the top holds two list neighbours of which the second starts where the first ends; lower bins are untouched and there are no more free nodes than before |
| BuddyRuns.MergePairShrinks | tzone_sdk/otzone/src/lib/sw_buddy.c:378-402 | each merge takes one free node away, which with the bin number is why the restarts end |
| BuddyRuns.GetBlockServes | tzone_sdk/otzone/src/lib/sw_buddy.c:265-305 | buddy_get_block takes the last block of the least non-empty bin and hands out its top end, when there are nodes for the splits |
| BuddyRuns.GetBlockKeeps | tzone_sdk/otzone/src/lib/sw_buddy.c:265-305 | every bin on the way keeps exactly the low half of its split, other bins are unchanged |
| BuddyRuns.GetBlockFails | tzone_sdk/otzone/src/lib/sw_buddy.c:265-305 | with all bins of sufficient order empty nothing happens; short of nodes a block is lost with its node |
| BuddyRuns.MallocServes | tzone_sdk/otzone/src/lib/sw_buddy.c:447-509 | a request is served with a block of the least sufficient order, added to the live list, with the address computed from the bin it was split from |
| BuddyRuns.ServedSize | tzone_sdk/otzone/src/lib/sw_buddy.c:483-506 | a block of that order is at least the size asked for and, above the least block, shorter than twice that |
| BuddyRuns.MallocFindsNothing | tzone_sdk/otzone/src/lib/sw_buddy.c:483-506 | with every bin of sufficient order empty it returns NULL and changes nothing |
| BuddyRuns.MallocLosesNothingIff | tzone_sdk/otzone/src/lib/sw_buddy.c:265-305 | a malloc leaks no block if and only if there is no block to take, or there are nodes for every split and for the live block |
| BuddyRuns.MallocLoses | tzone_sdk/otzone/src/lib/sw_buddy.c:486-492 | without those nodes a block leaves the bins and is lost |
| BuddyWalk.MallocSucceedsIff | tzone_sdk/otzone/src/lib/sw_buddy.c:447-509 | malloc returns a block if and only if a node for live blocks is left and, read off the bins before the call, the free nodes suffice up to one split or the bins from the least order on hold enough blocks to make up for those lost on the way |
| BuddyWalk.FullWalk | tzone_sdk/otzone/src/lib/sw_buddy.c:483-506 | with no free node left the walk up the bins succeeds if and only if some stretch of bins from here holds as many blocks as bins |
| BuddyWalk.ShortGetBlock | tzone_sdk/otzone/src/lib/sw_buddy.c:265-305 | an attempt short of nodes splits as far as they go and loses the block then in hand |
| BuddyRuns.FreeLosesNothingIff | tzone_sdk/otzone/src/lib/sw_buddy.c:419-437 | a free leaks no block if and only if the address is not live or a free node is left |
| BuddyRuns.AddedBehindFirstLarger | tzone_sdk/otzone/src/lib/sw_buddy.c:345-353 | a block goes directly behind the first block of its bin at a larger address, or to the end when there is none; the others keep their order |
| BuddyRuns.FreeFiles | tzone_sdk/otzone/src/lib/sw_buddy.c:419-437 | a freed block that touches no list neighbour is filed so in its bin, and nothing else changes but that it is no longer live |
| BuddyRuns.FreedIsNext | tzone_sdk/otzone/src/lib/sw_buddy.c:345-353 | such a block is what the next request of its order returns if and only if no block of the bin but the last lies above it |
| BuddyRuns.MergePairFiles | tzone_sdk/otzone/src/lib/sw_buddy.c:378-402 | a merge takes the two neighbours out and files the first one bin up, behind the first larger address or last; no other bin changes |
| BuddyRuns.PoolsSuffice | tzone_sdk/otzone/src/lib/sw_buddy.c:63-108 | when both pools hold as many nodes as the memory has least blocks, no malloc and no free is ever short of a node |
| BuddyRuns.NothingLostInAnyRun | tzone_sdk/otzone/src/lib/sw_buddy.c:63-108 | with such pools no run loses a block |
| BuddyRuns.LayoutLength | tzone_sdk/otzone/src/lib/sw_buddy.c:63-108 | pigeonhole: blocks in bins, live and lost are at most memory size / least block size |
| BuddyRuns.ShippedPoolsLoseMemory | tzone_sdk/otzone/src/lib/sw_buddy.c:63-108 | with the sizes of the shipped configuration the pools are too small: 342 one-byte requests lose a block although memory is free |
| BuddyNodes.FreeNodeIff | tzone_sdk/otzone/src/lib/sw_buddy.c:63-77 | a free node is found exactly when fewer nodes are in use than there are |
| BuddyNodes.AcNodeIff | tzone_sdk/otzone/src/lib/sw_buddy.c:94-108 | the same for nodes of live blocks |
| BuddyHeap.SwHeap.GetFreeHkNode | tzone_sdk/otzone/src/lib/sw_buddy.c:63-77 | returns the first node with a null map, or none |
| BuddyHeap.SwHeap.GetFreeAcNode | tzone_sdk/otzone/src/lib/sw_buddy.c:94-108 | the same for the other pool |
| BuddyHeap.SwHeap.BuddyGetBlock | tzone_sdk/otzone/src/lib/sw_buddy.c:265-305 | on node arrays and bin lists it computes the specified split |
| BuddyHeap.SwHeap.AddFreeAreaToBin | tzone_sdk/otzone/src/lib/sw_buddy.c:337-357 | the loop files the block where the specification does, which is behind the first larger address or last, and counts it; other bins stay |
| BuddyHeap.SwHeap.CoalesceBuddies | tzone_sdk/otzone/src/lib/sw_buddy.c:366-410 | computes the specified coalescing, in place, with its restarts |
| BuddyHeap.SwHeap.ReturnToPool | tzone_sdk/otzone/src/lib/sw_buddy.c:419-437 | computes the specified return of a block: listed and coalesced, or dropped |
| BuddyHeap.SwHeap.SearchForAllocatedBlock | tzone_sdk/otzone/src/lib/sw_buddy.c:314-327 | finds the first live node with that address |
| BuddyHeap.SwHeap.SwBuddyMalloc | tzone_sdk/otzone/src/lib/sw_buddy.c:447-509 | refines the specified malloc: same result, same heap |
| BuddyHeap.SwHeap.BuddyFree | tzone_sdk/otzone/src/lib/sw_buddy.c:550-566 | refines the specified free |
| BuddyHeap.SwHeap.BuddyInit | tzone_sdk/otzone/src/lib/sw_buddy.c:119-176 | a power-of-two size gives one row of largest blocks above a quarter of housekeeping; any other size is refused |
| HeapLive.MallocOutcome | tzone_sdk/otzone/src/lib/sw_buddy.c:447-509 | an allocation makes exactly one address live, one that was not, of a block at least as long as the request, or none; the invariant stays |
| HeapLive.FreeOutcome | tzone_sdk/otzone/src/lib/sw_buddy.c:550-566 | freeing a live address makes exactly that one not live; any other pointer changes nothing in the heap |
| HeapSlots.MallocKeeps | tzone_sdk/otzone/src/lib/sw_buddy.c:649-673 | a private allocation keeps: no two slots with one owner, counts equal to numbers of live blocks, unassigned slots empty; other heaps are untouched |
| HeapSlots.MallocPrivateIff | tzone_sdk/otzone/src/lib/sw_buddy.c:649-673 | it returns a block if and only if the owner has a slot whose heap, as it stands before the call, has a live node left and finds a block for the request |
| HeapSlots.FreeKeeps | tzone_sdk/otzone/src/lib/sw_buddy.c:723-744 | so does a private free of a live block |
| HeapSlots.FreeKeepsIff | tzone_sdk/otzone/src/lib/sw_buddy.c:723-744 | a private free keeps the table in order if and only if the pointer is live, since the count goes down in any case |
| HeapSlots.NobodyMallocs | tzone_sdk/otzone/src/lib/sw_buddy.c:682-714 | sw_malloc with no current task allocates in the first unassigned slot; the table stays in order if and only if there is no such slot, or its heap, as it stands before the call, does not serve the request |
| HeapSlots.BootInv | tzone_sdk/otzone/src/lib/sw_buddy.c:792-826 | heaps as set up at boot make a table in order, and the common heap gets a slot |
| HeapSlots.AllocHeapKeeps | tzone_sdk/otzone/src/lib/sw_buddy.c:807-826 | a slot is handed to a new owner only when its heap has no live block |
| HeapSlots.AllocHeapIff | tzone_sdk/otzone/src/lib/sw_buddy.c:807-826 | it succeeds if and only if the owner has a slot or one is unassigned; the first such is taken and no heap, count or other owner changes |
| HeapSlots.FreeHeapKeeps | tzone_sdk/otzone/src/lib/sw_buddy.c:835-859 | a slot is given back if and only if its owner has no live block left; heaps and counts stay |
| HeapSlots.FreeDrift | tzone_sdk/otzone/src/lib/sw_buddy.c:723-744 | each free of a pointer that is not live puts the count off by one more, and no later free of a live block repairs it |
| TaskHeaps.Kernel.MallocPrivate | tzone_sdk/otzone/src/lib/sw_buddy.c:649-673 | computes the specified allocation, finding the slot by its owner |
| TaskHeaps.Kernel.FreePrivate | tzone_sdk/otzone/src/lib/sw_buddy.c:723-744 | computes the specified free |
| TaskHeaps.Kernel.AllocHeap | tzone_sdk/otzone/src/lib/sw_buddy.c:807-826 | computes the specified assignment |
| TaskHeaps.Kernel.FreeHeap | tzone_sdk/otzone/src/lib/sw_buddy.c:835-859 | computes the specified return |
| TaskHeaps.Kernel.CreateTask | tzone_sdk/otzone/src/core/task.c:49-143 | a task is created if and only if creation is not denied, a slot is free and each of the three requests is served by the heap as the previous one left it; it then owns exactly the three blocks, each in its field of the record; after a failure its number owns none, and no other owner loses a block but the private data that the clean-up frees; the table stays in order if and only if creation is denied, or the stack field of the fresh record is null, or local storage is not what fails |
| TaskHeaps.Kernel.AllocStack | tzone_sdk/otzone/src/core/task.c:99-139 | the last step succeeds exactly when the stack is allocated; otherwise structure, local storage and private data are freed |
| TaskHeaps.CanCreateIff | tzone_sdk/otzone/src/core/task.c:65-104 | the three conditions, on the state before the call, say what the successive allocations answer |
| TaskHeaps.Kernel.HandleError | tzone_sdk/otzone/src/core/task.c:120-139 | the clean-up leaves the number no block and takes only the private data from others; with a non-null uninitialised stack field it leaves the count wrong |
| TaskHeaps.Kernel.DestroyTask | tzone_sdk/otzone/src/core/task.c:157-207 | frees exactly the three blocks; the slot becomes free if and only if the task left no other live block; other owners lose nothing |
| TaskHeaps.Kernel.TaskMalloc | tzone_sdk/otzone/src/lib/sw_buddy.c:649-673 | a task allocation succeeds exactly when its heap serves, adds one block to what the task owns and keeps every task in possession of its record, storage and stack |
| TaskHeaps.Kernel.TaskFree | tzone_sdk/otzone/src/lib/sw_buddy.c:723-744 | freeing a block that is none of these takes away that block only |
| BigAdd.AddExactIff | tzone_sdk/otzone/src/lib/otz_tee_arith_api.c:230-241 | the sum is right modulo the width if and only if no word below the top has both operand words all ones and a carry in |
| BigAdd.AddShortBy | tzone_sdk/otzone/src/lib/otz_tee_arith_api.c:230-241 | otherwise it is short by the sum of one power of 2^32 per lost carry |
| BigAdd.SubExactIff | tzone_sdk/otzone/src/lib/otz_tee_arith_api.c:287-299 | the difference is right modulo the width if and only if no word below the top has an all-ones subtrahend word and a borrow in |
| BigAdd.SubOverBy | tzone_sdk/otzone/src/lib/otz_tee_arith_api.c:287-299 | otherwise it is over by one power of 2^32 per lost borrow |
| BigAdd.Add | tzone_sdk/otzone/src/lib/otz_tee_arith_api.c:230-241 | the loop, also when the destination is an operand, leaves the specified words |
| BigAdd.Sub | tzone_sdk/otzone/src/lib/otz_tee_arith_api.c:287-299 | likewise for the difference |
| BigAdd.Increment | tzone_sdk/otzone/src/lib/otz_tee_arith_api.c:434-445 | adds one modulo the width |
| BigBits.MaxBitPos | tzone_sdk/otzone/src/lib/otz_tee_arith_api.c:308-322 | the position of the highest one bit of the number |
| BigBits.GetBit | tzone_sdk/otzone/src/lib/otz_tee_arith_api.c:332-343 | that bit of the number |
| BigMult.NoRunNotBad | tzone_sdk/otzone/src/lib/otz_tee_arith_api.c:352-365 | a number without 32 consecutive one bits has no bad place |
| BigMult.Square | tzone_sdk/otzone/src/lib/otz_tee_arith_api.c:373-375 | the loop with both operands the same |
| BigMult.MultCorrectIff | tzone_sdk/otzone/src/lib/otz_tee_arith_api.c:352-365 | the product is right for every multiplier and every destination if and only if the multiplicand has no 32 consecutive one bits above some lower one bit |
| BigMult.MultExact | tzone_sdk/otzone/src/lib/otz_tee_arith_api.c:352-365 | for such a multiplicand the destination becomes itself plus the product, modulo its width |
| BigMult.MultIntoZero | tzone_sdk/otzone/src/lib/otz_tee_arith_api.c:352-365 | a cleared destination becomes exactly the product |
| BigMult.MultWrong | tzone_sdk/otzone/src/lib/otz_tee_arith_api.c:352-365 | for any other multiplicand a multiplier and a destination for which the result is wrong |
| BigMult.Mult | tzone_sdk/otzone/src/lib/otz_tee_arith_api.c:352-365 | the shift-and-add loop leaves the specified words |
| BigDiv.Cmp | tzone_sdk/otzone/src/lib/otz_tee_arith_api.c:377-398 | with equal top words the sign of the comparison; otherwise the lowest bit of the first top word decides |
| BigDiv.LeftShift | tzone_sdk/otzone/src/lib/otz_tee_arith_api.c:407-427 | multiplies by 2^bits modulo the width, moving whole words in place first |
| BigDiv.Divide | tzone_sdk/otzone/src/lib/otz_tee_arith_api.c:471-502 | the remainder is right if and only if the run never takes the branch that shifts a second time; then the quotient is added to what its destination held |
| BigDiv.ReduceMod | tzone_sdk/otzone/src/lib/otz_tee_arith_api.c:511-514 | the remainder under the same condition |
| BigDiv.GoodForAllIff | tzone_sdk/otzone/src/lib/otz_tee_arith_api.c:487-491 | for words of a given number, that branch is avoided for every dividend below the top word if and only if the divisor is a power of two or reaches within two bits of the top word |
| BigDiv.PowerDivides | tzone_sdk/otzone/src/lib/otz_tee_arith_api.c:471-502 | for a power of two the run is good, subtraction loses no borrow and op1 = q * op2 + r with r < op2 |
| BigDiv.PowerDivisorGood | tzone_sdk/otzone/src/lib/otz_tee_arith_api.c:471-502 | every run with a power of two is good |
| BigDiv.WrongDividend | tzone_sdk/otzone/src/lib/otz_tee_arith_api.c:487-491 | for any other divisor, four times itself less one fits below the top word and takes the branch |
| BigDiv.DivideWrongly | tzone_sdk/otzone/src/lib/otz_tee_arith_api.c:471-502 | and its remainder comes out wrong |
| BigDiv.DivideRightly | tzone_sdk/otzone/src/lib/otz_tee_arith_api.c:471-502 | for the former, if free of bad places, op1 = q * op2 + r with r < op2 for every dividend below the top word |
| BigDiv.ShortIsSafe | tzone_sdk/otzone/src/lib/otz_tee_arith_api.c:471-502 | dividends less than half as long as the lower words are covered by Divide, good run or bad |
| BigDiv.EightByThree | tzone_sdk/otzone/src/lib/otz_tee_arith_api.c:487-491 | 8 divided by 3 takes it |
| BigDiv.SubShifted | tzone_sdk/otzone/src/lib/otz_tee_arith_api.c:471-502 | subtracting a shifted divisor without bad places is exact |
| BigDiv.CloseRunGood | tzone_sdk/otzone/src/lib/otz_tee_arith_api.c:471-502 | a dividend at most one bit longer than the divisor has a good run |
| FatWrite.WriteSeekRead | tzone_sdk/otzone/src/fs/fat32.c:481-619 | a buffer written to a new file, a seek to any k inside it and a read of m bytes give bytes k to min(k + m, length) |
| FatWrite.FileWrite | tzone_sdk/otzone/src/fs/fat32.c:548-619 | a write inside a file or to an empty one puts the bytes at the position, grows the chain only as far as needed, terminates it and leaves every other cluster in use as it was; a read-only file is not changed |
| FatWrite.TextAfter | tzone_sdk/otzone/src/fs/fat32.c:611-614 | the file reads as expected if and only if the write began at its start or stayed inside it, because the size field counts only the bytes of the call |
| FatWrite.UsableIff | tzone_sdk/otzone/src/fs/fat32.c:581-589 | after a non-empty write the current cluster and offset denote the position if and only if the old position plus the length is no multiple of the cluster size; there the cluster has moved on and the offset has not |
| FatWrite.OtherFiles | tzone_sdk/otzone/src/fs/fat32.c:548-619 | every other chain keeps its clusters, its bytes and its distance from the written one |
| FatWrite.FirstWriteText | tzone_sdk/otzone/src/fs/fat32.c:548-619 | after a first write the file reads as the buffer |
| FatWrite.FirstWriteChain | tzone_sdk/otzone/src/fs/fat32.c:548-619 | it has the least number of clusters, none twice, all of them free before |
| FatGrowth.Fresh | tzone_sdk/otzone/src/fs/fat32.c:1109-1123 | a cluster with a free entry above the last one given out is in no chain, although given-out clusters keep a free entry until they are linked |
| FatGrowth.Hang | tzone_sdk/otzone/src/fs/fat32.c:591-608 | hanging such a cluster onto a growing chain keeps it linked, distinct and open at its end only |
| FatGrowth.Close | tzone_sdk/otzone/src/fs/fat32.c:615-616 | the end mark closes the chain |
| FatGrowth.WriteExactIff | tzone_sdk/otzone/src/fs/fat32.c:610-614 | the same condition on flat bytes |
| FatSpec.ChainDistinct | tzone_sdk/otzone/src/fs/fat32.c:1149-1154 | a terminated chain never meets a cluster twice |
| FatSpec.ChainUnique | tzone_sdk/otzone/src/fs/fat32.c:1149-1154 | a chain is determined by its first cluster |
| FatSpec.ContentWrite | tzone_sdk/otzone/src/fs/fat32.c:570-580 | writing into a cluster of a chain writes at the matching place of the flat bytes and nowhere else |
| FatSpec.ContentSlice | tzone_sdk/otzone/src/fs/fat32.c:504-519 | reading from a cluster reads the matching place of the flat bytes |
| FatSpec.WriteOther | tzone_sdk/otzone/src/fs/fat32.c:1133-1138 | different clusters do not share bytes |
| FatSpec.OtherFile | tzone_sdk/otzone/src/fs/fat32.c:548-619 | a chain whose entries and bytes did not change is the same file |
| FatVolume.Volume.AllocateCluster | tzone_sdk/otzone/src/fs/fat32.c:1109-1123 | the first free entry after the last cluster given out, left free |
| FatVolume.Volume.ClusterAddr | tzone_sdk/otzone/src/fs/fat32.c:1133-1138 | the source's address is the cluster number less two, times the cluster size |
| FatVolume.FileRead | tzone_sdk/otzone/src/fs/fat32.c:481-533 | copies exactly the bytes from the position on, at most to the end of the file, and leaves the position behind them, also from the end of a cluster |
| FatVolume.ReadTwice | tzone_sdk/otzone/src/fs/fat32.c:481-533 | two reads in a row give what one longer read gives |
| FatVolume.FileSeek | tzone_sdk/otzone/src/fs/fat32.c:840-897 | the new position is the one asked for, except that a seek from a position held as a cluster's end, and a seek to the end of a file that fills its last cluster, come out one cluster short; a negative offset from the start is refused |
| FatVolume.GetSeekOff | tzone_sdk/otzone/src/fs/fat32.c:1226-1285 | how far the walk gets, from any place in the chain |
| FatVolume.LastCluster | tzone_sdk/otzone/src/fs/fat32.c:882-889 | finds the last cluster and counts the chain |
| TimeVal.AddExactIff | tzone_sdk/otzone/src/core/sw_timer.c:111-122 | the packed sum is normalised, and exact if and only if its seconds fit |
| TimeVal.SubExactIff | tzone_sdk/otzone/src/core/sw_timer.c:135-145 | likewise for the difference |
| TimeVal.AddSub | tzone_sdk/otzone/src/core/sw_timer.c:111-145 | subtraction undoes addition |
| TimeVal.AfterIff | tzone_sdk/otzone/src/core/sw_timer.c:159-170 | one time is after another when it is later by more than 1000 ns |
| TimeVal.PackedOrder | tzone_sdk/otzone/src/core/sw_timer.c:216 | the order of the packed words is the order of the times |
| TimerSpec.PlaceSplits | tzone_sdk/otzone/src/core/sw_timer.c:203-230 | the new event goes behind every event due no later and before every event due later |
| TimerSpec.StartKeeps | tzone_sdk/otzone/src/core/sw_timer.c:485-512 | a start keeps the queue sorted without repeats and ACTIVE equal to queued; the deadline recorded is now plus the delay, and no other deadline changes |
| TimerSpec.StartQueues | tzone_sdk/otzone/src/core/sw_timer.c:492-506 | the event is queued and ACTIVE; the others keep their state and order |
| TimerSpec.StartPrograms | tzone_sdk/otzone/src/core/sw_timer.c:507-510 | the record becomes the lesser of itself and the new deadline; the tick is programmed exactly when that changes the record |
| TimerSpec.StartArms | tzone_sdk/otzone/src/core/sw_timer.c:485-512 | a start keeps the recorded next expiry, and the programmed tick, equal to the least deadline |
| TimerSpec.StartAfterReset | tzone_sdk/otzone/src/core/sw_timer.c:507-510 | after the record was reset with events queued, a start programs the tick rightly if and only if the new event is due no later than all of them |
| TimerSpec.StopKeeps | tzone_sdk/otzone/src/core/sw_timer.c:648-693 | a stop takes the event off the queue and keeps the rest in order |
| TimerSpec.StopLeaves | tzone_sdk/otzone/src/core/sw_timer.c:648-693 | the others keep order, state and deadlines; an event that is not queued is left alone |
| TimerSpec.StopPrograms | tzone_sdk/otzone/src/core/sw_timer.c:655-690 | the tick changes only when the first event is stopped while its deadline is on record, and then to the next deadline |
| TimerSpec.StopAfterReset | tzone_sdk/otzone/src/core/sw_timer.c:670 | after the record was reset with events queued, stopping the first leaves the tick as it was, which is then right exactly when the next is due at the same time or there is none |
| TimerSpec.StopArms | tzone_sdk/otzone/src/core/sw_timer.c:648-693 | a stop keeps the record and the tick equal to the least deadline |
| TimerSpec.InterruptRuns | tzone_sdk/otzone/src/core/sw_timer.c:548-600 | the interrupt runs a prefix of the queue in order and leaves the rest |
| TimerSpec.LogAt | tzone_sdk/otzone/src/core/sw_timer.c:563-596 | the k-th handler run is of the k-th event, judged by the k-th clock reading |
| TimerSpec.InterruptSettles | tzone_sdk/otzone/src/core/sw_timer.c:563-598 | events that ran are inactive, others keep their state; the clock was read once a run and twice more when events are left |
| TimerSpec.NeverEarly | tzone_sdk/otzone/src/core/sw_timer.c:578-596 | no handler runs more than 1000 ns before its deadline |
| TimerSpec.LeftIsLater | tzone_sdk/otzone/src/core/sw_timer.c:578-591 | every event left is more than 1000 ns away from the last clock reading |
| TimerSpec.InterruptKeeps | tzone_sdk/otzone/src/core/sw_timer.c:548-600 | the interrupt keeps the queue in order and ACTIVE equal to queued |
| TimerSpec.InterruptProgram | tzone_sdk/otzone/src/core/sw_timer.c:583-598 | the tick is programmed for the first event left, and the record is reset |
| TimerSpec.InterruptArmsIff | tzone_sdk/otzone/src/core/sw_timer.c:598 | after the interrupt the record is the least deadline if and only if nothing is left that is ever due |
| TimerRuns.EveryRun | tzone_sdk/otzone/src/core/sw_timer.c:485-693 | in every run of starts, stops and interrupts the queue is sorted without repeats and ACTIVE means queued |
| TimerRuns.FromEmpty | tzone_sdk/otzone/src/core/sw_timer.c:436-693 | from an empty queue the record is the least deadline after every run whose interrupts drain the queue |
| TimerRuns.EveryStartOnce | tzone_sdk/otzone/src/core/sw_timer.c:485-693 | over every run, starts of an event equal its handler runs plus its effective stops plus whether it is queued |
| TimerCpu.Cpu.QueueAdd | tzone_sdk/otzone/src/core/sw_timer.c:203-230 | the loop inserts at the specified place |
| TimerCpu.Cpu.QueueDel | tzone_sdk/otzone/src/core/sw_timer.c:239-247 | removes the event and makes it inactive |
| TimerCpu.Cpu.EventCreate | tzone_sdk/otzone/src/core/sw_timer.c:344-367 | a new event is inactive and never due |
| TimerCpu.Cpu.EventDestroy | tzone_sdk/otzone/src/core/sw_timer.c:384-395 | succeeds if and only if the event is inactive, and keeps the rest in order |
| TimerCpu.Cpu.ProgramTick | tzone_sdk/otzone/src/core/sw_timer.c:436-473 | records and programs the deadline; it is overdue if and only if it is before now |
| TimerCpu.Cpu.EventStart | tzone_sdk/otzone/src/core/sw_timer.c:485-512 | refines the specified start |
| TimerCpu.Cpu.EventStop | tzone_sdk/otzone/src/core/sw_timer.c:648-693 | refines the specified stop |
| TimerCpu.Cpu.TimerInterrupt | tzone_sdk/otzone/src/core/sw_timer.c:548-600 | refines the specified interrupt and counts the events run |
| SwList.InsertBetween | tzone_sdk/include/sw_list.h:77-84 | links a node between two neighbours: the ring then holds the sequence with it inserted |
| SwList.ListAdd | tzone_sdk/include/sw_list.h:93-96 | puts a node first, touching only its neighbours |
| SwList.ListAddTail | tzone_sdk/include/sw_list.h:104-107 | puts a node before any node of the ring; before the head means last |
| SwList.ListDel | tzone_sdk/include/sw_list.h:116-135 | takes a node out, closes the ring and poisons the node |
| SwList.ListPop | tzone_sdk/include/sw_list.h:158-163 | takes the first node; from an empty list it takes and poisons the head itself |
| SwList.ListPopTail | tzone_sdk/include/sw_list.h:144-149 | the same at the other end |
| SwList.ListEmpty | tzone_sdk/include/sw_list.h:172-175 | the list is empty exactly when the head is its own successor |
| SwList.RingUnique | tzone_sdk/include/sw_list.h:33-35 | a head determines its list |
| SwList.OtherRing | tzone_sdk/include/sw_list.h:77-123 | a list none of whose nodes changed is unchanged |
| SchedSpec.EveryRun | tzone_sdk/otzone/src/core/global.c:69-244 | in every run no task is listed twice and only existing tasks are ready |
| SchedSpec.TurnOf | tzone_sdk/otzone/src/core/global.c:206-244 | the task at place k of the ready list is chosen by call number k + 1, whatever is queued behind and whichever tasks block |
| SchedSpec.NotBefore | tzone_sdk/otzone/src/core/global.c:206-244 | and by no earlier call |
| SchedSpec.TurnByThen | tzone_sdk/otzone/src/core/global.c:206-244 | with other tasks destroyed meanwhile, at the latest then |
| SchedSpec.NeverLost | tzone_sdk/otzone/src/core/global.c:206-244 | a task that is ready, or current and not blocked, stays so through every run that neither blocks nor destroys it |
| SchedSpec.ScheduleLive | tzone_sdk/otzone/src/core/global.c:206-244 | one call loses a task if and only if it is first in the list, current and blocked at once; even then it is the task returned |
| SchedSpec.BlockedIsRun | tzone_sdk/otzone/src/core/global.c:206-244 | putting a queued task into any state, just before its turn, does not keep it from being chosen and run |
| SchedSpec.NextQueues | tzone_sdk/otzone/src/core/global.c:206-244 | after a call the ready list is what stood behind its head and then, if the list was not empty, the current task unless it is gone, waits or is suspended or stands there already |
| SchedSpec.NextChooses | tzone_sdk/otzone/src/core/global.c:206-244 | the head of the list is chosen; with an empty list the current task if it can run on, or none |
| SchedSpec.ScheduleRuns | tzone_sdk/otzone/src/core/scheduler.c:35-54 | the chosen task is current and, if it was not before, Running; with nothing to run nothing changes |
| SchedSpec.QueuedLast | tzone_sdk/otzone/src/core/global.c:69-106 | a queued or started task stands last; queued for scheduling it becomes Ready |
| SchedSpec.QueuedNext | tzone_sdk/otzone/src/core/global.c:81-84 | a task put at the front is what the next call chooses, before all others |
| SchedSpec.StateSet | tzone_sdk/otzone/src/core/global.c:116-142 | a state change reaches that task only; suspending the current task leaves none current |
| SchedSpec.CreatedLast | tzone_sdk/otzone/src/core/task.c:71-118 | a created task has a number no task had, is last in the task list, suspended and not queued |
| SchedSpec.DestroyedGone | tzone_sdk/otzone/src/core/task.c:157-190 | a destroyed task is gone from both lists, and the others are not; if it was current no task is |
| SchedSpec.MovedUp | tzone_sdk/otzone/src/core/global.c:206-244 | after c calls the task at place k stands at place k - c |
| Scheduler.Global.GetCurrentTask | tzone_sdk/otzone/src/core/global.c:174-197 | the current task, or none when no task has the current number |
| Scheduler.Global.GetNextTask | tzone_sdk/otzone/src/core/global.c:206-244 | returns and leaves what the specification says; NextChooses and NextQueues state what that is |
| Scheduler.Global.Schedule | tzone_sdk/otzone/src/core/scheduler.c:35-54 | one step as specified; the timer is switched off exactly when there is no task to run |
| Scheduler.Global.ScheduleTaskId | tzone_sdk/otzone/src/core/global.c:91-106 | makes an existing task ready and queues it last |
| Scheduler.Global.ScheduleTaskNext | tzone_sdk/otzone/src/core/global.c:81-84 | queues a task first |
| Scheduler.Global.SuspendTask | tzone_sdk/otzone/src/core/global.c:116-142 | changes the state; suspending the current task leaves none current |
| Scheduler.Global.RemoveTask | tzone_sdk/otzone/src/core/task.c:157-190 | takes the task out of both lists, or reports that there is none |
| Scheduler.Global.StartTask | tzone_sdk/otzone/src/core/task.c:236-281 | queues the task last if it exists and its context could be set up |
| Marshal.Encode.DecodeAll | tzone_sdk/otzone/src/core/secure_api.c:473-523 | repeated decoding of a request yields the types and bytes that were encoded, in order, and ends at the encoder's offset |
| Marshal.Encode.EncodeUint32 | tzone_sdk/otz_driver/otz_client_main.c:1200-1286 | a word is appended to the request, or room for one and the client's address to the response, if and only if it fits; earlier addresses and returned lengths stay; otherwise nothing changes |
| Marshal.Encode.EncodeArray | tzone_sdk/otz_driver/otz_client_main.c:1295-1387 | likewise for arrays |
| Marshal.Encode.AppendRequest | tzone_sdk/otz_driver/otz_client_main.c:1308-1342 | the appended parameter sits at the end of the stream and the ones before are untouched |
| Marshal.Encode.AppendResponse | tzone_sdk/otz_driver/otz_client_main.c:1343-1375 | the reserved room follows the rooms before, and the client's address follows theirs |
| Marshal.Encode.Respond | tzone_sdk/otzone/src/core/secure_api.c:473-597 | a service that decodes along the response finds the reserved room; what it writes and sizes is recorded there, and no address changes |
| Marshal.Encode.DecodeUint32 | tzone_sdk/otz_driver/otz_client_main.c:1593-1633 | the client gets the word the service wrote, at the address recorded or else at its own, and the offsets move on together; one decode past the last reserved entry is let through exactly when that entry happens to say so |
| Marshal.Encode.DecodeArraySpace | tzone_sdk/otz_driver/otz_client_main.c:1642-1690 | the client gets the bytes the service wrote, at the address recorded or else at its own; a recorded length above the reserved one is refused; past the last entry as for words |
| Marshal.Encode.DecodeAnswers | tzone_sdk/otz_driver/otz_client_main.c:1593-1690 | decoding every answer gives what the service wrote, in order, each at its address, and ends where the reservations end |
| Marshal.Encode.RespondAll | tzone_sdk/otzone/src/core/secure_api.c:473-597 | a service that only follows decode_data answers every parameter in its reserved room |
| Marshal.Encode.Exchange | tzone_sdk/otz_driver/otz_client_main.c:1593-1690 | what a service answers over a whole response is what the client decodes, each answer at the address given when it was encoded |
| Marshal.DecodeData | tzone_sdk/otzone/src/core/secure_api.c:473-523 | one decoding step as specified, or an error for an invalid type |
| Marshal.UpdateResponseLen | tzone_sdk/otzone/src/core/secure_api.c:589-597 | sets the returned length of the parameter before the position |
| MarshalSpec.DecodeFollows | tzone_sdk/otzone/src/core/secure_api.c:473-523 | along a described stream each step gives that parameter's type, place and length and the next offset |
| MarshalSpec.StoreNext | tzone_sdk/otz_driver/otz_client_main.c:1308-1342 | storing a parameter in its place keeps those before |
| MarshalSpec.WordRoundTrip | tzone_sdk/otz_driver/otz_client_main.c:1232-1233 | a word survives being stored as bytes |
| MarshalSpec.LowByteFirst | tzone_sdk/otz_driver/otz_client_main.c:1232-1233 | the bytes are in order of weight, lowest first |
| Pages.MemInfo.VirPageAlloc | tzone_sdk/otzone/src/core/mem_mng.c:239-290 | takes the first free virtual run searched and an equally long first physical one, or changes neither map |
| Pages.MemInfo.PhyPageAlloc | tzone_sdk/otzone/src/core/mem_mng.c:176-227 | the first free physical run searched, for the page count that the source computes from the size |
| Pages.PhyCountIff | tzone_sdk/otzone/src/core/mem_mng.c:184-186 | that count is one page short exactly when the size is no multiple of a page and has an odd number of full pages |
| Pages.MemInfo.VirAddrFree | tzone_sdk/otzone/src/core/mem_mng.c:466-500 | clears the run in both maps, or nothing when the address is outside |
| Pages.MemInfo.PhyAddrFree | tzone_sdk/otzone/src/core/mem_mng.c:427-452 | clears the physical run, or nothing when the address is outside |
| Pages.AllocFree | tzone_sdk/otzone/src/core/mem_mng.c:239-500 | allocating succeeds exactly when both maps have a run; freeing the same size restores both maps and both counts if and only if neither run begins behind the end of its region, in the slack bits of its map; a run that does stays marked |
| Pages.TakeConserves | tzone_sdk/otzone/src/core/mem_mng.c:176-227 | free pages plus pages in use stay constant over an allocation |
| Pages.GiveConservesIff | tzone_sdk/otzone/src/core/mem_mng.c:427-452 | and over a free if and only if all its pages were in use |
| Pages.FirstRun | tzone_sdk/otzone/src/core/mem_mng.c:197-212 | the least start, among those searched, of a run of free pages; the last possible start is not searched |
| Pages.Bitmap.FindRun | tzone_sdk/otzone/src/core/mem_mng.c:197-212 | the nested loops find that start |
| Pages.Bitmap.Mark | tzone_sdk/otzone/src/core/mem_mng.c:220-222 | word i >> 5, bit 31 - (i & 31) is page i: setting or clearing it adds or takes away that weight of that word and changes no other page |
| Pages.MarkedBack | tzone_sdk/otzone/src/core/mem_mng.c:466-500 | clearing what was marked restores the map |

## Left out

- Requests above MAX_BLOCK_SIZE: contiguous runs of blocks (buddy_get_contiguous_block) and their free, which the source itself marks as unfinished.
- buddy_zalloc, get_ptr_size, buddy_print_hk_state and sw_buddy_print_state: thin or only printing.
- HeapSlots.MallocKeeps: does not wrap addresses or counts at 32 bits, because a heap lies in one 32-bit address space and has fewer blocks than that.
- TaskHeaps.Kernel.CreateTask: models the heaps as values in the table, because the in-place heap is proved in BuddyHeap; service names, permissions and register context are not in the model.
- BigDiv.Divide: bad runs are shown wrong only when the doubly shifted divisor exceeds the remainder by no more than the lower words hold (`SafeRun`); beyond that one more round follows or XPowerY loops on a negative exponent. Divisors with 32 one bits above a lower one bit, for which subtraction may lose a borrow, and dividends or divisors with a nonzero top word, which Cmp does not order, are not covered.
- BigDiv.ReduceMod: the same.
- BuddyHeap.SwHeap.SwBuddyMalloc: requests above MAX_BLOCK_SIZE, as above.
- BuddyHeap.SwHeap.BuddyInit: power-of-two sizes below 16384, which do not leave whole blocks above the housekeeping quarter, so that the unsigned remainder never reaches zero and the loop ends only when the nodes do; and sizes whose 25-fold wraps at 32 bits.
- BigDiv.Cmp: with unequal top words the result is stated as the code computes it, which is not an order.
- TEE_BigIntRightShift, Neg, octet and S32 conversions, MultMod and SquareMod (an N-word temporary for a 2N-word product), AddMod, SubMod, and the FMM, GCD and prime functions, which are empty.
- FatVolume.FileRead: the entry is a file; reading a directory's raw bytes is not modelled. A negative byte count is not modelled.
- FatVolume.GetSeekOff: walks past the end of the chain, which allocate clusters, are not modelled.
- FatVolume.FileSeek: seeks past the end of the file, which allocate clusters, and seeks on empty files are not modelled.
- FatWrite.FileWrite: a write that starts exactly at a cluster's end is not modelled, because the previous cluster is then unset. After a write that ends there the file needs a seek, see UsableIff.
- The on-disk size field (one byte is stored), directory entries, path lookup, long names, create, rename, truncate, unlink, directory listing, and opening by descriptor.
- TimerSpec.StartKeeps: an event is started only when inactive, and handlers do not start events; a second start while queued would overwrite the links.
- Timer hardware: counter reads and cycle conversions are the elapsed times given to each operation; trigger_tick is the recorded tick.
- SchedSpec.TurnOf: insertions at the front and destroying tasks are excluded there; destroying other tasks is covered by TurnByThen.
- Spinlocks, interrupt masking, context switching, waiting queues.
- SwList.ListAdd: a node that is already in a list is not added again, since its old links would be overwritten.
- Marshal.Encode.DecodeUint32: a decode past the last entry of the table, or whose bytes would lie behind the buffer, reads memory that is not in the model.
- Marshal.Encode.EncodeArray: lengths for which offset plus length wraps at 32 bits are not modelled, nor failures of kmalloc, copy_from_user and copy_to_user.
- Memory references in parameters, otz_encode_data and the IPC helpers.
- Pages.MemInfo.PhyPageAlloc: does not model sizes that wrap at 32 bits when rounded up.
- Pages.MemInfo.VirPageAlloc: mapping into the page tables is not modelled; nothing says that a run lies inside the region, since the bitmap has slack bits beyond it.
- sw_meminfo_init and the reserve functions.
- RC4, GUI, drivers, crypto and storage services, loaders, sessions, the SMC layer and the client applications: I/O, UI or thin wrappers.
