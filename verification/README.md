# A verified model of the kernel's stateful parts

This project models the parts of a small i386 operating system that keep state over time, and proves what
every run of them keeps:

- the **kernel heap** (`kernel/alloc.c`): a first-fit allocator whose two lists live in the memory they manage
- the **EFS file system** (`efs/*.c`) and the **boot loader's own reader** of it (`boot/boot2.S`)
- **page frames, address spaces and processes** (`kernel/memman.c`, `kernel/arch/i386/process.c`)
- the **round robin scheduler** and the **timer list** (`kernel/sched.c`, `kernel/timer.c`)
- the **text console** (`kernel/dev/bcon.c`, `kernel/arch/i386/dev/bcon.c`)

Each part is written twice. The imperative code is a class over the words, bytes or fields that the source
changes (`Heap.Region`, `EfsDevice.Device`, `BootLoader.Loader`, `MemMan.Memory`, `Process.Kernel`,
`KernelRuns.Processes`, `Sched.Scheduler`, `Timer.TimerList`, `Console.Screen`), with the source's loops and
branches. Its methods are proved against a value model, and the value model is where runs, round trips and
conservation are proved.

| modules | what they hold |
|---|---|
| `SeqLemmas`, `Wrappers`, `Words`, `Bytes` | sequences, options, the width of a word, little-endian words and bits |
| `HeapModel`, `HeapLemmas`, `Heap` | slots and lists as values; runs; the same over memory words |
| `EfsLayout`, `EfsAlloc`, `EfsDir`, `EfsWrite`, `EfsSpace`, `EfsFormat`, `EfsOnce`, `EfsDevice` | the disk as bytes; who owns which block; the directory; writing a file; when space is enough; a new disk; which blocks are handed out over time and which are lost; all of it in place |
| `Boot`, `BootLoad`, `BootFind`, `BootLoader`, `EfsRuns` | the loader's 16 bit reader; the image in memory; the search for the kernel; the loader step by step; files from mkefs to the loader |
| `Frames`, `Spaces`, `MemMan`, `SpaceRuns` | reference counts, page tables, their building in place, runs |
| `Lifecycle`, `Process`, `KernelRuns` | processes from creation to kill as runs, in place, and that the one takes the steps of the other |
| `Sched`, `Timer`, `Console` | scheduler, timer list, console |

`hide` statements occur in proof bodies only; they keep definitions that a proof does not need from the solver.

## What the code does that one would not expect

The model keeps the code as it is. Where a property one would expect is false of it, a lemma says exactly when
it holds:

- `alloc` computes the size it needs in 32 bits. It is the true size up to 0xFFFFFFF4 and at most 8 above that
  (`Heap.NeedWraps`). The test for splitting is true whenever a slot has been found, so every allocation splits.
- `alloc_addr_space` records page frames under their place in the table alone, so the record is right exactly for
  spaces of at most 1024 pages (`MemMan.RecordIsExact`). The translation is right for all (`Spaces.WalkReaches`).
  When frames run out after the directory, its unsigned countdowns do not end; that is the outcome `Stuck`.
- The "+1" on page addresses changes neither the entry nor the frame freed (`Frames.PlusOneHarmless`).
- A timer event with 0 ticks remaining fires after 2^32 ticks (`Timer.FirstFire`).
- A backspace in the first cell of the screen puts the cursor at 0xFFFF; all other characters keep the screen
  in step with the page (`Console.Screen.PutChar`).
- `add_block_pointer` sets no pointer from the 258th block of a file on, and still reports success, so the loader
  reads a block exactly up to the 257th (`Boot.ReadsBack`).
- `validate_efs` joins its tests with `&&`, so it accepts every disk with one right byte of the ident
  (`EfsFormat.ValidateExact`).
- `falloc_block` fails with -1 where `read_write` tests for 0; the write to block -1 then fails, which stops the loop.
- Truncation keeps the old pointers, and rewriting takes new blocks. No block is handed out twice for it, not even one
  that has lost its pointer (`EfsOnce.HandedOnce`); instead such a block is lost: it stays marked and nothing points to
  it, for ever (`EfsOnce.FallocLost`, `EfsOnce.LostStays`). A write loses no block exactly when the file had no
  pointers where it gets them, gets at most 257 blocks, and does not take the last free block for data where an
  indirect block is still to come (`EfsOnce.LosesNoneIff`); `EfsOnce.ReadWriteLost` tells how many it loses. So even
  the first file on a new disk can lose blocks (`EfsOnce.FirstWriteLoses`), and the second write of a file with data
  does (`EfsOnce.RewriteLoses`).
- `new_file` truncates the directory for the name ".", and for the empty name, which `writeefs dir/` gives: as long as
  the directory is not full, the search takes its first unused entry for a file of that name, with inode number 0. And
  a name of 12 or more characters is never found, so it always adds an entry, with its first 11 characters; if there is
  a file of that name already, there are two. These are all the names that spoil the directory
  (`EfsDir.NewFileKeepsDir`).
- The loader's `strcmp` moves the register that the search counts entries with. What an earlier entry has in common
  with the name is added to the place of all entries behind it, and never goes away again. So a file is found at its
  entry exactly when no earlier name begins with the same character (`BootFind.FindKernelFinds`). Otherwise it can be
  missed, and the directory itself can be taken for it (`EfsRuns.MissIsReached`, `EfsRuns.MistakeIsReached`). The whole
  search, for every directory and name, is a walk over the names (`BootFind.FindKernelIs`).
- The kernel is loaded from 0x500 upwards, towards the loader at 0x9000. Block 34 of the file goes over the disk
  geometry that `read_sector` divides by, block 35 over the loader's instructions (`BootLoad.WhatIsReached`). So a file
  gets into memory exactly when it has less than 35 blocks, but for the case below; from there on the loader divides by
  bytes of the file, which is a divide error when they are 0 (`BootLoad.LoadsFile`, `EfsRuns.FaultIsReached`). The
  loader reads the low half of the size, so of a file of 64 KB or more it loads the beginning or comes to the same end.
- The loader reads one block too many of a file of full blocks, which goes off the disk in exactly one case
  (`BootLoad.ReadsOff`, `EfsRuns.ReadsOffIsReached`).

## Model

| member | source | states |
|---|---|---|
| Heap.Region.constructor | kernel/alloc.c:27-51 | the region's words encode one free slot of length-16 bytes and an empty used list |
| Heap.Region.Alloc | kernel/alloc.c:53-103 | the words encode the state after first fit and split; the address returned, or null; no word of a live payload changes |
| Heap.Region.Free | kernel/alloc.c:106-193 | the words encode the state after the two-sided merge; 1, or -1 with nothing changed for an address not in use; live payloads keep every word |
| Heap.Region.FreeUsed | kernel/alloc.c:136-193 | free once the slot is found: the words after unlinking, growing and pushing encode the merged state |
| Heap.Region.FindFit | kernel/alloc.c:64-67 | the walk of the embedded list stops at the first slot in list order that is large enough |
| Heap.Region.FindNeighbours | kernel/alloc.c:152-160 | the walk finds the free slots that end where the block begins and begin where it ends, and the predecessor of the latter |
| Heap.AllocWords | kernel/alloc.c:77-100 | the header writes of alloc leave both lists linked, disjoint and acyclic in the words, and touch no live data |
| Heap.FreeWords | kernel/alloc.c:139-190 | the same for the unlinking, growing and pushing of free |
| Heap.NeedWraps | kernel/alloc.c:58-65 | the 32 bit size compared is the true one exactly up to 0xFFFFFFF4 |
| HeapLemmas.RunInv | kernel/alloc.c:27-193 | over every run of alloc and free the slots tile the region with no gap or overlap, no free slots touch, headers are word aligned, no slot is listed twice |
| HeapLemmas.AllocInv | kernel/alloc.c:53-103 | alloc keeps that invariant, for every size and every free list |
| HeapLemmas.FreeInv | kernel/alloc.c:106-193 | free keeps it, for every address, in use or not |
| HeapLemmas.FreeSetDetermined | kernel/alloc.c:86-96 | two reachable states with the same used slots have the same free slots |
| HeapLemmas.BalancedRunRestoresFree | kernel/alloc.c:151-190 | a run that ends with the used slots it began with ends with the same free slots |
| HeapLemmas.FreeingAllRestoresInit | kernel/alloc.c:147-190 | once everything is freed, in any order, the state is the initial one |
| HeapLemmas.RunConservesBytes | kernel/alloc.c:64-96 | the sum of lengths plus 8 per slot never changes, whatever the run |
| HeapLemmas.AllocThenFree | kernel/alloc.c:106-132 | freeing what alloc returned succeeds and restores both lists' contents |
| HeapLemmas.AllocSucceedsIff | kernel/alloc.c:64-74 | alloc succeeds exactly when some free slot holds the rounded size plus 8 |
| HeapLemmas.AllocPayload | kernel/alloc.c:57-102 | the payload lies in the region, is word aligned relative to the base, and overlaps no live slot |
| Heap.StoreKeeps | kernel/alloc.c:10-26 | whatever is written into the data of slots in use, both lists stand |
| HeapModel.FirstFit | kernel/alloc.c:64-67 | all slots before the one found are too small, and it is not |
| EfsDevice.Device.MarkBlockUsed | efs/block.c:93-125 | 1 and no change if the bit is set already, else the bit is set on the disk |
| EfsDevice.Device.CheckBlock | efs/block.c:127-151 | whether the block's bit is set |
| EfsDevice.Device.FindFreeBlock | efs/block.c:153-169 | the loop finds what FindFree names |
| EfsDevice.Device.ReadInode | efs/inode.c:70-95 | the inode of that number as the disk holds it |
| EfsDevice.Device.WriteInode | efs/inode.c:39-68 | the disk with that inode replaced |
| EfsDevice.Device.AddBlockPointer | efs/inode.c:165-259 | the read-modify-write of inode, bitmap and indirect block comes to AddPointer, including its failure |
| EfsDevice.Device.FindFile | efs/efs.c:158-201 | the nested scan of the directory's blocks finds the first entry with the name, or fails when there is none |
| EfsDevice.Device.AddFile | efs/efs.c:105-156 | the entry goes behind the last one of the directory's block, which has room, and the directory's size grows by 16 |
| EfsDevice.Device.NewFile | efs/efs.c:35-103 | for every C string: what is found under it is truncated; else the first free inode is taken; with none free nothing changes and it fails |
| EfsDevice.Device.Validate | efs/efs.c:17-33 | 0 or -1, by ValidateEfs of the disk |
| EfsDevice.Device.FallocBlock | efs/efs.c:203-234 | the place of the block the file got, or 0xFFFFFFFF in each case of failure |
| EfsDevice.Device.AppendBlock | efs/writeefs.c:115-142 | one pass of the loop comes to Append on values, and fails exactly when no block could be had |
| EfsDevice.Device.ReadWrite | efs/writeefs.c:84-147 | the whole loop, for the name cut to 11 characters, comes to ReadWrite on values: the same disk, and success exactly when the source was used up |
| EfsDevice.Device.Mkefs | efs/mkefs.c:87-151 | superblock, inode table and root directory written in sequence and in a loop make the disk Made |
| EfsLayout.UsedIs | efs/block.c:98-116 | the bit of block b is in byte b/8 of the bitmap, counted from the top of the byte |
| EfsLayout.Fields | efs/inode.c:39-95 | each field of an inode is stored as given, and no other byte of the inode differs |
| EfsLayout.MarkedBits | efs/block.c:93-125 | marking sets that bit and no other, and keeps the superblock and every other block |
| EfsLayout.FindFreeLeast | efs/block.c:153-169 | the least free block; 0 exactly when none is free |
| EfsLayout.GetSet | efs/inode.c:39-95 | reading an inode back gives what was written, at that number; every other inode and block is as it was |
| EfsAlloc.PointerGained | efs/inode.c:165-259 | the file gains exactly that pointer (and perhaps an indirect block), no other file changes, ownership stays unique; it fails exactly when an indirect block is needed and none is free |
| EfsAlloc.FallocEffect | efs/efs.c:203-234 | the block was free and unreferenced and is now marked; every marked block stays marked, and pointers change only to blocks that were free; no block gets two owners, on success, failure, or beyond 257 blocks; it fails exactly when space is short |
| EfsAlloc.FreeIsUnreferenced | efs/block.c:153-169 | a block that is free in the bitmap is no inode's |
| EfsDir.PaddedFound | efs/efs.c:133-191 | a stored name is equal to a name of up to 11 characters exactly when they are the same |
| EfsDir.LongNeverEqual | efs/efs.c:133-191 | a name of 12 or more characters is never found again |
| EfsDir.FindFileExact | efs/efs.c:158-201 | a name is found exactly when the directory lists it, and its inode number is its place |
| EfsDir.TruncateEffect | efs/efs.c:45-65 | rewriting keeps directory, pointers and all other files; the size is 0 |
| EfsDir.CreateEffect | efs/efs.c:67-103 | a new name takes the next inode, which has no pointers; the directory lists it and nothing else changes |
| EfsDir.FullEffect | efs/efs.c:82-85 | with all inodes taken nothing changes and it fails |
| EfsDir.FindFileAny | efs/efs.c:158-201 | the search for every C string: the empty one is found, with number 0, exactly while an entry is unused; one of 12 or more characters never |
| EfsDir.NewFileKeepsDir | efs/efs.c:35-103 | for every C string: there is a directory in order afterwards exactly when the name is not ".", not empty unless all entries are used, and not a long one whose first 11 characters are a file's name, unless all inodes are taken |
| EfsWrite.AppendEffect | efs/writeefs.c:113-144 | one pass keeps directory and other files; on success the next block holds what was read and zeros behind it, byte by byte, and the size grows by what was read |
| EfsWrite.WriteAllEffect | efs/writeefs.c:113-144 | the whole loop: each of the first 257 pointers names the block with its part of the data; if it ends early, the size is that of the blocks written, which are fewer than the data takes, and everything else is still in order |
| EfsWrite.ReadWriteEffect | efs/writeefs.c:84-147 | the file is under its name with its size and data, or with the size of the blocks that could be had and the data in them; every other file keeps inode, pointers and bytes; None exactly when all inodes are taken by other names |
| EfsWrite.RunsKeepDir | efs/writeefs.c:84-147 | over any sequence of files written, rewritten, or stopped by lack of space, directory and ownership stay in order and no name is lost |
| EfsFormat.MadeEffect | efs/mkefs.c:87-151 | a new disk satisfies the invariant: only "." in the directory, every block but its own free |
| EfsFormat.SuperBlockFields | efs/superblock.c:13-52 | the four bytes of the ident and the fields are those of the source, the bitmap begins empty, and all else is 0 |
| EfsFormat.MadeBlock0 | efs/mkefs.c:87-151 | block 0 of a new disk is the superblock with one bit of the bitmap set, the highest of its first byte |
| EfsFormat.ValidateExact | efs/efs.c:26-32 | validation accepts a disk exactly when at least one byte of the ident is right |
| EfsOnce.HandedOnce | efs/writeefs.c:84-147 | over any sequence of runs, with truncation, rewriting and failures, the blocks handed out, for data or for indirect blocks, are pairwise different and exactly those that were free before and are not afterwards; so are the places where data was put |
| EfsOnce.FallocHanded | efs/efs.c:203-234 | the blocks that one call marks are different, were free, and are all that it takes; the first is the one returned |
| EfsOnce.FallocLost | efs/efs.c:203-234 | the blocks marked but pointed to by nothing are, after a call, those before it and one more exactly when the new block replaces another or gets no pointer: the one replaced, or the new one |
| EfsOnce.LostStays | efs/block.c:93-125 | a block that is lost is so for ever |
| EfsOnce.WriteAllLost | efs/writeefs.c:113-144 | how many blocks the loop gives the file, what room it leaves, and how many it loses, each told by the disk before |
| EfsOnce.ReadWriteLost | efs/writeefs.c:84-147 | the same for a whole run |
| EfsOnce.LosesNoneIff | efs/writeefs.c:84-147 | no block is lost after a run exactly when none was before, the file had no pointer where it gets one, it gets at most 257 blocks, and the last free block is not taken for data with an indirect block still to come |
| EfsOnce.FirstWriteLoses | efs/inode.c:185-259 | the first file on a new disk loses blocks exactly when it has more than 257 and the disk gives it more, or more than 5 and the disk has just 6 to give |
| EfsOnce.RewriteLoses | efs/efs.c:45-65 | on every new disk with room for two blocks, writing a file of one byte twice loses one |
| EfsRuns.FreshRuns | efs/writeefs.c:84-147 | from mkefs through any sequence of runs no block has two owners, none is handed out twice over the whole time, the directory is in order, and the superblock is as mkefs wrote it, so every next run finds it valid |
| EfsRuns.HeldBytes | efs/writeefs.c:113-144 | each of the first 257 blocks of a file that the disk holds is its part of the data, byte by byte, with zeros behind the end |
| EfsRuns.StoredHoldsSome | efs/writeefs.c:113-144 | when space runs out the disk holds the file with a proper beginning of the data, in whole blocks |
| EfsRuns.WrittenStays | efs/writeefs.c:84-147 | a file written with success is there with its data after any later runs for other names, also failing ones |
| EfsRuns.JobKeeps | efs/writeefs.c:84-147 | one run for another name leaves the file as it is |
| EfsRuns.HoldsStored | efs/writeefs.c:113-144 | a disk that holds a file satisfies all that is proved of the loader just after writing |
| EfsRuns.HeldBoots | boot/boot2.S:198-347 | the loader brings the data of a file that the disk holds into memory exactly when it has less than 35 blocks and is not the one that is read off the disk |
| EfsRuns.NewNames | efs/writeefs.c:84-147 | every directory of distinct legal names is made by runs of writeefs, whatever the data and the space |
| EfsRuns.NewDiskBoots | boot/boot2.S:198-347 | from mkefs, through one run for any name and data that there is room for, to the end of loading: which of the ends it is, told by the sizes of data and disk and two words of the data; behind the data the rest of its last block is 0 |
| EfsRuns.FaultIsReached | boot/boot2.S:652-682 | on every new disk of at least 47 blocks a file of 40000 zero bytes makes the loader divide by 0 |
| EfsRuns.ReadsOffIsReached | boot/boot2.S:323-347 | on every new disk of 11 to 51 blocks a file of five full blocks makes it read off the disk |
| EfsRuns.MissIsReached | boot/boot2.S:245-273 | on every new disk, once "ka" and "k" are written, "k" is there and the loader does not find it |
| EfsRuns.MistakeIsReached | boot/boot2.S:245-273 | once "kb", "xk" and "k" are written, the loader takes the inode of the directory for that of "k" |
| EfsSpace.ReadWriteFinishes | efs/writeefs.c:113-144 | a write finishes exactly when there is a free block for each block of the data, and one more when it has more than five and the inode no indirect block |
| EfsSpace.WriteAllFinishes | efs/writeefs.c:113-144 | the same for the loop from any block of the file on |
| EfsSpace.ReadWriteDirect | efs/inode.c:176-183 | a file that keeps to its five direct blocks gets no indirect block |
| EfsSpace.FallocTakes | efs/efs.c:203-234 | falloc_block succeeds exactly when one free block, or two with a new indirect block, are there, and takes so many |
| EfsSpace.FindFreeIn | efs/block.c:153-169 | 0 exactly when the set of free blocks is empty, else one of it |
| Boot.GetBnumAgrees | boot/boot2.S:532-582 | the loader's block numbers are the writer's pointers, direct and indirect |
| Boot.GetBnumNoIndirect | boot/boot2.S:546-566 | without an indirect block the loader reads the directory for one and gets block 51 |
| Boot.ReadInodeAgrees | boot/boot2.S:612-637 | the loader reads the inode that the tools wrote |
| Boot.GetBnumRange | boot/boot2.S:534-582 | five direct blocks, then 256 of the indirect block, in 16 bit arithmetic; from 261 on, and where that block is off the disk, none |
| Boot.ReadsBack | boot/boot2.S:532-582 | block i of a stored file is read where it was written, exactly for i up to 256; byte x of it is byte 1024*i+x of the data, or 0 behind its end |
| Boot.OthersReadBack | boot/boot2.S:532-582 | what the loader reads of every other file is unchanged by a write |
| BootLoad.LoadedIsData | boot/boot2.S:323-347 | every byte of the blocks brought into memory is the byte of the data, or 0 behind its end |
| BootLoad.WhatIsReached | boot/boot2.S:318-347 | block k goes to 0x500+1024*k; which block of the image is the last off the loader, which covers the geometry and no instruction, and which the first instructions |
| BootLoad.LoadFromStatus | boot/boot2.S:323-347 | the loop fails exactly when a block before the loader is reached cannot be read, and comes to its end only with none behind |
| BootLoad.LoadFromBlocks | boot/boot2.S:323-347 | every block that the loop has come to is at its place in memory |
| BootLoad.LoadsFile | boot/boot2.S:303-347 | for every stored file: a failed read in exactly one case; a good end exactly when the low half of its size is less than 35 blocks; otherwise the geometry is the file's bytes, a divide error exactly when one of two words is 0; the data is there in the end exactly for less than 35 blocks, and zeros from its end to that of its last block |
| BootLoad.ZerosFault | boot/boot2.S:652-682 | a stored file of 40000 zero bytes ends in a divide error |
| BootFind.FindKernelIs | boot/boot2.S:245-291 | for every directory and every legal name the search is the walk over the names that carries along what entries had in common with it |
| BootFind.EntryMatching | boot/boot2.S:714-733 | a comparison off by some characters sees the rest of the entry's name and stays within it |
| BootFind.FindKernelFinds | boot/boot2.S:245-273 | a file is found at its entry exactly when no earlier name begins with the same character |
| BootFind.WalkDrifts | boot/boot2.S:256-273 | from the first other name that does, the search never comes back to the beginning of an entry |
| BootFind.AbsentNotFound | boot/boot2.S:256-291 | a name that no entry begins like is not found |
| BootFind.OffByLittle | boot/boot2.S:249-254 | a name found one or two characters off goes with the inode number of the directory |
| BootFind.FoundOff | boot/boot2.S:249-254 | the number that goes with every hit, by how far it is off: the entry's own, 0, or two characters of the next name |
| BootFind.DriftMisses | boot/boot2.S:245-273 | on a disk with "ka" before "k" the tools find "k" and the loader does not |
| BootFind.DriftMistakes | boot/boot2.S:245-273 | on one with "kb", "xk" and "k" the tools find inode 3 and the loader inode 0 |
| BootLoader.Loader.constructor | boot/boot2.S:112-119 | a loader with a geometry to divide by, and its superblock read |
| BootLoader.Loader.ReadSector | boot/boot2.S:652-708 | the sector, or an error off the disk; with bytes of the file in place of the geometry a divide error or a read gone astray |
| BootLoader.Loader.ReadFsBlock | boot/boot2.S:589-605 | two sector reads make up one block, with its number doubled in 16 bits |
| BootLoader.Loader.GetBnum | boot/boot2.S:532-582 | the register arithmetic gives the number, through the buffer for indirect blocks |
| BootLoader.Loader.ReadInode | boot/boot2.S:612-637 | the inode buffer holds the 64 bytes of that inode, or the read fails |
| BootLoader.Loader.ReadRoot | boot/boot2.S:203-213 | the first 18 bytes of the directory's inode, and no more |
| BootLoader.Loader.Strcmp | boot/boot2.S:714-733 | where the index register is left, and whether the strings are equal |
| BootLoader.Loader.FindKernel | boot/boot2.S:198-291 | the search loop comes to FindKernel on values |
| BootLoader.Loader.Store | boot/boot2.S:332-339 | a block is at its place in memory; the geometry stays what it was as long as the block ends before the loader |
| BootLoader.Loader.LoadKernel | boot/boot2.S:303-347 | the loop comes to Load on values: the same end and the same memory |
| BootLoader.Loader.Start | boot/boot2.S:198-347 | finding, reading the inode and loading come to Booted |
| BootLoader.BootedIs | boot/boot2.S:198-347 | for every directory, legal name and memory: nothing is found, or the number the walk gives is of an inode off the disk, which fails, or that inode is loaded |
| BootLoader.StoredBoots | boot/boot2.S:198-347 | for a file just stored that no earlier name begins like, the loader ends as loading its inode does, with the data in memory exactly for less than 35 blocks and not read off the disk |
| MemMan.Memory.GetFreeFrame | kernel/memman.c:18-31 | the lowest frame with count 0; an error exactly when there is none |
| MemMan.Memory.AllocFrame | kernel/memman.c:63-86 | the address of the lowest free frame, whose count is then 1 and whose no-swap bit is that of the flags; an error exactly when none is free, with no change |
| MemMan.Memory.FreeFrame | kernel/memman.c:88-93 | one count goes down by one and never below 0 |
| MemMan.Memory.FillTable | kernel/memman.c:130-146 | up to 1024 pages enter the table while frames last; fails exactly when they run out |
| MemMan.Memory.AddTable | kernel/memman.c:115-150 | one more table with its pages is in the directory, or frames have run out |
| MemMan.Memory.Build | kernel/memman.c:95-158 | succeeds exactly when there are frames for directory, tables and pages; then they are mapped in order, the lower half is the kernel's, their addresses are in the two arrays, none of them is marked against swapping, and nothing else in memory differs; fails cleanly exactly when not even a directory can be had |
| MemMan.Memory.DropRange | kernel/memman.c:164-167 | each frame recorded in a stretch of words gives up one reference, in their order |
| MemMan.Memory.Release | kernel/memman.c:160-168 | each page, table and the directory gives up one reference, in this order |
| MemMan.RecordIsExact | kernel/memman.c:130-146 | the record of pages is right exactly for at most 1024 pages |
| MemMan.RecordReleases | kernel/memman.c:160-168 | what free_addr_space reads from the record, "+1" included, is every frame of the space |
| Frames.FreeAfter | kernel/memman.c:18-31 | after the k lowest free frames are taken, the next one found is the k-th |
| Frames.EntryIsBitOr | kernel/arch/i386/paging.c:55-63 | Entry is the bit operation of the source, on the numbers that 32 bit words stand for |
| Frames.EntryBits | kernel/arch/i386/paging.c:55-63 | an entry has the bits for present, writable and user set, and every other bit of the address |
| Frames.PlusOneHarmless | kernel/memman.c:131-132 | the stray 1 changes neither entry nor frame |
| Spaces.WalkReaches | kernel/memman.c:129-149 | the two-level walk of user page k reaches the k-th page frame |
| Spaces.WalkIsOpen | kernel/memman.c:145-149 | both entries on the way of every user page are the frame's address plus 7: present, writable and open to the user |
| Spaces.TablesAndPages | kernel/memman.c:99-102 | how many tables and pages: the last table is empty exactly when the pages fill those before it |
| Spaces.MappedElsewhere | kernel/memman.c:95-158 | writes to other frames leave a mapping as it is, although tables live in frames |
| Spaces.DropOrderElems | kernel/memman.c:160-168 | every frame of a space is dropped exactly once |
| Spaces.ReleaseRestores | kernel/memman.c:160-168 | releasing what was taken restores every count |
| SpaceRuns.RunInv | kernel/memman.c:95-168 | over every run live spaces are mapped, share no frame, and each count is exact |
| SpaceRuns.Isolation | kernel/memman.c:71-158 | two live spaces have no frame in common and each walk reaches the space's own frame, through entries open to its process |
| SpaceRuns.TranslationStays | kernel/memman.c:95-158 | from building to release the translation of every page stays the same, whatever happens to other spaces |
| SpaceRuns.AllReleased | kernel/memman.c:160-168 | when no space is left every count is what it was at the start |
| Process.ArraysWritten | kernel/memman.c:95-158 | the arrays of frames and tables are the payloads of two heap blocks: writing them leaves the heap's lists and every other block alone |
| Process.ArraysStay | kernel/memman.c:95-158 | what a process's arrays say stands as long as the payloads of blocks in use do |
| Process.Kernel.BuildIn | kernel/memman.c:95-158 | the space is built with its two arrays written into heap blocks; the heap stays in order and no other payload changes |
| Process.Kernel.Create | kernel/arch/i386/process.c:17-63 | each outcome exactly when the heap and the free frames say so (Foretold): success when all five blocks are granted and the frames are enough; no directory when the two arrays are granted and no frame is free; no return when some frames are free but too few; else a null block. On success five blocks and the frames of a space, with their addresses in the first two blocks; without a directory heap and frames as they were; payloads of older blocks are kept |
| Process.Kernel.Kill | kernel/sched.c:91-98 | five frees, each of a block in use, and every frame of the space dropped, as read from the heap's words; payloads of other blocks are kept |
| Process.Kernel.KAlloc | kernel/lib/kalloc.c:26-36 | the heap's answer for that size, never null for a block given; payloads of blocks in use are kept |
| Process.Kernel.KFree | kernel/lib/kalloc.c:38-46 | the heap's state after the free; payloads of the blocks still in use are kept |
| Process.GrantedInTwo | kernel/arch/i386/process.c:22-41 | all five requests are granted exactly when the two of the arrays are and then the other three |
| Process.FiveGranted | kernel/arch/i386/process.c:22-41 | the requests made one by one are the five of the process |
| Process.TwoBack | kernel/memman.c:105-111 | the two arrays given back leave the heap's used and free sets as they were |
| Process.FreedOneByOne | kernel/arch/i386/process.c:66-71 | the frees made one by one are those of the process in order |
| Lifecycle.SizesAre | kernel/arch/i386/process.c:22-41 | the five sizes that a process asks for, by the length of its text |
| Lifecycle.AllocAllAdds | kernel/arch/i386/process.c:22-41 | blocks granted are new, distinct and in use |
| Lifecycle.FreeAllRemoves | kernel/arch/i386/process.c:66-71 | distinct blocks in use can be freed in any order, and only they leave |
| Lifecycle.KillFrees | kernel/sched.c:91-98 | killing frees each of the five blocks exactly once and every free succeeds |
| Lifecycle.RunInv | kernel/sched.c:33-98 | over any interleaving of creations, refused or not, adds and kills, blocks and frames of processes are disjoint and accounted for |
| Lifecycle.AllKilled | kernel/sched.c:91-98 | once all processes are killed the heap's used and free sets and every frame count are those of the start |
| Lifecycle.RefuseInv | kernel/memman.c:105-111 | a creation refused for want of a directory keeps all that |
| KernelRuns.Processes.Create | kernel/arch/i386/process.c:17-63 | each outcome exactly when heap and free frames say so; a creation in place is a step of these runs, and so is one that is refused; the struct holds on to what was allocated |
| KernelRuns.Processes.Add | kernel/sched.c:33-48 | an add to the table in place is a step; it fails exactly with the table full, with no change |
| KernelRuns.Processes.Destroy | kernel/arch/i386/process.c:66-71 | from the struct and its arrays in the heap exactly the process's five blocks and frames are given back; all other payloads are kept |
| KernelRuns.Processes.Kill | kernel/sched.c:91-98 | a kill in place is a step, and the next process is chosen from the table without it; a switch is from the current slot to another one that has a process |
| KernelRuns.StaysHeld | kernel/memman.c:129-168 | whatever else changes in memory, every process's arrays go on listing its frames, as long as payloads in use are kept |
| KernelRuns.CreateKeeps | kernel/arch/i386/process.c:17-63 | after a creation the arrays of the new process and of all others list their frames |
| KernelRuns.MayKill | kernel/sched.c:91-98 | in every state of a run a process in the table may be killed: its blocks are in use, each once, and its frames exist |
| KernelRuns.CreateIsStep | kernel/memman.c:129-155 | the frames in the arrays are those of the new space, in order |
| KernelRuns.KillIsStep | kernel/memman.c:160-168 | the frees of heap and frames with the slot emptied are one kill |
| Sched.Scheduler.constructor | kernel/sched.c:19-31 | an empty table with slot 0 current |
| Sched.Scheduler.Add | kernel/sched.c:33-48 | the lowest free slot above 0 becomes runnable; fails exactly when there is none |
| Sched.Scheduler.Schedule | kernel/sched.c:52-89 | the circular search ends within N steps at Next, with the outcome OutcomeOf; a switch is from the slot that was current to the runnable slot that is now, and they differ |
| Sched.Scheduler.Kill | kernel/sched.c:91-98 | the slot is empty, and a switch, if any, is from the slot that was current to another, runnable one that is not the killed |
| Sched.OutcomeExact | kernel/sched.c:57-88 | the kernel ends exactly when nothing runs or waits, idles exactly when some wait and none run, goes on exactly when only the current slot runs, and else switches from it to the first runnable slot upwards, round the end of the table |
| Sched.Nearer | kernel/sched.c:57-61 | each call brings the search strictly nearer to a process that stays runnable |
| Sched.Fairness | kernel/sched.c:52-88 | such a process is chosen within as many calls as it is slots away, however the table changes |
| Sched.FairWithinTable | kernel/sched.c:52-88 | within N-1 calls |
| Timer.TimerList.Interrupt | kernel/timer.c:12-29 | a tick that deletes events from the list it walks counts every event once and leaves the survivors in order |
| Timer.TimerList.Visit | kernel/timer.c:16-27 | whatever happens to an event, the walk goes on with the one that followed it |
| Timer.TimerList.Delete | kernel/timer.c:59-76 | the event leaves the list, which stays linked and free of duplicates; its own next is intact |
| Timer.TimerList.Add | kernel/timer.c:78-92 | the event is at the front, unless it was on the list already |
| Timer.TimerList.Set | kernel/timer.c:43-57 | an event on the list is left alone; another gets count and interval |
| Timer.OneTick | kernel/timer.c:16-27 | a tick fires and keeps or drops each event by its own count alone |
| Timer.TickProper | kernel/timer.c:16-27 | a tick leaves no event on the list twice and adds none |
| Timer.TickExact | kernel/timer.c:12-29 | after n ticks an event has fired exactly as often as count and interval say; a one-shot is off the list exactly once it has fired |
| Console.TabExact | kernel/dev/bcon.c:97-103 | a tab is four spaces: the cursor is four cells on, those cells are blank, and no other cell differs |
| Console.PutExact | kernel/dev/bcon.c:78-121 | carriage return, line feed, backspace and any other character, each by cells, row and column |
| Console.Screen.CarriageReturn | kernel/dev/bcon.c:83-84 | the screen shows the page after a carriage return |
| Console.Screen.PutChar | kernel/dev/bcon.c:78-121 | the screen shows the end of the unbounded page after the character, exactly unless it is a backspace in cell 0 |
| Console.Screen.Write | kernel/dev/bcon.c:58-66 | the same for every text without such a backspace |
| Console.Screen.ClearScreen | kernel/dev/bcon.c:68-76 | from any state the screen shows an empty page |
| Console.Screen.NewLine | kernel/dev/bcon.c:86-95 | the next row, with the screen moved up when it was the last |
| Console.Screen.BackSpace | kernel/dev/bcon.c:107-109 | the cell before the cursor is blank and the cursor in it; from cell 0 the cursor register becomes 0xFFFF |
| Console.Screen.Type | kernel/dev/bcon.c:113-119 | the character is on the page and the cursor on the screen again |
| Console.Screen.ScrollUp | kernel/arch/i386/dev/bcon.c:42-57 | every cell holds what was one row below, the last row is blank |
| Console.Screen.CopyDown | kernel/arch/i386/memutil.S:4-18 | the forward byte copy over itself is a true shift |
| Console.Screen.ClearLine | kernel/arch/i386/dev/bcon.c:31-40 | one row is blank, nothing else differs |
| Console.Screen.WriteChar | kernel/arch/i386/dev/bcon.c:59-71 | the cell at the cursor, and the cursor register one on, in 16 bits |
| Console.Screen.SetPos | kernel/arch/i386/dev/bcon.c:77-85 | the register holds the offset in 16 bits, for every x and y in 32 bits |
| Console.Screen.GetPos | kernel/arch/i386/dev/bcon.c:87-93 | row and column whose offset is the register |
| Console.Screen.CursorDown | kernel/dev/bcon_cursor.c:12-17 | one row on in 16 bits, from anywhere |
| Console.Screen.CursorUp | kernel/dev/bcon_cursor.c:5-10 | one row back; from the first row to the last values of the register |
| Console.Screen.CursorLeft | kernel/dev/bcon_cursor.c:19-24 | one cell back; 0xFFFF from the first |
| Console.Screen.CursorHome | kernel/dev/bcon_cursor.c:33-38 | the first cell of the row |
| Console.Screen.OffEnd | kernel/dev/bcon_cursor.c:40-49 | whether the cursor is below the screen |
| Console.ScrollShows | kernel/arch/i386/dev/bcon.c:42-57 | a one row shift with a blank last row shows the page one row further down |

## Left out

- Heap.Region.constructor: lengths below 16 are not modelled; the source fails below 8 and lets the first length wrap from 8 to 15.
- Heap.Region.Alloc: sizes above 0xFFFFFFF4 are not modelled, because the size wraps (see Heap.NeedWraps) and the header written no longer lies in the region.
- EfsDevice.Device.AddFile: the entry's 12th name byte is what the block held, as in the source; on the disks modelled it is 0.
- EfsDevice.Device.ReadWrite: taking the name off a path, and the uninitialised 12th byte of the name buffer, are not modelled. For "." and the empty name new_file is modelled (see EfsDir.NewFileKeepsDir), and the blocks written after it are not: there is no directory in order any more that the rest could be about. A source that cannot be opened counts as an empty one.
- EfsDevice.Device.DirectBlock: get_logical_block for indirect blocks is not modelled, because it leaves out the data offset that the writer adds (efs/inode.c:121); indirect blocks are read with the loader's get_bnum.
- EfsWrite.ReadWriteEffect: source files that a read returns in short pieces before their end are not modelled; each read but the last is a full block.
- MemMan.Memory.Build: what memory holds after a failure beyond the directory is not stated, because the source does not come back from there.
- Process.Kernel.Create: for text sizes from 0xBFFEF000 on the directory has no room for the tables; they are not modelled. When kalloc gives null the source goes on and writes through it; that ends the model with `NullBlock`. The copy of the text is not modelled, and of the five blocks the words of the first two are: the fields of addr_space_t, of the process info and of the TSS are values beside the heap.
- Process.Kernel.Kill: spaces of more than 1024 pages are not modelled, because the record of their pages is wrong (see MemMan.RecordIsExact).
- Timer.TimerList.Add: the write through a null head on the first add has no effect in the model.
- Timer.TimerList.Interrupt: callbacks are a log; a callback that edits the list is not modelled.
- Console.Screen.Type: with the cursor off the screen only what a backspace needs is stated; video memory is as large as the register can address.
- KernelRuns.Processes.Create: processes of more than 1024 pages are no part of the runs, because their record is wrong; what is left after `NullBlock` and `NeverReturns` is not stated, because the source does not come back from there in order.
- Console.Screen.Write: texts with a backspace in cell 0 are not modelled; one such character is (see Console.Screen.PutChar).
- BootLoad.LoadsFile: from block 35 on the model says `Astray` and not what the machine does with the file's bytes as geometry and instructions; a file that carries the loader's own bytes there is among these.
- BootLoader.Loader.ReadSector: with its own geometry the loader reads by sector number; the addressing by cylinder and head is not modelled.
- BootLoader.Loader.FindKernel: a comparison or a number that takes bytes from behind the buffer ends as `Lost`; on disks in order that is only a number found with a name inside the 64th entry. At the end of the block the source has lost the number of the block and gives up.
- BootLoader.Loader.ReadInode: the three small buffers are apart from the memory of the image, which reaches them only behind block 35; in the source the last 26 bytes of an inode, which nothing reads, go over the beginning of the block buffer.
- The page table entries behind the last page of a space: the table's frame is not cleared, and nothing is said of them.
- Double indirect blocks: the writer does not implement them and the loader stops at them.
- mkefs frees the superblock before it reads it again; its values are taken as still there.
- Disks with more than 3936 data blocks, whose bitmap would leave block 0.
- Host file input and output, arguments, messages, the floppy and its geometry: block accesses on the disk succeed.
- `init_memman`: the size of the frame map and its reserved range; the model starts from any counts in which the kernel's directory is counted.
- Interrupts, context switches, descriptor tables, port input and output, the keyboard, formatted printing: hardware plumbing and easy members.
