# babyos2 in Dafny

This project models the parts of the babyos2 kernel that hold its hardest invariants, and proves
what they promise for every input, every run and every reachable state. `dafny verify
dfyconfig.toml` checks all of it.

| file | models |
|---|---|
| `Machine.dfy` | words, bytes and small types that the other modules share |
| `Buddy.dfy` | the buddy page allocator: free lists, one toggle bit per buddy pair, splitting, coalescing |
| `Frames.dfy` | the page counts that the kernel keeps over the buddy allocator |
| `VmArea.dfy` | the sorted list of memory areas of a process: find, insert with merging, first fit, mmap, munmap, stack growth |
| `Cow.dfy` | copy-on-write: page-table entries of all processes, frame counts and contents, against a machine in which fork copies everything |
| `PageTable.dfy` | two-level page tables against a flat map |
| `Disk.dfy`, `Files.dfy`, `FileSystem.dfy` | block bitmap, direct and indirect blocks, reading, writing and truncating files, against one flat byte sequence per file |
| `Directory.dfy` | directories, on top of the file system, against finite maps |
| `Semaphores.dfy`, `Pipes.dfy` | the hand-off semaphore, and the pipe built on two of them, as interleaved critical sections |
| `Scheduler.dfy` | the scheduler on any number of CPUs, as interleaved steps, with exit, release and reuse of a process's memory |
| `Reclaim.dfy` | when a process whose memory was given back is gone for good |
| `Undisturbed.dfy` | the scheduler's code, one uninterrupted call at a time, as runs of those steps |
| `Cache.dfy` | the sector cache of the disk driver against the bare disk |
| `Checksum.dfy`, `NetBuffer.dfy`, `Ethernet.dfy`, `Ip.dfy`, `Udp.dfy` | the Internet checksum, and the way of a UDP datagram through IP and Ethernet and back |
| `Dns.dfy` | domain names on the wire |

How the code appears. Objects that the kernel updates in place are classes whose methods follow the
source loop by loop: `FreeArea`, `PageCounts`, `Vmm`, `Memory`, `AddressSpace`, `Volumes`, `Semaphore`, `Pipe`,
`Kernel`, `CachedDisk`, `NetBuf`. Each method is proved against functions and predicates on values,
and the laws are lemmas about those. Doubly linked lists are sequences. Machine integers are `nat`,
with every 32-bit, 16-bit or 8-bit wrap that can happen written out; flags are bit-vectors. Concurrent code is cut into
the steps that other CPUs or processes can see, and a law "over every run" quantifies over all
sequences of enabled steps. `ghost` fields such as the owner of each page or block record what the
state means; the code does not read them.

Parameters instead of hardware and of code outside the model: the faulting address, the error bits
and the stack pointer of a page fault; whether an object pool is empty and what a recycled object
holds; which frame the allocator returns and what an unwritten frame holds; what freed memory comes
to hold; the addresses of the two hosts, and the bytes behind a datagram in memory; the order in
which CPUs, processes and wakers take their steps.

## What turned out to be false

These properties do not hold of the code as it is. Each has a lemma or a method at a concrete input,
and the exact condition under which the code meets it.

- `get_unmapped_area` has no upper bound on its last exit: `UnmappedPastUserSpace` gives a list for
  which the answer is the kernel base; `UnmappedInUserSpace` says that the answer lies in user space
  exactly when something there fits, and `UnmappedStuck` what the answer is when nothing does.
- `do_mmap` computes the end of a range on 32 bits. With only the stack of a fresh process mapped, a
  request for half the address space is put at the kernel base, its end wraps, and the list is no
  longer sorted (`MapWraps`). A request that is not refused maps its range, and nothing else, exactly
  when its address was fixed, or something fits into user space, or the range ends below 2^32 behind
  the last area (`MapsExact`, `DoMmap`). Otherwise the wrapped area is linked all the same, the call
  reports success and no address becomes mapped.
- For the first of these reasons a range just mapped cannot always be unmapped (`MappedForGood`): it
  can exactly when its address was fixed or something fits into user space (`MapThenUnmap`).
- `alloc_pages` in `src/mm.cc` lowers the free-page counter before it searches: the counter is the
  number of free pages less the pages of all refused requests (`FreeArea.Valid`, `AllocPages`); one
  refused request of a page leaves it at -1 (`CounterDrifts`).
- `alloc_pages` counts every page of a block and `free_pages` only the first. From counts that are 0
  on exactly the free pages, freeing a block keeps them so exactly when it has one page or is not
  given back yet (`PageCounts.FreePages`; `CountsDrift` for two pages). A page whose count was left
  over is not given back when it is freed the next time (`OnePageAgain`).
- The range checks of `read_inode` and `write_inode` are 32-bit sums: they do what they are for
  exactly when offset plus size does not wrap (`Clamp`, `Refused`; `RangesWrap` for two that do).
- `dir_link` reports success when its write was refused: the name is bound exactly when an entry is
  empty or the directory may still grow (`Link`); `FullDirectory` has 4480 entries and neither.
- A process may be freed while it is on the run queue, and be chosen again after its memory is in
  other use (`FreedAndChosen`). No CPU names a freed process in any continuation exactly when, at its
  release, neither the run queue nor a waker refers to it (`ReleasedForGood`), which is decided when
  it exits (`ExitDecides`).
- `check_sum` adds in 32 bits: it is right exactly when the plain sum stays below 2^32
  (`CheckSumExact`), which 131074 bytes guarantee and 131075 do not (`TooLong`).
- UDP payloads arrive as they were sent exactly from 18 to 2006 bytes (`SendAndReceive`). Shorter ones
  arrive with Ethernet's padding (`OneByte`); longer ones are lost although `transmit` reports success
  up to 2028 bytes (`LostWithoutNotice`). Lengths are 16 bits: 65528 bytes are sent as none
  (`LengthWraps`).
- `parse_name` writes no terminator after a trailing dot and takes empty labels: a non-empty name
  comes back from the wire exactly when it has neither (`ComesBack`; `TrailingDot`, `EmptyLabel`). It
  reports success without room in the buffer: the wire form is there exactly when it fits
  (`ParseName`).

## Model

| member | source | states |
|---|---|---|
| `Buddy.GetBuddy` | src/mm.cc:257-261 | The XOR of offset and size is the other half of the same aligned pair: aligned, different, one block size away, same pair index |
| `Buddy.MergeMove` | algorithm/buddy/buddy.cc:87-98 | In every valid state the pair bit of a handed-out block is set if and only if its buddy is on the free list of that order, so the unlinked buddy is really there; unlinking it, toggling the bit and joining the two keeps lists, bits, tiling and coalescing |
| `Buddy.PlaceMove` | algorithm/buddy/buddy.cc:88-99 | Putting a block on its list when its buddy is not there keeps the whole invariant, with the toggled bit below the top order and without it at the top |
| `Buddy.TakeMove` | algorithm/buddy/buddy.cc:125-129 | Unlinking a listed block and toggling its bit keeps the whole invariant and makes it a handed-out block |
| `Buddy.SplitMove` | algorithm/buddy/buddy.cc:110-116 | Listing the lower half of a handed-out block with its bit toggled keeps the whole invariant and leaves the upper half handed out |
| `Buddy.RunInsideBlock` | algorithm/buddy/buddy.cc:81-100 | When no two buddies below the top are both free, every aligned run of free pages lies inside one free block |
| `Buddy.CanonicalFree` | algorithm/buddy/buddy.cc:81-135 | A block is on a free list if and only if it is an aligned free run whose parent run is not wholly free: the lists are a function of the set of free pages |
| `Buddy.HistoryIndependent` | algorithm/buddy/buddy.cc:81-135 | Two reachable states with the same free pages have the same blocks on every list and the same pair bits, whatever was allocated and freed before |
| `Buddy.RefusalExact` | src/mm.cc:315-335 | Some list of the order or above is non-empty if and only if some aligned run of that size is free |
| `Buddy.Reassembled` | algorithm/buddy/buddy.cc:137-142 | With all pages free, every list below the top is empty, the top list holds every top-order block, and all pair bits are clear |
| `Buddy.InitialInv` | src/mm.cc:228-248 | The empty area satisfies the invariant |
| `Buddy.FreeArea.constructor` | src/mm.cc:228-248 | A fresh area is valid, with nothing listed |
| `Buddy.FreeArea.FreePages` | src/mm.cc:275-294 | Frees exactly the pages of the given block, keeps every other handed-out block and the invariant; the block that results stands first on its list; the free-page counter follows |
| `Buddy.FreeArea.MergeUp` | algorithm/buddy/buddy.cc:83-98 | The climb absorbs only free buddies and ends with a block that may be listed |
| `Buddy.LargerKept` | src/mm.cc:320-332 | When a smaller free block will do, no larger one is touched |
| `Buddy.FreeArea.AllocPages` | src/mm.cc:315-335 | Hands out an aligned run that was wholly free: the top end of the first block on the first non-empty list from the order on, and changes nothing outside that block; refuses if and only if no such run exists, and then changes nothing but the counter |
| `Buddy.FreeArea.Expand` | src/mm.cc:297-306 | Splitting down to the wanted order gives back all but the run handed out |
| `Buddy.FreeArea.FreeBootMem` | src/mm.cc:337-343 | Freeing the pages one by one builds the all-top-order state |
| `Buddy.FreeArea.FreeAll` | algorithm/buddy/buddy.cc:137-142 | Freeing all handed-out blocks in any order restores the all-top-order state |
| `Buddy.CounterDrifts` | src/mm.cc:315-335 | A refused request after which the counter says -1 while no page is free |
| `Frames.TakingExact` | src/mm.cc:308-311 | Counting every page of a block that is handed out keeps "count 0 means free" exact |
| `Frames.GivingExact` | src/mm.cc:268-273 | Lowering only the first count of a block that is given back keeps it exact if and only if the block is one page |
| `Frames.PageCounts.constructor` | src/mm.cc:217-226 | Every page starts with count 1 and none is listed |
| `Frames.PageCounts.AllocPages` | src/mm.cc:297-335 | Hands out a free run if and only if there is one, with the count of each of its pages raised |
| `Frames.PageCounts.CountUp` | src/mm.cc:308-311 | The loop raises the counts of exactly the pages of the block |
| `Frames.PageCounts.FreePages` | src/mm.cc:268-295 | Panics if and only if the count is 0; otherwise lowers it, and gives the block back if and only if it was 1; from exact counts, what is left is exact if and only if nothing was given back or the block is one page |
| `Frames.PageCounts.FreeBootMem` | src/mm.cc:337-343 | After boot all pages are free, with count 0 |
| `Frames.PageCounts.AllocThenFree` | src/mm.cc:268-335 | A block handed out and freed leaves the free pages as they were, and the counts exact if and only if it is one page |
| `Frames.PageCounts.OnePageAgain` | src/mm.cc:268-335 | A page handed out and freed comes back if and only if its count was 0 before |
| `Frames.CountsDrift` | src/mm.cc:268-313 | Four pages, one block of two handed out and freed: all free, one count left over |
| `VmArea.FirstFitLowest` | src/vm.cc:171-189 | The walk returns the lowest gap at or above its start, or 0 when no gap ends inside user space |
| `VmArea.UnmappedLowest` | src/vm.cc:171-189 | The address found is aligned, at or above the base, overlaps nothing, and every lower candidate overlaps; 0 means that nothing fits |
| `VmArea.UnmappedInUserSpace` | src/vm.cc:171-189 | The answer lies inside user space if and only if some range there fits |
| `VmArea.UnmappedPastUserSpace` | src/vm.cc:177-188 | A list for which the answer is the first kernel address |
| `VmArea.FirstAnswer` | src/vm.cc:171-189 | In an empty address space the answer is 0x40000000 |
| `VmArea.UnmappedStuck` | src/vm.cc:171-189 | When nothing fits, the answer is 0 if and only if the bound stops the walk at the last area, with the end of the area before it; otherwise the end of the last area, or the base |
| `VmArea.InsertKeeps` | src/vm.cc:123-147 | Inserting a range that meets no area keeps the list sorted, disjoint and non-empty and adds exactly that range with its attributes |
| `VmArea.MergeKeeps` | src/vm.cc:149-166 | Merging two adjacent areas with equal attributes changes the attributes of no address |
| `VmArea.LinkedKeeps` | src/vm.cc:123-169 | Insertion with merging left, right or both preserves the map of addresses plus the new range |
| `VmArea.LinkedJoins` | src/vm.cc:149-166 | Areas that touch the new range on the left, on the right or on both sides and have its attributes end up in one area with it |
| `VmArea.LinkedNoSeam` | src/vm.cc:149-166 | A list in which no two neighbours can be merged stays so through every insertion |
| `VmArea.InsertMeaning` | src/vm.cc:123-169 | The single comparison of `insert_vma` refuses a proper range if and only if it overlaps some area, and linking it adds exactly the range |
| `VmArea.WrappedAddsNothing` | src/vm.cc:123-169 | Linking an area whose end has wrapped makes no address mapped that was not |
| `VmArea.RemoveKeeps` | src/vm.cc:299-315 | Cutting a range out of an area removes exactly that range in all four cases and keeps the list sorted, disjoint and non-empty |
| `VmArea.FindVmaSeesOverlap` | src/vm.cc:217-223 | The one comparison made for a fixed address holds if and only if the range overlaps some area |
| `VmArea.UnmappableExact` | src/vm.cc:268-296 | `do_munmap` takes a range if and only if it is aligned, inside user space, and empty or inside one area with a spare object |
| `VmArea.FlagBits` | src/vm.h:25-32 | The single bits behind the tests for a fixed address and for a stack |
| `VmArea.FaultExact` | src/vm.cc:373-384 | A fault is no segmentation fault if and only if its address has an area, or a user faults at most 32 bytes below the stack pointer, or above it, in the gap under an area with a stack bit |
| `VmArea.ExpandWellFormed` | src/vm.cc:441-448 | Growing an area down to the page of a fault just below it keeps the list sorted and disjoint, because areas are page aligned |
| `VmArea.ExpandKeeps` | src/vm.cc:441-448 | Growing an area gives its attributes to exactly the new addresses |
| `VmArea.FaultAreasKeep` | src/vm.cc:367-381 | After a fault that is not a segmentation fault the list is well formed, holds the address, and only the area found may have grown, by no address below the page of the fault |
| `VmArea.Vmm.FindVma` | src/vm.cc:97-107 | The first area that ends above the address |
| `VmArea.Vmm.InsertVma` | src/vm.cc:123-169 | For every range, wrapped or not: refused, with nothing changed, if and only if the last area that starts below its end reaches into it, otherwise linked and merged there; a proper range is refused if and only if it overlaps, otherwise exactly the range is added and is in one area with all that touches it and has its attributes; no mergeable neighbours arise |
| `VmArea.Vmm.LinkAt` | src/vm.cc:141-168 | The linking in place with a merge to the left and a merge to the right |
| `VmArea.Vmm.GetUnmappedArea` | src/vm.cc:171-189 | The loop computes the first fit |
| `VmArea.PlaceStaysBelow` | src/vm.cc:196-231 | The chosen range is aligned and overlaps nothing; its end stays below 2^32 if and only if the address was fixed, something fits, or there is room behind the last area; if not it starts behind the last area |
| `VmArea.PlaceInsertable` | src/vm.cc:196-254 | The chosen range is never refused by the insertion, even when its end wraps |
| `VmArea.PlaceExact` | src/vm.cc:196-231 | A request is refused if and only if it leaves user space, or has a fixed address that is unaligned or whose range has an address with an area, or nothing fits and the search ends in 0; a fixed request is put at its address |
| `VmArea.MapsExact` | src/vm.cc:196-254 | The chosen range is mapped inside one area, nothing else changed and the list well formed, if and only if the range stays below 2^32 as a caller can see beforehand; otherwise no address becomes mapped |
| `VmArea.MapWraps` | src/vm.cc:196-254 | The stack of a fresh process and a request of 0x80000000 bytes: success, and a list that is not sorted |
| `VmArea.MergesRight` | src/vm.cc:159-166 | Two pages mapped from the top down are one area, which one call unmaps |
| `VmArea.MappedForGood` | src/vm.cc:269-276 | A page that is mapped above user space and cannot be unmapped |
| `VmArea.Vmm.DoMmap` | src/vm.cc:196-254 | Refuses with the list unchanged, or returns the chosen start with the new area linked; exactly the range is mapped, in one area with what touches it and has its attributes, if and only if it stays below 2^32; no mergeable neighbours arise |
| `VmArea.Vmm.ChooseStart` | src/vm.cc:196-231 | Range checks, fixed-address test and search agree with the specification, and what they choose overlaps nothing |
| `VmArea.Vmm.DoMunmap` | src/vm.cc:269-321 | Succeeds if and only if the range lies in user space and inside one area and a spare object exists; then exactly the range is gone, otherwise nothing changed |
| `VmArea.Vmm.CutInTwo` | src/vm.cc:299-315 | The splitting and dropping of pieces in place |
| `VmArea.Vmm.FaultArea` | src/vm.cc:367-381 | Finds or grows the area of a fault, or reports the segmentation fault with nothing changed |
| `VmArea.UserSpaceExact` | src/vm.cc:171-276 | The chosen range passes the test of `do_munmap` if and only if its address was fixed or something fits into user space |
| `VmArea.Vmm.MapThenUnmap` | src/vm.cc:196-321 | For every request: unmapping a range just mapped succeeds if and only if its address was fixed or something fits into user space, and then restores the covered addresses; otherwise the list stays as the mapping left it |
| `Cow.Memory.constructor` | src/vm.cc:12-16 | A first process without areas over unused frames is a valid start |
| `Cow.EagerFork` | src/vm.cc:18-67 | In the eager machine a fork gives the child exactly the pages of the parent with their contents, and nobody else sees a change |
| `Cow.EagerStore` | src/vm.cc:323-355 | In the eager machine a store changes one byte of one page of one process |
| `Cow.EagerVanish` | src/vm.cc:479-499 | In the eager machine a process that vanishes loses all its pages, and no other process any |
| `Cow.Share` | src/vm.cc:51-61 | Sharing a page write-protected keeps "count equals number of entries" and "a writable entry is alone" |
| `Cow.Unshare` | src/vm.cc:347-352 | Moving one entry to a private copy keeps both |
| `Cow.DropTables` | src/vm.cc:479-499 | When all entries of a process were given up, dropping its tables keeps both |
| `Cow.OnlyHolder` | src/vm.cc:323-355 | The frame of a writable entry is mapped by no other entry of any process |
| `Cow.ForkView` | src/vm.cc:31-67 | Sharing all pages looks to everyone like copying all pages |
| `Cow.CopiedView` | src/vm.cc:347-352 | Moving an entry to a copy of its frame changes what nobody sees |
| `Cow.Memory.Fork` | src/vm.cc:18-67 | Is the eager fork on what processes see; the child gets the parent's areas |
| `Cow.Memory.CopyPageTable` | src/vm.cc:31-67 | Every present user page of the parent is shared with the child, write protected on both sides |
| `Cow.Memory.PageFault` | src/vm.cc:367-409 | A fault is killed, refused or resolved exactly as areas and access say; resolving a missing page adds one page for this process, resolving a write changes what nobody sees and leaves a writable entry |
| `Cow.Memory.ProtectionFault` | src/vm.cc:323-355 | Refused if and only if the area is not writable; otherwise the entry becomes writable and all views stay |
| `Cow.Memory.CopyOnWrite` | src/vm.cc:347-352 | The private copy, with counts right and all views unchanged |
| `Cow.Memory.UserStore` | src/vm.cc:323-355 | A store through a writable entry is seen by that process alone |
| `Cow.Memory.FreePageRange` | src/vm.cc:450-461 | Lowers the count of every mapped page in the range once; frames still mapped elsewhere keep their contents |
| `Cow.Memory.Release` | src/vm.cc:479-499 | The process loses all its pages, no other process sees a change, and all counts are right |
| `Cow.FaultGrows` | src/vm.cc:367-381 | After a resolved fault every old address keeps its attributes, the faulting one has those of the area found, and new ones are like it and lie from its page on |
| `Cow.FaultMoves` | src/vm.cc:367-409 | What a fault does to areas and entries follows from its outcome |
| `Cow.Memory.HiddenStep` | src/vm.cc:248-251 | Mapping an area adds exactly its addresses to one process; frames that the kernel takes and gives back are counted; no process sees a change |
| `Cow.Memory.Step` | src/vm.cc:18-499 | Every operation of any process is the one step of the eager machine that explains it: a fork copies, a store changes one byte of one process, a fault adds one page, nothing, or ends the process; and the areas change, address by address, as the operation is for |
| `Cow.Memory.Run` | src/vm.cc:18-499 | Over every run, each process sees the memory it would see had fork copied every page; every operation that can take place has its step of the eager machine and its effect on areas, entries and kernel frames, any other changes nothing |
| `Cow.RangeStays` | src/vm.cc:18-499 | No operation but the end of the process takes an address of a mapped range away or changes its attributes |
| `Cow.MappedStays` | src/vm.cc:196-254 | A range mapped in a run keeps its attributes until its process vanishes |
| `Cow.MappedServes` | src/vm.cc:367-409 | A fault inside a range mapped earlier in the run, by a process that has not vanished since, never kills it; the page is there afterwards, and writable if the range is |
| `PageTable.NewTableSilent` | src/mm.cc:115-119 | A fresh, cleared table changes no translation |
| `PageTable.SetEntryExact` | src/mm.cc:122-127 | Writing one table entry changes the translation of one page |
| `PageTable.EntryParts` | src/mm.cc:125 | An entry holds the frame, the given bits and bit 0, and nothing else |
| `PageTable.SameDistance` | src/mm.cc:122-127 | An address as far behind va as another behind pa, across pages and the wrap at 32 bits |
| `PageTable.MapsChain` | src/mm.cc:111-128 | Two neighbouring ranges mapped in turn are one range mapped |
| `PageTable.AddressSpace.MapPages` | src/mm.cc:101-130 | Exactly the pages of the range get entries for consecutive frames, across directory entries that need new tables; every other entry is unchanged, and new directory entries are present, writable and for users |
| `PageTable.AddressSpace.MapThenTranslate` | src/mm.cc:101-386 | After mapping, every address of the range below the kernel translates to the address as far behind pa as it is behind va; every other address translates as before |
| `PageTable.AddressSpace.FillTable` | src/mm.cc:122-127 | The inner loop maps up to the end of the table or of the range |
| `PageTable.AddressSpace.VaToPa` | src/mm.cc:366-386 | Translation through the tables is lookup in the flat map, linear above the kernel base |
| `Disk.PutWordExact` | src/fs.cc:159-164 | A word stored in an indirect block reads back and its neighbours are untouched |
| `Disk.WordForm` | src/fs.cc:159-164 | The byte order of a word, at a word |
| `Disk.BitForm` | src/fs.cc:109-113 | Bit k of a byte has the weight 2^k |
| `Disk.MarkedForm` | src/fs.cc:104-113 | The place of a block's bit in the bitmap: bitmap block, byte and bit |
| `Disk.MarkExact` | src/fs.cc:112-115 | Setting or clearing one bitmap bit changes no other |
| `Files.GrabInv` | src/fs.cc:101-127 | A block just allocated has no owner but the hand that holds it |
| `Files.AttachDirect` | src/fs.cc:146-153 | Entering the block as the next direct block keeps exact ownership and no holes |
| `Files.AttachIndirect` | src/fs.cc:155-157 | So does entering it as the indirect block |
| `Files.AttachWord` | src/fs.cc:161-166 | So does entering it as the next word of the indirect block |
| `FileSystem.ByteOnDisk` | src/fs.cc:146-169 | Where byte i of a file lies on the disk, by raw bytes: through a direct address, or through four bytes of the indirect block |
| `FileSystem.ChunkIsSlice` | src/fs.cc:74-86 | The bytes copied from one block are a slice of the flat contents |
| `FileSystem.WriteStep` | src/fs.cc:400-413 | Writing into one block extends the written part of the flat contents by exactly the bytes copied |
| `FileSystem.OthersStep` | src/fs.cc:400-413 | ... and changes no byte of any other file |
| `FileSystem.Clamp` | src/fs.cc:67-72 | The 32-bit end-of-file check keeps the read inside the file if and only if offset plus size does not wrap |
| `FileSystem.Refused` | src/fs.cc:391-396 | The 32-bit check of a write refuses exactly the ranges beyond the end or the largest size if and only if the sum does not wrap |
| `FileSystem.RangesWrap` | src/fs.cc:67-72 | A read and a write whose range wraps: neither check notices |
| `FileSystem.Volumes.ReadInode` | src/fs.cc:57-91 | Returns the slice of the flat contents, cut off at the end of the file, and changes nothing; -1 beyond the end |
| `FileSystem.Volumes.WriteInode` | src/fs.cc:381-421 | Replaces exactly the given range of the flat contents and grows the file; all other files keep their contents; refused, with nothing changed, if and only if the range starts beyond the end or passes the largest size |
| `FileSystem.Volumes.WriteBlocks` | src/fs.cc:398-413 | The loop writes the range block by block |
| `FileSystem.Volumes.AllocBlock` | src/fs.cc:101-127 | Takes the first free block, marks it and clears it; 0, with nothing changed, if and only if all are marked |
| `FileSystem.Volumes.FreeBlock` | src/fs.cc:129-144 | Clears the mark of this block and no other |
| `FileSystem.Volumes.BlockMap` | src/fs.cc:146-169 | The stored block, or one block more for this file with ownership exact if and only if enough blocks are free; otherwise all files are as they were and the answer is 0, or, when not even the indirect block can be had, the first word of block 0 |
| `FileSystem.BlocksOfExact` | algorithm/fs/fs.cc:444-465 | The blocks a file owns are exactly its direct addresses, the words of its indirect block and that block |
| `FileSystem.TruncateInv` | algorithm/fs/fs.cc:437-473 | Unmarking those blocks keeps ownership exact and all other files intact |
| `FileSystem.Volumes.Truncate` | algorithm/fs/fs.cc:437-473 | Clears exactly the marks of the blocks the file owned; the file is empty and every other file keeps its contents |
| `FileSystem.Volumes.FreeDirect` | algorithm/fs/fs.cc:444-449 | The loop over the direct addresses |
| `FileSystem.Volumes.FreeWords` | algorithm/fs/fs.cc:455-460 | The loop over the words of the indirect block |
| `Directory.EntryRoundTrip` | src/fs.cc:444-446 | An entry gives back its number and its name |
| `Directory.EntryForm` | src/fs.cc:444-446 | The sixteen bytes of an entry |
| `Directory.SlotAdded` | src/fs.cc:423-451 | Filling an empty slot with a new name adds exactly that binding and keeps names unique |
| `Directory.SlotCleared` | src/fs.cc:728-729 | Clearing a slot removes exactly its name |
| `Directory.OverwriteSlots` | src/fs.cc:448 | Writing an entry's bytes in place or at the end changes that slot and no other |
| `Directory.Lookup` | src/fs.cc:277-295 | Agrees with the map: found if and only if the name is bound, with its number and its entry |
| `Directory.FindEmpty` | src/fs.cc:433-442 | The first empty entry, or the end |
| `Directory.WriteEntry` | src/fs.cc:444-448 | One entry overwritten or appended in the file, or nothing past the largest file size |
| `Directory.InPlacePays` | src/fs.cc:728-729 | Overwriting an entry needs no free block |
| `Directory.TwoBlocksPay` | src/fs.cc:444-448 | Appending one needs at most two |
| `Directory.FullDirectory` | src/fs.cc:444-450 | A directory in good order with 4480 entries and no room |
| `Directory.Link` | src/fs.cc:423-451 | Refused if and only if the name is bound; otherwise the map gains exactly the binding if and only if there is room; other files are unchanged |
| `Directory.Unlink` | src/fs.cc:713-729 | On every disk, full or not: the map loses exactly the name, or -1 when it has none |
| `Semaphores.StepOk` | src/sem.cc:17-74 | Every locked section keeps: no double waiting, sleepers are waiters, a positive count means no waiters, tokens granted are those of returned calls and set flags |
| `Semaphores.StepOrder` | src/sem.cc:17-74 | Every section appends to the order of grants and waiters exactly the callers of down, and moves one token per up |
| `Semaphores.SemaphoreLaws` | src/sem.cc:17-74 | Over every run: initial count plus ups equals grants plus count; grants go to callers in calling order and the rest wait in that order, so nobody overtakes |
| `Semaphores.RecheckExact` | src/sem.cc:60-64 | A woken process passes if and only if it holds a token of its own, whatever woke it |
| `Semaphores.GrantedAwake` | src/sem.cc:67-74 | No lost wake-up: a process with a token that has not passed is not asleep |
| `Semaphores.Semaphore.DownEntry` | src/sem.cc:17-55 | The entry of down is its step; passes exactly when the log says so, else the caller is last in line and asleep |
| `Semaphores.Semaphore.UpEntry` | src/sem.cc:31-43 | up is its step |
| `Semaphores.Semaphore.DownRecheck` | src/sem.cc:60-64 | The re-check after schedule is its step; who does not pass sleeps again |
| `Pipes.Bounded` | src/pipe.cc:20-52 | A writer past its token finds a free cell, a reader past its token finds an unread byte, and it is the oldest |
| `Pipes.StoreRing` | src/pipe.cc:43-47 | Storing overwrites no unread byte |
| `Pipes.NextSound` | src/pipe.cc:20-52 | Every step of any reader or writer keeps the invariant |
| `Pipes.PipeLaws` | src/pipe.cc:20-52 | Over every run: tokens and operations in flight total 512, bytes read are the first bytes written, in commit order, and unread bytes are still in the ring |
| `Pipes.BytesInOrder` | src/pipe.cc:37-52 | Over every run: the bytes of the stream that a process stored are, in their order, the bytes it brought, all but one in flight |
| `Pipes.WriteCall` | src/pipe.cc:68-78 | Between two moments at which a process has no byte in flight, the stream gains from it exactly the bytes of its calls, in their order, whatever others do |
| `Pipes.ReadCall` | src/pipe.cc:54-66 | A process that is alone in taking gets a contiguous slice of the stream |
| `Pipes.NoStandstill` | src/pipe.cc:20-52 | If readers and writers both wait, some call in flight can take its next step |
| `Pipes.Pipe.BeginPut` | src/pipe.cc:40 | put_char up to its space token |
| `Pipes.Pipe.StoreByte` | src/pipe.cc:41-48 | The locked section of put_char commits the byte |
| `Pipes.Pipe.EndPut` | src/pipe.cc:49 | The item token of put_char |
| `Pipes.Pipe.BeginGet` | src/pipe.cc:23 | get_char up to its item token |
| `Pipes.Pipe.TakeByte` | src/pipe.cc:24-31 | The locked section of get_char returns the oldest unread byte |
| `Pipes.Pipe.EndGet` | src/pipe.cc:32 | The space token of get_char |
| `Scheduler.Selected` | src/cpu.cc:319-330 | An entry that passes both looks is runnable, belongs to no CPU and is not the scanning process: the panic is unreachable |
| `Scheduler.StepInv` | src/cpu.cc:300-354 | Every step of any CPU, process, waker or reaper, and every reuse of memory that nothing refers to, keeps the invariant |
| `Scheduler.OneCpu` | src/cpu.cc:300-354 | No process runs on, is chosen by, or is being left by two CPUs |
| `Scheduler.SchedulerSafe` | src/cpu.cc:300-354 | For any number of CPUs and any interleaving in which no memory is reused while the queue refers to it: one CPU per process, no process queued twice, no freed process on a CPU, every runnable process queued, on a CPU or about to be queued by its waker, no panic |
| `Reclaim.TidyIsClean` | src/process_mgr.cc:50-81 | It is enough for that that every process is off the queue when it is released |
| `Reclaim.GoneStep` | src/process_mgr.cc:50-81 | A freed process that is off the queue and off every CPU stays so through every step, whatever its memory or other memory is used for |
| `Reclaim.Haunted` | src/cpu.cc:308-345 | From every reachable state in which a freed process is queued, or about to be, some run makes a CPU choose it |
| `Reclaim.ReleasedForGood` | src/process_mgr.cc:50-81 | At its release no CPU names a zombie; none does in any continuation, whatever the freed memory comes to hold, if and only if the zombie is neither queued nor about to be |
| `Reclaim.ExitDecides` | src/process.cc:269-296 | That is already decided when the process exits |
| `Scheduler.ZombieQueue` | src/process_mgr.cc:83-93 | A dead process is on the queue, or on its way there, in every continuation if and only if it was when it exited |
| `Reclaim.FreedAndChosen` | src/process.cc:269-296 | A run from boot in which a process is freed while it is queued, its memory is reused, and a CPU chooses it |
| `Scheduler.OwnLife` | src/process.cc:269-296 | What a running process does to its own state changes no other |
| `Undisturbed.CommitForm` | src/cpu.cc:338-345 | The end of the locked section, field by field |
| `Scheduler.NoneBefore` | src/cpu.cc:318-330 | The scan passes over no ready entry |
| `Undisturbed.NextInLine` | src/cpu.cc:318-342 | One call of schedule brings a ready process onto the CPU or one place nearer to the front |
| `Undisturbed.Kernel.RunsInTurn` | src/cpu.cc:308-354 | A ready process at place k of the queue runs after at most k + 1 undisturbed calls of schedule on one CPU |
| `Undisturbed.Kernel.Schedule` | src/cpu.cc:308-354 | Undisturbed, the call is a run of the interleaved machine by this CPU; the CPU runs the first ready entry of the queue or its idle process, and the process it left is queued again if it can run |
| `Undisturbed.Kernel.PickNext` | src/cpu.cc:310-336 | The choice, as a run of the machine: the first ready entry, taken off the queue, or the idle process |
| `Undisturbed.Kernel.LeaveLock` | src/cpu.cc:338-345 | The end of the locked section is its step of the machine; a process left runnable and not queued goes behind all that are queued |
| `Undisturbed.Kernel.SwitchStacks` | src/cpu.cc:300-306 | The switch and schedule_tail are two steps of the machine |
| `Undisturbed.Kernel.WakeUp` | src/process_mgr.cc:83-131 | Two steps of the machine: the process is runnable and queued in front unless it is queued |
| `Cache.ReadsLastWrite` | back/ide.cc:29-65 | On the bare disk a read answers with the data last written to its sector |
| `Cache.TakeFree` | back/buf_cache.cc:59-71 | Using a free buffer keeps the pool partitioned and cached keys unique |
| `Cache.TakeOldest` | back/buf_cache.cc:63-71 | So does evicting the oldest buffer |
| `Cache.CachedDisk.constructor` | back/buf_cache.cc:11-22 | All buffers are free |
| `Cache.CachedDisk.Find` | back/buf_cache.cc:24-38 | The used buffer with the key, if there is one |
| `Cache.CachedDisk.Lookup` | back/buf_cache.cc:40-49 | A hit if and only if the sector is cached, with what the disk holds |
| `Cache.CachedDisk.Insert` | back/buf_cache.cc:51-72 | First in, first out, with the partition, unique keys and coherence kept |
| `Cache.CachedDisk.Update` | back/buf_cache.cc:74-81 | A cached copy follows the disk |
| `Cache.CachedDisk.Serve` | back/ide.cc:29-65 | One request through the cache is one request on the bare disk; the disk is accessed if and only if it is a write or the sector is not cached; a sector read is cached afterwards |
| `Cache.CachedDisk.ServeAll` | back/ide.cc:29-65 | Over every sequence of requests the answers and the disk are those of the bare disk |
| `Checksum.FoldLaws` | src/net.cc:238-240 | Folding keeps the residue modulo 65535, and only zero folds to zero |
| `Checksum.Accumulate` | src/net.cc:226-236 | The sum of the words and the odd byte, modulo 2^32 |
| `Checksum.CheckSum` | src/net.cc:224-243 | The complement of the folded 32-bit sum |
| `Checksum.CheckSumExact` | src/net.cc:224-243 | The code computes the checksum of RFC 1071 if and only if the plain sum fits 32 bits, which 131074 bytes guarantee |
| `Checksum.TooLong` | src/net.cc:226-236 | A buffer of 131075 bytes that is summed wrong |
| `Checksum.FilledChecks` | src/udp.cc:62-63 | A zeroed aligned field that receives the checksum makes the buffer check to zero |
| `Checksum.ZeroExact` | src/udp.cc:89-95 | A buffer checks to zero if and only if its sum is a positive multiple of 65535 |
| `Checksum.OneByteDetected` | src/udp.cc:89-95 | One changed byte is always noticed |
| `NetBuffer.NetBuf.Append` | src/net_buf.cc:24-35 | Appends everything, or nothing when there is not room |
| `NetBuffer.RoomForm` | src/net_buf.h:11-13 | 240 bytes up to that length, 2048 above |
| `Ethernet.Transmit` | src/ethernet.cc:25-57 | The frame is the header and the data, padded with zeros to 46 bytes; none for the own address or when it exceeds 2048 bytes |
| `Ethernet.Receive` | src/ethernet.cc:59-75 | The protocol number and everything behind the header, padding included |
| `Ethernet.FrameReads` | src/ethernet.cc:25-75 | The fields of a frame at their places, and the padded data |
| `Ip.Transmit` | src/ip.cc:70-107 | The packet is a header that checks to zero and the data; none to a broadcast address, to the own address, or above 2048 bytes |
| `Ip.Receive` | src/ip.cc:124-155 | Lets everything behind a header through if and only if the header checks to zero |
| `Ip.BroadcastExact` | src/ip.cc:36-48 | Which addresses count as broadcast, by their four bytes |
| `Ip.PacketReads` | src/ip.cc:70-155 | Every field of a packet at its place in the header, and that it passes at the receiver |
| `Udp.Transmit` | src/udp.cc:37-69 | Refused if and only if the 16-bit length asks for more than 2048 bytes; the datagram carries the payload if and only if it fits |
| `Udp.Receive` | src/udp.cc:71-100 | Lets a datagram through if and only if it fits a buffer and, as far as its length field says, checks to zero with the pseudo header; then gives the ports and all that follows the header |
| `Udp.DatagramChecks` | src/udp.cc:37-100 | What transmit builds checks to zero at the receiver and says its ports, length and payload |
| `Udp.PseudoFields` | src/udp.cc:13-20 | The fields of the pseudo header at their places |
| `Udp.TooLarge` | src/udp.cc:82-85 | No datagram above 2036 bytes is accepted |
| `Udp.ArrivedForm` | src/ethernet.cc:27-46 | What arrives of a short payload, byte by byte |
| `Udp.PaddedAccepted` | src/udp.cc:71-100 | A datagram with padding behind it still checks, and gives its ports and the padded payload |
| `Udp.FramedReads` | src/ip.cc:124-155 | The fields of the three headers at their places in the frame, and what the receiver takes for the datagram |
| `Udp.Send` | src/udp.cc:37-69 | Through three layers: the frame around the datagram if and only if the destination can be reached and the payload has at most 2006 bytes; a payload whose length wraps leaves at most a bare header |
| `Udp.Deliver` | src/ethernet.cc:59-75 | Through three layers: accepted exactly as the fields and the two checksums say, with everything behind the headers |
| `Udp.SendAndReceive` | src/udp.cc:37-100 | Between hosts that reach each other a payload arrives with its ports as it was sent if and only if it has 18 to 2006 bytes; a shorter one arrives padded with zeros to 18, a longer one does not arrive |
| `Udp.OneByte` | src/ethernet.cc:27-46 | One byte sent, eighteen received |
| `Udp.LostWithoutNotice` | src/ethernet.cc:36-56 | 2010 bytes: a datagram is built and no frame leaves |
| `Udp.LengthWraps` | src/udp.cc:39-60 | 65528 bytes: a bare header is handed to IP |
| `Udp.DamageDetected` | src/udp.cc:71-100 | One changed byte, the length field apart, is noticed if and only if the check covers it |
| `Dns.ParseName` | src/dns.cc:11-39 | Refused if and only if a label has more than 63 bytes; otherwise the wire form is written if and only if there is room for it |
| `Dns.ResolveName` | src/dns.cc:81-108 | Gives the text and the length of the name as `Decode` reads it, following pointers that lead strictly backward and not to the root; it ends |
| `Dns.Target` | src/dns.cc:93 | A pointer leads to the 14 low bits of its two bytes |
| `Dns.DecodeLabels` | src/dns.cc:81-108 | What is read is the dotted text of the expanded labels, up to the zero byte or the first pointer (sections 3.1 and 4.1.4 of RFC 1035), for exactly the names made of labels and then a zero byte or a backward pointer |
| `Dns.WireForm` | src/dns.cc:11-39 | "a.bc" on the wire, byte by byte |
| `Dns.PointerForm` | src/dns.cc:81-108 | A pointer and a name that ends in one, byte by byte |
| `Dns.LabelLimit` | src/dns.cc:21-23 | A label may have 63 bytes and not 64 |
| `Dns.SpeltReads` | src/dns.cc:11-108 | A valid name on the wire is well formed and is read as itself |
| `Dns.ComesBack` | src/dns.cc:11-108 | A non-empty name comes back from the wire if and only if it is valid |
| `Dns.TrailingDot` | src/dns.cc:11-39 | "a." comes back as "a" |
| `Dns.EmptyLabel` | src/dns.cc:11-39 | "a..b" comes back as "a" |
| `Dns.ThereAndBack` | src/dns.cc:11-108 | resolve_name inverts parse_name on valid names, wherever they are written |

## Left out

- `do_munmap` in the copy-on-write machine: it lowers frame counts and leaves the page-table entries in place (src/vm.cc:317-318, src/vm.cc:450-461), so counts no longer equal entries; its effect on the area list is modelled.
- Allocation failures inside fork and page faults: the code does not test for them in `do_page_fault` and `do_protection_fault`; `Memory` demands a free frame there, and fork is modelled with its table frames at hand.
- `Memory` keeps the user entries of all processes in one flat map; that two-level tables refine a flat map is `PageTable`.
- The copy-on-write machine has single frames only; blocks of more pages and their counts are in `Frames`. TLB and cr3 reloads are taken to be immediate.
- FreePages: in `FreeArea`, the part of `free_pages` after the count has reached 0; with the counts it is `PageCounts.FreePages`.
- Expand: the splitting; the raising of the page counts behind it is `PageCounts.CountUp`.
- Fork: leaves out the returns when a table or an area object cannot be had; what was shared until then stays shared.
- PageFault: demands a free frame; the code does not test for the lack of one.
- ProtectionFault: demands a free frame, likewise.
- CopyOnWrite: demands a free frame, likewise.
- MapPages: demands frames for the missing tables; the code does not test for the lack of one.
- ReadInode: demands that offset plus size does not wrap; what the check then lets through is `Clamp`, and the loop goes on to blocks behind the end of the file.
- WriteInode: demands the free blocks that the range needs and that offset plus size does not wrap. Without the blocks `block_map` answers with block 0 (see `BlockMap`), which the code overwrites, after which a word of block 0 may stand for any block.
- Link: names have at most 13 bytes, and the blocks for a new entry at the end are free; the code cuts longer names to 14 bytes without a terminator.
- Unlink: the entry removal only; link counts, the test for empty directories and `.` and `..` are not modelled.
- Inode locks and reference counts, path walking, device inodes, the block device cache under the file system: the files stand on a plain array of blocks.
- WakeUp: the process is neither a zombie nor freed; the code does not test that.
- Interrupts between the unlock in `schedule` and the switch: processes are only rescheduled on the way to user mode.
- What a CPU does once it has chosen a freed process: its stack and page directory hold whatever the memory holds.
- Pipe behaviour after `close`, and wrap-around of a semaphore count at 2^32.
- The wait loops of the disk driver and its request queue: requests are served one at a time.
- Receive: in `Udp`, a datagram has at least its header, as every padded frame gives it; in `Ethernet`, a frame is not shorter than the card delivers. In `Ip`, raw sockets and other protocols are not modelled.
- Transmit: in `Udp`, `Ip` and `Ethernet`, the buffer lists are not exhausted and the hardware address of the next hop is known; packets that wait for address resolution, and the largest frame the card and the wire carry, are not modelled.
- ResolveName: demands that the name stays inside the message and that labels hold no zero byte; the code checks neither.
- TCP, ARP, ICMP, sockets, signals, ELF loading, console, timers and drivers: glue or hardware, or no invariant of this kind.
