# A verified model of the R5O5 kernel's storage and memory core

R5O5 is a small RISC-V kernel. This project models the parts of it in which the
hard reasoning lies, in Dafny, and proves what they do: page tables that live in
the pages the page allocator hands out, a buffer cache over a block disk, byte
transfers on top of both, the ELF reader, the program loader, the virtio disk
driver, the log, the round-robin selector, the console editor, and the tool that
lays programs out on the disk image.

`dafny verify dfyconfig.toml` checks everything.

## How the model is built

- **Halting.** The kernel's `error()` never returns. An operation that reaches
  it returns `Halt` with the call site (`Halting.dfy`); its caller stops too. A
  contract says exactly when that happens.
- **Words.** A 64-bit word is a number below 2^64, and the bitwise operators are
  defined on binary digits (`Bits.dfy`), so that the kernel's masks and shifts are
  modelled as written and proved to be fields (`Sv39.dfy`).
- **Memory.** Physical memory is one array of 256000 words, 512 for each of the
  500 pages of the pool (`PhysMem.dfy`), with a byte view. `LinksOf` decodes every
  word that looks like a valid entry. A page number and a word index stand for an
  address.
- **Roles.** A ghost map gives every page of the pool one role: free, held (popped
  and stored nowhere), root, middle or last directory, or data. A directory or data
  page knows the one entry that refers to it. `PageTree.TreeInv` says that roles and
  links agree; isolation of address spaces follows from it.
- **Cache.** `CacheSpec.dfy` is the cache as a value: slots in list order and the
  disk. `BufferCache.dfy` is the same cache as linked buffers on the heap, each
  method proved equal to its function. `DiskBytes.dfy` sees the disk as 1024000
  bytes laid end to end.
- **Files.** `Elf.dfy` is the reader as it runs; `ElfLayout.dfy` says in disk bytes,
  with the layout written out, what it accepts and returns. `LoadedProgram.dfy` carries
  that on to the address space.
- **Machine.** `VirtioQueue.dfy` and `VirtioDriver.dfy` are the driver's memory and
  its methods. `VirtioSystem.dfy` adds the device and the interrupt handler as steps,
  `VirtioRuns.dfy` states what holds in every state of a run, and `VirtioHistory.dfy`
  what becomes of each request.
- **Sealed predicates.** `Seal.dfy` explains the recursive wrappers (`SaneAt`,
  `IdleAt`, `LoadingAt`, ...): the verifier carries such a predicate through a loop
  as one fact; an `Open...` or `...Means` lemma says what it means.
- A `hide` statement at the start of a proof names the definitions that it does
  without.
- Loop bodies of the longer loops are methods of their own (`...Round`, `...Next`),
  and take ghost parameters that say where the loop stands.

New middle and last directories are used without clearing (kernel/paging.c:175, 188),
so a word left in them by an earlier use is taken for an entry. The operations that
make directories therefore require (`BlankNext`, `CleanFor`) that those pages, which
the stack fixes beforehand, hold no word with the valid bit set; what other free
pages hold does not matter. A pool with no such word at all (`CleanPool`) is enough:
it holds after boot if RAM is clean, the paging operations keep it
(`PoolStaysClean`), and `Paging.FreedClean` says exactly when taking a table apart
keeps it.

## What the code does, against its comments

- `mapVirtualPage` does not use `physicalPageNum`; it pops a page itself. The page
  popped by `allocateVirtualPage` (kernel/paging.c:227) is lost until reboot: each
  mapped page costs two.
- The comment at kernel/createProcess.c:9 calls the end block an offset into
  itself; the code takes a block and an inclusive offset.
- `elfReader` advances `cnt` twice for each LOAD header, so the 30 nodes never hold
  more than 15 segments.
- Between a segment's file size and memory size nothing is zeroed; the bytes are
  what the physical page last held.
- The comment at kernel/console.c:12 promises control-p; there is no such key.
- Nothing advances `cons.r`, so the console goes deaf after 128 committed bytes.
- `storeProgram` starts a program on the last byte of the one before it, so that not
  every program on the image reads back (`ImageBuilder.ReadsBackIff` says which do).

## Model

| member | source | states |
|---|---|---|
| Sv39.OffsetField | kernel/paging.c:38-40 | the mask takes the address modulo 4096 |
| Sv39.VirtPageField | kernel/paging.c:43-45 | the mask and shift take the 27 index bits, address / 4096 modulo 2^27 |
| Sv39.PhyPageField | kernel/paging.c:48-50 | the mask and shift take the 44-bit page number |
| Sv39.L2Field | kernel/paging.c:53-55 | the root index is bits 30 to 38 |
| Sv39.L1Field | kernel/paging.c:58-60 | the middle index is bits 21 to 29 |
| Sv39.L0Field | kernel/paging.c:63-65 | the last index is bits 12 to 20 |
| Sv39.FlagsField | kernel/paging.c:68-70 | the flags are the ten low bits, and an entry is valid iff it is odd |
| Sv39.PageNumField | kernel/paging.c:73-75 | the page number is bits 10 to 53 |
| Sv39.SetFlagsKeeps | kernel/paging.c:86-102 | adding permissions changes neither page number nor validity |
| Sv39.SetFlagsBits | kernel/paging.c:86-102 | bit by bit: sets the permissions asked for, changes no other bit |
| Sv39.NewEntryFlags | kernel/paging.c:204-211 | the flags of a stored entry are valid, the permissions asked for, and nothing else |
| Sv39.ValidBitCleared | kernel/paging.c:120-121 | the mask takes the valid bit away and no other |
| Bits.OrBits | kernel/paging.c:94-99 | the modelled disjunction is the bitwise one |
| Bits.AndBits | kernel/paging.c:38-75 | the modelled conjunction is the bitwise one |
| Sv39.SetPageNumRoundTrip | kernel/paging.c:108-110 | a stored page number reads back, cut to 44 bits, with the flags as they were |
| Sv39.NewEntryRoundTrip | kernel/paging.c:174-181 | an entry made for a page is valid and names that page |
| Sv39.PhysicalAddressRoundTrip | kernel/paging.c:258-263 | a physical address splits back into page and offset |
| Sv39.ShiftedPageIndices | kernel/paging.c:137-152 | walking `virtualPageNum << 12` follows the 27 low bits of the page number, whatever the shift loses |
| Sv39.PathDetermines | kernel/paging.c:7-20 | two page numbers have the same three indices iff they agree modulo 2^27 |
| PhysMem.PutByteGet | kernel/buffer.c:176-179 | a byte stored in memory changes that byte and no other |
| PhysMem.WordIsBytes | kernel/buffer.c:176-179 | a word is the little-endian number of the eight bytes at its address |
| PhysMem.PutLink | kernel/paging.c:178-180 | storing a valid entry adds or redirects exactly one link |
| PageAllocator.PagePool.constructor | kernel/memoryAllocator.c:31-37 | all 500 pages are on the stack, in order |
| PageAllocator.PagePool.AllocatePage | kernel/memoryAllocator.c:42-53 | pops the top, or fails exactly when the stack is empty |
| PageAllocator.PagePool.AllocatePages | kernel/memoryAllocator.c:59-70 | pops n in order, or fails without a change exactly when n is 0 or more than there are |
| PageAllocator.PagePool.FreePage | kernel/memoryAllocator.c:74-82 | pushes on top, or fails exactly when the stack is full |
| PageAllocator.PagePool.FreePages | kernel/memoryAllocator.c:85-91 | pushes in turn; on overflow it stops after exactly those that fit |
| PageTree.WalkInjective | kernel/paging.c:143-157 | no physical page is reached along two paths, of one table or of two |
| PageTree.TranslateInjective | kernel/paging.c:240-264 | the same for virtual page numbers, modulo 2^27 |
| PageTree.WalkRoles | kernel/paging.c:143-157 | a walk passes one directory of each level and ends on a data page, never on a directory |
| PageTree.LinkKeepsTreeIff | kernel/paging.c:174-197 | a page can become a directory without clearing exactly when it holds no word that looks valid |
| PageTree.AddsPageSpace | kernel/paging.c:217-236 | as maps: the table gains exactly one key, every other table stays the same |
| PageTree.RootKeepsTree | kernel/paging.c:115-131 | a cleared page becomes an empty table, other tables translate as before |
| Paging.PagesPartition | kernel/memoryAllocator.c:31-82 | free stack, held pages and pages of live tables add up to 500, always |
| TableOrder.TableOfIs | kernel/paging.c:163-236 | every directory and data page is in one live table and in no other |
| Paging.PageTables.constructor | kernel/memoryAllocator.c:31-37 | boot: every page free, whatever RAM holds; clean iff no word looks valid |
| Paging.PageTables.IsVirtualPageAllocated | kernel/paging.c:133-158 | answers whether the walk reaches a page |
| Paging.PageTables.AllocatePageDirectory | kernel/paging.c:115-124 | pops a page and clears the valid bit, and only that, of each of its words; no other word changes |
| Paging.PageTables.AllocatePageTable | kernel/paging.c:128-131 | an empty table, whatever the page held; every other table translates as before |
| Paging.PageTables.EnsureDirectory | kernel/paging.c:174-184 | makes a directory only where the entry is invalid, out of a page that must be blank because it is not cleared; no translation changes |
| Paging.PageTables.MapVirtualPage | kernel/paging.c:163-213 | adds the one translation, to the page popped last, with the entry and permissions asked for, taking one page and the missing directories, which alone must be blank; a mapped page stays as it is |
| Paging.PageTables.AllocateVirtualPage | kernel/paging.c:217-236 | on an unmapped page adds exactly that translation for exactly (missing directories + 2) pages, the first of them held and only the directories required to be blank; fails as "already given" iff mapped, for want of pages iff the pool is smaller |
| Paging.EntryKept | kernel/paging.c:163-236 | those operations rewrite no valid entry: a mapped path keeps its entry, flags included |
| Paging.PageTables.VirtualToPhysical | kernel/paging.c:240-264 | page and offset of the address, or an error exactly when it is not mapped |
| TableOrder.PostOrderOnce | kernel/paging.c:266-311 | the order of freeing lists every page of the table once and no other page |
| TableOrder.ChildrenFirst | kernel/paging.c:266-311 | every page of the table is freed before the directory that refers to it |
| TableOrder.EntriesAscend | kernel/paging.c:275-306 | entries are followed in ascending order: all that hangs below one is freed before anything below a later one of the same directory |
| Paging.PageTables.FreeChild | kernel/paging.c:281-286 | frees a page and clears the entry of a directory that is not yet on the free stack |
| Paging.PageTables.DeallocatePageTable | kernel/paging.c:266-311 | pushes exactly the table's pages in that order, never fails, empties every freed directory, leaves other tables and all other words alone |
| Paging.FreedClean | kernel/paging.c:266-311 | the pool stays clean exactly when it was and no data page of the table holds a word that looks valid |
| Paging.OddByteDirties | kernel/paging.c:266-311 | it does not stay clean if the table maps a multiple of 8 that holds an odd byte |
| Paging.DirtyExample | kernel/paging.c:266-311 | a table with one data page holding the word 1: the pool is clean before it is freed and not after |
| Paging.PageTables.PoolStaysClean | kernel/paging.c:163-236 | what the mapping operations write leaves the words of every page that is still free alone |
| VirtualMemory.StoreIsolated | kernel/buffer.c:176-179 | a store through one address is read back there, and at no other address of any table |
| VirtualMemory.SameAddress | kernel/paging.c:43-65 | addresses name the same byte iff they agree on 39 bits |
| CacheSpec.LiveCopy | kernel/buffer.c:23-43 | a valid buffer is the one bget finds for its block: there is one live copy, though two buffers may carry number 0 |
| CacheSpec.UnusedInv | kernel/buffer.c:9-20 | thirty zeroed buffers satisfy the cache invariant although all say block 0 |
| CacheSpec.BReadInv | kernel/buffer.c:47-56 | bread keeps the invariant: no stale twin, unused buffers behind, unreferenced copies equal to the disk |
| CacheSpec.BReadView | kernel/buffer.c:47-56 | bread changes what no reader sees, and delivers the block |
| CacheSpec.BReadFails | kernel/buffer.c:33-42 | bread fails iff no buffer carries the block and none is unreferenced |
| CacheSpec.BWriteView | kernel/buffer.c:59-61 | bwrite changes what no reader sees and puts the block on the disk |
| CacheSpec.BRelseInv | kernel/buffer.c:64-74 | brelse keeps the invariant when the last holder's data is on the disk |
| CacheSpec.BRelseView | kernel/buffer.c:64-74 | brelse changes what no reader sees |
| BufferCache.Binit | kernel/buffer.c:9-20 | one circular list through the head and all buffers, last buffer first |
| BufferCache.InsertFront | kernel/buffer.c:69-72 | inserting behind the head keeps the ring, prev inverting next |
| BufferCache.Unlink | kernel/buffer.c:67-68 | unlinking keeps the ring of the others |
| BufferCache.BufferPool.constructor | kernel/buffer.c:9-20 | the ring of zeroed buffers is the boot state of the cache |
| BufferCache.BufferPool.FindBuffer | kernel/buffer.c:26-31 | the scan forward visits the list in order, ends, and finds the first buffer with the number |
| BufferCache.BufferPool.FindUnused | kernel/buffer.c:33-40 | the scan backward ends and finds the last unreferenced buffer |
| BufferCache.BufferPool.BGet | kernel/buffer.c:23-43 | on the heap what CacheSpec.BGet says, or an error exactly when it has no answer |
| BufferCache.BufferPool.BRead | kernel/buffer.c:47-56 | on the heap what CacheSpec.BRead says |
| BufferCache.BufferPool.BWrite | kernel/buffer.c:59-61 | on the heap what CacheSpec.BWrite says |
| BufferCache.BufferPool.BRelse | kernel/buffer.c:64-74 | on the heap what CacheSpec.BRelse says; the last release is exactly a move to the front |
| Lru.MissesExactly | kernel/buffer.c:23-74 | over any run, a read goes to the disk iff the block is not among the NBUF most recently accessed distinct blocks |
| Lru.MoreBuffersNeverHurt | kernel/buffer.c:23-74 | a larger cache never misses where a smaller one hits |
| Lru.RunHolds | kernel/buffer.c:23-74 | the buffers hold the most recent blocks in order of recency |
| DiskBytes.ReadBytes | kernel/buffer.c:78-109 | delivers the addressed bytes and leaves the cache as found but for list order; fails with the size error exactly when a byte, or the first block, is past the end |
| DiskBytes.WriteBytes | kernel/buffer.c:113-146 | the disk is as before with exactly those bytes over it; a run past the end has written exactly what fits |
| DiskBytes.WriteThenRead | kernel/buffer.c:78-146 | what was written is what is read back |
| DiskBytes.WriteThenReadElsewhere | kernel/buffer.c:78-146 | every other range reads as before |
| DiskBytes.WrittenOnDevice | kernel/buffer.c:128-146 | write-through: with nothing dirty before, the device holds the bytes |
| DiskBytes.CleanFlat | kernel/buffer.c:59-61 | with nothing dirty, what readers see is what the device holds |
| VirtualIO.ReadBytesVirtual | kernel/buffer.c:151-187 | succeeds iff the bytes are on the disk and every address is mapped; then exactly those addresses of that table hold them |
| VirtualIO.FilledNext | kernel/buffer.c:176-183 | one more byte in place, no other byte of any table, no word outside data pages |
| VirtualIO.WriteBytesVirtual | kernel/buffer.c:192-229 | succeeds iff the bytes fit and every address is mapped; then the disk holds the table's bytes; a run that stops has written those that fit, or those before the first address that is not mapped |
| Elf.AtMostFifteen | kernel/elfReader.c:42-76 | no accepted file has more than 15 segments, for all the 30 nodes |
| Elf.LoadsValid | kernel/elfReader.c:60-66 | every segment returned has memsz >= filesz, an aligned address and no wrap |
| Elf.Renormalised | kernel/elfReader.c:48-58 | moving whole blocks from the offset to the block number keeps the byte position, with C's truncating division and 64-bit wrap |
| Elf.AllocateELFReader | kernel/elfReader.c:86-115 | appends a node; the list stays doubly linked through distinct nodes of increasing index |
| Elf.ElfReader | kernel/elfReader.c:13-83 | the list holds exactly `Result`, in order, unless the run meets `ReaderStops`; with a spare buffer it halts exactly then. ElfLayout.ResultIs and ReaderStopsIs say in disk bytes what both are |
| ElfLayout.FileFields | kernel/declarations.h:339-355 | the fields of the file header, by their byte offsets on the disk |
| ElfLayout.ProgramFields | kernel/declarations.h:358-367 | the fields of a program header, by their byte offsets on the disk |
| ElfLayout.PlaceUnique | kernel/elfReader.c:28-43 | the first offset is the one int that equals start offset + phoff modulo 2^32 |
| ElfLayout.PlaceExact | kernel/elfReader.c:28-43 | below 2^31 that is the sum itself |
| ElfLayout.HeaderRead | kernel/elfReader.c:40-58 | header j is the 56 disk bytes from startBlock * 1024 + that offset + 56 * j on, and readable iff they are on the disk |
| ElfLayout.ResultIs | kernel/elfReader.c:24-83 | for every file: the LOAD headers in file order with the fields they have on the disk, iff there is a file header with the magic number and every header is within the end given, on the disk and, if LOAD, passes the three checks and finds a node; otherwise nothing |
| ElfLayout.ReaderStopsIs | kernel/elfReader.c:24-58 | the reader stops for good iff the file header, or a program header it wants after only good ones, cannot be read |
| PageBudget.PagesCount | kernel/createProcess.c:48-59 | n addresses from a page boundary touch as many pages as hold n bytes |
| PageBudget.TightMissing | kernel/paging.c:174-195 | the directories a new page needs are exactly what it adds to the cost |
| PageBudget.RolesDetermine | kernel/paging.c:143-157 | the roles of the pages fix every link of every directory |
| ProgramImage.OutsideImage | kernel/createProcess.c:66-73 | no byte is loaded outside the segments' pages |
| ProgramImage.LoadPage | kernel/createProcess.c:51-58 | a page more in the table, other tables and free pages as at the start, the cost paid exactly |
| ProgramImage.LoadBytes | kernel/createProcess.c:66-73 | a segment's bytes over the earlier ones, all else as it was |
| Loader.CleanPoolIsEnough | kernel/createProcess.c:48-86 | of the words in free pages a load needs only that the pages it makes directories of hold none that looks valid; a clean pool has that |
| Loader.AddPage | kernel/createProcess.c:52-58 | mapping in a load fails as "already given" iff mapped, for want of pages iff the cost so far exceeds the pool |
| Loader.IndexInRange | kernel/createProcess.c:48 | the loop's int index stays below 250 pages' worth of bytes, so it never overflows |
| Loader.MapSegment | kernel/createProcess.c:48-59 | every address of the segment gets a page, or the cost exceeds the pool |
| Loader.FillSegment | kernel/createProcess.c:61-73 | the segment's bytes are put in place, or they are not on the disk; LoadedProgram.FileStartIs and FileInRangeIs say where and when |
| Loader.LoadSegments | kernel/createProcess.c:38-81 | all segments in order, and the first page above them |
| Loader.AllocateStack | kernel/createProcess.c:85-86 | two stack pages, or the exact reason why not |
| Loader.ProgramLoader | kernel/createProcess.c:16-92 | False iff the file is no program; True iff files, stack and page budget fit; the state then is described in full |
| Loader.FindFreeSlot | kernel/createProcess.c:106-109 | the first slot that is not taken |
| Loader.CreateProcess | kernel/createProcess.c:99-128 | the loaded program becomes READY with time 100000 in the first free slot, no other slot or save area changes; success and each error exactly |
| LoadedProgram.LoadedIsComplete | kernel/createProcess.c:83-91 | what the loader leaves when it returns True is what the statements below are about |
| LoadedProgram.FileStartIs | kernel/createProcess.c:41-64 | a segment's bytes start at startBlock * 1024 + (startOff + off) modulo 2^64, without wrap at byte `off` of the file |
| LoadedProgram.FileInRangeIs | kernel/createProcess.c:61-73 | they are on the disk iff the last of them is below 1024000; an empty part needs its first block only |
| LoadedProgram.SegmentsLoaded | kernel/createProcess.c:38-91 | in disjoint segments below the stack, byte i of each reads through the table as disk byte startBlock * 1024 + (startOff + off) modulo 2^64 + i |
| LoadedProgram.SegmentBytes | kernel/createProcess.c:38-91 | without wrap, as disk byte startBlock * 1024 + startOff + off + i |
| LoadedProgram.ProgramLoaded | kernel/createProcess.c:16-92 | from the file on the disk to the address space: each byte of each LOAD header's file part is at the address the header gives it, every number read from the disk |
| LoadedProgram.EntryPoint | kernel/createProcess.c:31-32 | the process starts at the address in bytes 24 to 31 of the file |
| LoadedProgram.HoldsFileByte | kernel/createProcess.c:66-73 | with overlaps, an address holds the disk byte of the last segment over it |
| LoadedProgram.HoldsOldByte | kernel/createProcess.c:42-73 | an address with no file byte holds what its physical page held before |
| LoadedProgram.MapsItsPages | kernel/createProcess.c:48-86 | the table maps the program's pages and no others |
| LoadedProgram.MappedIs | kernel/createProcess.c:48-86 | an address is mapped iff its page holds a byte of a segment or it is one of the 8192 below sp |
| LoadedProgram.AccessIs | kernel/createProcess.c:52-58 | the entry of every mapped page is valid with read, write and execute, and has no other flag |
| LoadedProgram.SegmentsMapped | kernel/createProcess.c:48-59 | all memsz bytes of every segment are mapped |
| LoadedProgram.StackMapped | kernel/createProcess.c:83-89 | the two pages below sp are mapped |
| LoadedProgram.StackAbove | kernel/createProcess.c:75-89 | with room below 2^39 the stack lies above every segment, is never "already given", and sp is one past its top |
| LoadedProgram.StackLeast | kernel/createProcess.c:75-81 | the stack begins on the least page that is above every segment |
| LoadedProgram.StackPointer | kernel/createProcess.c:75-89 | sp is two pages above the first page boundary that no segment exceeds |
| LoadedProgram.OthersUntouched | kernel/createProcess.c:16-92 | every other address space reads as before |
| LoadedProgram.PagesTaken | kernel/createProcess.c:28-86 | a load takes exactly 1 + roots' entries + index pairs + 2 for each virtual page |
| LoadedProgram.OnlyPagesCanBeMissing | kernel/createProcess.c:28-86 | a well-placed program on the disk is loaded iff that cost is at most the free pages, and fails only with "No Free Page" |
| Log.LogArea.LogDataInit | kernel/debug.c:5-8 | an empty log at byte 0 of block 900 |
| Log.LogArea.LogData | kernel/debug.c:14-34 | appends the string to everything logged before; fails iff the disk's end is passed, after writing what fits |
| Log.LogIsOnDisk | kernel/debug.c:14-34 | the log area is the concatenation of all strings, every other byte is as at the start |
| Log.LogKept | kernel/debug.c:14-34 | reading the disk between calls leaves the log as it is |
| VirtioQueue.FreeChainEnds | kernel/disk.c:82-90 | on any link graph free_chain frees at most NUM descriptors, each of which was in use |
| VirtioQueue.FreeThree | kernel/disk.c:82-90 | on the chain of diskRW it frees exactly those three and changes nothing else |
| VirtioQueue.RequestIs | kernel/disk.c:123-150 | a device that takes type 0 for a read and 1 for a write finds in the chain the request that was made: direction, sector, buffer, status byte |
| VirtioQueue.SubmitAsks | kernel/disk.c:107-156 | the three descriptors, info and ring entry of a transfer as numbers; nothing else changes |
| VirtioQueue.FinishIs | kernel/disk.c:164-165 | after the wait the three descriptors are free, the info is cleared, nothing else changes |
| VirtioQueue.PendingDrops | kernel/disk.c:170-179 | each round of diskIntr brings the indices nearer, so it ends for any ring contents |
| VirtioDriver.Disk.constructor | kernel/disk.c:53-60 | zeroed rings and all descriptors free |
| VirtioDriver.Disk.AllocDesc | kernel/disk.c:63-71 | the lowest free descriptor, or -1 exactly when there is none |
| VirtioDriver.Disk.FreeDesc | kernel/disk.c:73-80 | frees one descriptor, with both errors |
| VirtioDriver.Disk.FreeChain | kernel/disk.c:82-90 | what the specification function says, errors included |
| VirtioDriver.Disk.Alloc3Desc | kernel/disk.c:92-102 | the three lowest free descriptors iff there are three; otherwise the queue is unchanged |
| VirtioDriver.Disk.Request | kernel/disk.c:107-156 | with three free descriptors it takes the lowest and leaves exactly the request of SubmitAsks; otherwise nothing changes |
| VirtioDriver.Disk.Finish | kernel/disk.c:164-165 | on the arrays what the specification function says, errors included |
| VirtioDriver.Disk.DiskIntr | kernel/disk.c:169-180 | what the specification function says, errors included |
| VirtioSystem.AtMostTwo | kernel/disk.c:110-115 | eight descriptors never make three requests in flight |
| VirtioSystem.PendingIsExact | kernel/disk.c:170 | comparing indices modulo 8 counts exactly the unhandled completions, through the wrap at 2^16 |
| VirtioSystem.SubmitInv | kernel/disk.c:107-158 | making a request keeps the invariant and overwrites no waiting ring entry |
| VirtioSystem.TakeInv | kernel/disk.c:155-158 | a device taking the next available chain keeps the invariant |
| VirtioSystem.CompleteInv | kernel/disk.c:169-180 | a completion, in any order, keeps the invariant and overwrites no waiting used entry |
| VirtioSystem.CompleteMoves | kernel/disk.c:107-158 | a completed request has moved exactly its block, in its direction |
| VirtioSystem.HandleHead | kernel/disk.c:171-176 | the handler looks at the oldest completion and finds its buffer, never null |
| VirtioSystem.InterruptHandles | kernel/disk.c:169-180 | one interrupt handles every waiting completion once, in order, and fails iff the device reported an error for one |
| VirtioSystem.InterruptIsDiskIntr | kernel/disk.c:169-180 | the step of the system is the driver's diskIntr |
| VirtioSystem.FinishInv | kernel/disk.c:164-165 | after the wait the chain is as built, freeing it reaches no error, the invariant stays |
| VirtioRuns.StepKeeps | kernel/disk.c:107-180 | the only step that can fail is the handler, and only on a bad status |
| VirtioRuns.RunSafe | kernel/disk.c:107-180 | in every state of every run: at most two waiting, exact detection, nothing completed twice, buffers non-null |
| VirtioRuns.IdleCounts | kernel/disk.c:107-180 | with nothing in flight, exactly the requests made are in the log of completions, once each, and all descriptors are free |
| VirtioHistory.StepStatus | kernel/disk.c:171-176 | the status of a completion stays as the device left it until the handler sees it, and the handler goes on only from 0 |
| VirtioHistory.NotTwice | kernel/disk.c:107-180 | no request of a run is completed by two events |
| VirtioHistory.HandledOnce | kernel/disk.c:169-180 | for each completion the handler has seen there is one submission and exactly one completion of it, with status 0, which moved the block asked for |
| VirtioHistory.FinishedOnce | kernel/disk.c:160-165 | when diskRW goes on, exactly one event completes its request: an earlier one, with status 0, that moved its block; the buffer is the driver's again |
| VirtioHistory.NothingLost | kernel/disk.c:107-180 | with nothing in flight, each request made so far was completed by exactly one event, with status 0, that moved its block |
| VirtioRuns.OneRequest | kernel/disk.c:107-166 | a request from start to end is the atomic block transfer the cache takes it for |
| Processes.ProcessTable.constructor | kernel/process.c:5-9 | slot 0 is current, no slot is allocated, no process is ready |
| Processes.ProcessTable.SelectProcessToRun | kernel/process.c:14-43 | the current process stays with the time it has, if ready with time left; otherwise the nearest ready one behind it runs with 100000; no other slot changes; fails exactly when none is ready |
| Processes.SelectGives | kernel/process.c:14-43 | what a selection leaves: RUNNING with its time in the slot chosen, every other slot as it was |
| Processes.SelectNearest | kernel/process.c:16-40 | which slot is chosen, by its distance behind the current one |
| Processes.OrderListsReady | kernel/process.c:14-43 | the order lists the ready processes and no others |
| Processes.OrderIsCyclic | kernel/process.c:16-40 | it is the cyclic order of the table, the current process first with time left, last without |
| Processes.SelectTakesFirst | kernel/process.c:14-43 | a selection takes the first and leaves the rest of the order |
| Processes.RunFollowsOrder | kernel/process.c:14-43 | k ready processes are dispatched once each in order, each with its time, the other slots as they were, and call k+1 is the first to fail |
| ConsoleEditor.KeysValid | kernel/console.c:33-64 | after any keys the text fits, the open line has no newline or control-d, committed bytes stay |
| ConsoleEditor.KeyKeeps | kernel/console.c:33-64 | one key keeps all that, and kill-line empties the line |
| ConsoleEditor.KeyIs | kernel/console.c:33-64 | what each byte does to the line and sends to the terminal, by its code; taken are all but 0, 8, 21 and 127 while fewer than 128 bytes are held |
| ConsoleEditor.BackspaceUndoes | kernel/console.c:43-64 | after any keys, a character that does not end the line and then backspace or delete leave the editor as it was, and rub the character out |
| ConsoleEditor.FullForGood | kernel/console.c:52 | once 128 bytes are committed no key does anything |
| ConsoleEditor.ScreenShowsText | kernel/console.c:15-64 | after any keys the terminal shows exactly the text in the buffer |
| ConsoleEditor.Console.KillLine | kernel/console.c:36-40 | the loop always empties the line, whatever the ring holds outside it |
| ConsoleEditor.Console.ConsoleIntr | kernel/console.c:33-64 | the ring buffer and the output follow the pure editor key by key; indices, cells and output of each kind of key |
| ImageBuilder.Builder.constructor | mkfs/r5o5_mkfs.c:13-21 | a disk of spaces, first program at block 100 |
| ImageBuilder.Builder.StoreProgram | mkfs/r5o5_mkfs.c:29-111 | records start and inclusive end start+L-1 in normal form; an oversized program leaves position and records alone but its first bytes on the image |
| ImageBuilder.StoredThenRead | mkfs/r5o5_mkfs.c:47-83 | a program read with readBytes at its recorded start is the program |
| ImageBuilder.ReadsBackIff | mkfs/r5o5_mkfs.c:31-106 | for every list of files: a recorded program reads back iff at each of its bytes the last later program to leave a byte there left the same one |
| ImageBuilder.ReadsBackIfLast | mkfs/r5o5_mkfs.c:31-106 | with no empty file from it on, it reads back iff the last program to start on its last byte starts with that byte |
| ImageBuilder.OversizedSpoils | mkfs/r5o5_mkfs.c:76-106 | a file that does not fit gets no record and still overwrites the last byte of the one before |
| ImageBuilder.EmptySpoils | mkfs/r5o5_mkfs.c:31-106 | an empty file moves the start a step back: the next file overwrites more than the last byte |
| ImageBuilder.StoreAll | mkfs/r5o5_mkfs.c:115-141 | for every list of files: the position, every byte of the image, and a record for exactly the files that fit, in order |

## Left out

- Device set-up and the memory-mapped registers (kernel/uart.c, kernel/plic.c, the register writes of `diskInit`, kernel/main.c): hardware access without an algorithm.
- Assembly entry and context switch, `runProcess`, the saving of registers in the interrupt handlers and the TLB: straight register moves that depend on the machine.
- Hardware translation: the kernel's own software walk is the subject. Its directories carry the read flag, which the standard's walk would take for a leaf.
- kernel/print.c, kernel/string.c and logs/getLogInfo.c: formatting and plain input and output.
- C pointers: a physical address is a page and a word or byte index; buffers in the virtio model go by number, and the request header on the stack is part of its descriptor's address.
- The contents of RAM at boot are a parameter of `Paging.PageTables.constructor`.
- In the cache model `diskRW` is one step; `VirtioRuns.OneRequest` is what justifies it, for a device that succeeds.
- The wait in `diskRW` is assumed to end only when the request's own completion has been handled (`VirtioSystem.Enabled`); the interrupt timing around it is not modelled. The loop that waits for descriptors is a request that is not yet enabled.
- Requests name a block below DISKSIZE, as every caller of `bread` checks; the 32-bit wrap of the sector number cannot occur then.
- `consputc` after an error, and `consoleintr` with a value that is no byte: the UART delivers bytes, and after an error the kernel spins.
- I/O errors of the image builder (`fopen`, `fwrite`, `fprintf` failing); of `fseek` only the refusal of a negative position is modelled.
- The timer handler (kernel/interruptHandler.c:46-73): it calls the dispatcher and never makes a process ready again, which is the run that `Processes.RunFollowsOrder` describes.
- Elf.ElfReader: a negative remainder of the first header offset, from the conversion to int, sends the program outside the buffer; the model stops with `Undefined` there, because C defines no behaviour for it.
- ConsoleEditor.ScreenShowsText: assumes a terminal that gives every byte one cell and on backspace steps one cell back; what a real terminal makes of tabs, newlines and escape sequences, which the kernel echoes like any other byte, is not covered.
- DiskBytes.ReadBytes: requires an offset of at most one block, because a larger one makes the program read past its buffer without a check; the same holds for the other byte transfers and for the start offset of a program.
- Loader.ProgramLoader: the exact condition for success is stated for a cache with one unreferenced buffer; without one it also fails with "no buffers".
