/** Loading a program from the disk into a new address space, and making a
    process of it (kernel/createProcess.c). */
module Loader {
  import opened Bits
  import opened BufferCache
  import opened CacheSpec
  import opened DiskBytes
  import opened Elf
  import opened Halting
  import opened PageBudget
  import opened PageTree
  import opened Paging
  import opened PhysMem
  import opened Processes
  import opened ProgramImage
  import opened Seal
  import opened Seqs
  import opened VirtualIO
  import opened VirtualMemory
  import Sv39

  /** C's int. */
  type int32 = x: int | -0x8000_0000 <= x < 0x8000_0000

  function Max(x: uint64, y: uint64): uint64 {
    if x > y then x else y
  }

  /** (x + y - 1) / y, with the sum taken modulo 2^64. */
  function CeilDiv(x: uint64, y: uint64): uint64
    requires y > 0
  {
    (x + y - 1) % TWO64 / y
  }

  /** First page above the first k segments, as the loader computes it. */
  ghost function StackBegin(segs: seq<Segment>, k: nat): uint64
    requires k <= |segs|
  {
    if k == 0 then 0
    else Max(StackBegin(segs, k - 1), CeilDiv((segs[k - 1].vaddr + segs[k - 1].memsz) % TWO64, Sv39.PGSIZE))
  }

  /** Virtual pages of the two stack pages. */
  function Stack0(sb: nat): nat {
    sb % Sv39.VPAGES
  }

  function Stack1(sb: nat): nat {
    (sb + 1) % Sv39.VPAGES
  }

  /** Every virtual page of a loaded program. */
  ghost function ProgramPages(segs: seq<Segment>): set<nat> {
    var sb := StackBegin(segs, |segs|);
    SegmentPages(segs, |segs|) + {Stack0(sb)} + {Stack1(sb)}
  }

  /** The stack pages are not among the segments' pages. */
  ghost predicate StackClear(segs: seq<Segment>) {
    var sb := StackBegin(segs, |segs|);
    Stack0(sb) !in SegmentPages(segs, |segs|) && Stack1(sb) !in SegmentPages(segs, |segs|)
  }

  /** The bytes of the first n segments are on the disk. */
  ghost predicate FilesBefore(x: Extent, segs: seq<Segment>, n: nat)
    requires n <= |segs|
  {
    forall k :: 0 <= k < n ==> FileInRange(x, segs[k])
  }

  /** Every segment's bytes are on the disk. */
  ghost predicate FilesInRange(x: Extent, segs: seq<Segment>) {
    FilesBefore(x, segs, |segs|)
  }

  /** The two stack pages are mapped with clean directories. */
  ghost predicate StackClean(job: Job) {
    var sb, pages := StackBegin(job.segs, |job.segs|), SegmentPages(job.segs, |job.segs|);
    && PageClean(job, pages, Stack0(sb))
    && (Stack0(sb) !in pages ==> PageClean(job, pages + {Stack0(sb)}, Stack1(sb)))
  }

  /** What a load asks of the words left in free pages: those pages that the
      load makes directories of, at each step that it comes to, are blank. */
  ghost predicate CleanFor(job: Job) {
    && (forall k: nat :: k < |job.segs| && FilesBefore(job.extent, job.segs, k) ==> SegmentClean(job, k))
    && (job.segs != [] && FilesInRange(job.extent, job.segs) ==> StackClean(job))
  }

  /** A pool with no word that looks like an entry is clean enough for any load. */
  lemma CleanPoolIsEnough(job: Job)
    requires StackHoldsFree(job.start.stack, job.start.roles)
    requires CleanPages(job.start.Links(), job.start.roles)
    ensures CleanFor(job)
  {
    forall k: nat | k < |job.segs| ensures SegmentClean(job, k) {
      PoolCleanSegment(job, k);
    }
    var sb, pages := StackBegin(job.segs, |job.segs|), SegmentPages(job.segs, |job.segs|);
    PoolCleanPage(job, pages, Stack0(sb));
    PoolCleanPage(job, pages + {Stack0(sb)}, Stack1(sb));
  }

  ghost function SnapOf(pt: PageTables): Snap
    requires pt.Shape()
    reads pt, pt.pool, pt.pool.pages, pt.mem
  {
    Snap(pt.M(), pt.roles, pt.pool.Stack())
  }

  /** A load in progress in table `root`. */
  ghost predicate Working(pt: PageTables, job: Job, root: nat, pages: set<nat>, k: nat)
    reads pt, pt.pool, pt.pool.pages, pt.mem
  {
    && pt.Sane() && pt.IsTable(root) && pt.Shape()
    && Progress(job, SnapOf(pt), root, pages, k)
  }

  lemma WorkingMeans(pt: PageTables, job: Job, root: nat, pages: set<nat>, k: nat)
    requires Working(pt, job, root, pages, k)
    ensures pt.Sane() && pt.Shape()
  {
  }

  /** allocateVirtualPage in a load: it fails on a page that is mapped, and
      otherwise succeeds exactly when the program so far and the page are
      within the budget. */
  method AddPage(pt: PageTables, root: nat, v: nat, ghost job: Job, ghost pages: set<nat>, ghost k: nat)
    returns (r: Result<()>)
    requires Working(pt, job, root, pages, k) && PageClean(job, pages, v % Sv39.VPAGES)
    modifies pt, pt.pool, pt.mem
    ensures v % Sv39.VPAGES in pages ==> r == Halt(PageAlreadyGiven)
    ensures v % Sv39.VPAGES !in pages ==>
      if Cost(pages + {v % Sv39.VPAGES}) <= |job.start.stack|
      then r == Ok(()) && Working(pt, job, root, pages + {v % Sv39.VPAGES}, k)
      else r == Halt(NoFreePage)
  {
    ghost var s := SnapOf(pt);
    pt.OpenSane(SEAL);
    ghost var stack := pt.pool.Stack();
    ProgressMissing(job, s, root, pages, k, v);
    ProgressClean(job, s, root, pages, k, v);
    r := pt.AllocateVirtualPage(root, v, true, true, true);
    pt.OpenSane(SEAL);
    if r.Ok? {
      ProgressPage(job, s, SnapOf(pt), root, pages, k, v, v % Sv39.VPAGES,
                   stack[MissingDirs(s.Links(), root, Sv39.PathOf(v)) + 1]);
    }
  }

  /** One address of a segment (kernel/createProcess.c:49-58). */
  method EnsurePage(pt: PageTables, root: nat, v: nat, ghost job: Job, ghost pages: set<nat>, ghost k: nat)
    returns (r: Result<()>)
    requires Working(pt, job, root, pages, k) && v < Sv39.VPAGES && PageClean(job, pages, v)
    modifies pt, pt.pool, pt.mem
    ensures r.Ok? ==> Working(pt, job, root, pages + {v}, k)
    ensures r.Halt? ==> r == Halt(NoFreePage) && Cost(pages + {v}) > |job.start.stack|
  {
    hide LoadingAt, TreeInv, StackHoldsFree, LinksOf, Translate, Cost, PageClean;
    IsAllocated(pt, job, root, pages, k, v);
    pt.OpenSane(SEAL);
    var mapped := pt.IsVirtualPageAllocated(root, v);
    if mapped {
      assert pages + {v} == pages;
      return Ok(());
    }
    r := AddPage(pt, root, v, job, pages, k);
  }

  // Why a load stops
  // ----------------

  lemma SegmentCost(segs: seq<Segment>, k: nat)
    requires k <= |segs|
    ensures Cost(SegmentPages(segs, k)) <= Cost(ProgramPages(segs))
    ensures Cost(SegmentPages(segs, |segs|) + {Stack0(StackBegin(segs, |segs|))}) <= Cost(ProgramPages(segs))
  {
    SegmentPagesGrow(segs, k, |segs|);
    CostGrows(SegmentPages(segs, k), ProgramPages(segs));
    CostGrows(SegmentPages(segs, |segs|) + {Stack0(StackBegin(segs, |segs|))}, ProgramPages(segs));
  }

  /** Why a load stops. */
  ghost predicate Fails(job: Job, f: Fault) {
    || (f == NoFreePage && Cost(ProgramPages(job.segs)) > |job.start.stack|)
    || (f == BlockPastDisk && !FilesInRange(job.extent, job.segs))
    || (f == PageAlreadyGiven && !StackClear(job.segs))
  }

  ghost predicate FailsAt(n: nat, job: Job, f: Fault) {
    if n == 0 then Fails(job, f) else FailsAt(n - 1, job, f)
  }

  lemma {:induction false} OpenFails(n: nat, job: Job, f: Fault)
    ensures FailsAt(n, job, f) <==> Fails(job, f)
  {
    if n > 0 {
      OpenFails(n - 1, job, f);
    }
  }

  lemma NoPage(job: Job, k: nat, pages: set<nat>)
    requires k <= |job.segs| && pages <= SegmentPages(job.segs, k) && Cost(pages) > |job.start.stack|
    ensures FailsAt(SEAL, job, NoFreePage)
  {
    CostGrows(pages, SegmentPages(job.segs, k));
    SegmentCost(job.segs, k);
    OpenFails(SEAL, job, NoFreePage);
  }

  lemma NoBlock(job: Job, k: nat)
    requires k < |job.segs| && !FileInRange(job.extent, job.segs[k])
    ensures FailsAt(SEAL, job, BlockPastDisk)
  {
    OpenFails(SEAL, job, BlockPastDisk);
  }

  // Segments
  // --------

  lemma IsAllocated(pt: PageTables, job: Job, root: nat, pages: set<nat>, k: nat, v: nat)
    requires Working(pt, job, root, pages, k) && v < Sv39.VPAGES
    ensures Translate(pt.LinksNow(), root, v).Some? <==> v in pages
  {
    ProgressMaps(job, SnapOf(pt), root, pages, k);
  }

  /** The pool is too small for the loop over a segment's addresses to come
      near the end of int's range. */
  lemma IndexInRange(job: Job, s: Snap, root: nat, pages: set<nat>, k: nat, vaddr: nat, i: nat)
    requires Progress(job, s, root, pages, k)
    requires vaddr % Sv39.PGSIZE == 0 && PagesOf(vaddr, i) <= pages
    ensures i <= 250 * Sv39.PGSIZE
  {
    OpenLoading(SEAL, job, s, root, pages, k);
    if i > 250 * Sv39.PGSIZE {
      var n := 250 * Sv39.PGSIZE + 1;
      PagesOfGrow(vaddr, n, i);
      SubsetCard(PagesOf(vaddr, n), pages);
      PagesCount(vaddr, n);
    }
  }

  lemma NextIndex(segs: seq<Segment>, k: nat, i: nat, n: nat)
    requires k < |segs| && i < n <= segs[k].memsz
    ensures SegmentPages(segs, k) + PagesOf(segs[k].vaddr, i) + {PageNo(segs[k].vaddr + i)} ==
            SegmentPages(segs, k) + PagesOf(segs[k].vaddr, i + 1)
    ensures SegmentPages(segs, k) + PagesOf(segs[k].vaddr, i + 1) <= SegmentPages(segs, k + 1)
  {
    PagesOfGrow(segs[k].vaddr, i + 1, segs[k].memsz);
  }

  lemma WholeSegment(segs: seq<Segment>, k: nat)
    requires k < |segs|
    ensures SegmentPages(segs, k) + PagesOf(segs[k].vaddr, 0) == SegmentPages(segs, k)
    ensures SegmentPages(segs, k) + PagesOf(segs[k].vaddr, segs[k].memsz) == SegmentPages(segs, k + 1)
  {
  }

  /** The virtual page of address i (kernel/createProcess.c:49-50). */
  method PageAt(virtualAddress: uint64, i: nat) returns (v: nat)
    requires virtualAddress + i < TWO64
    ensures v == PageNo(virtualAddress + i) && v < Sv39.VPAGES
  {
    NoWrap(virtualAddress + i);
    var currVirt := (virtualAddress + i) % TWO64;
    Sv39.VirtPageField(currVirt);
    v := Sv39.GetVirtPage(currVirt);
  }

  /** Gives a page, with the bound on the loop index that follows. */
  method MapPage(pt: PageTables, root: nat, v: nat, ghost vaddr: nat, ghost n: nat,
                 ghost job: Job, ghost pages: set<nat>, ghost next: set<nat>, ghost k: nat)
    returns (r: Result<()>)
    requires Working(pt, job, root, pages, k) && v < Sv39.VPAGES && next == pages + {v}
    requires PageClean(job, pages, v)
    requires k < |job.segs| && next <= SegmentPages(job.segs, k + 1)
    requires vaddr % Sv39.PGSIZE == 0 && PagesOf(vaddr, n) <= next
    modifies pt, pt.pool, pt.mem
    ensures r.Ok? ==> Working(pt, job, root, next, k) && n <= 250 * Sv39.PGSIZE
    ensures r.Halt? ==> FailsAt(SEAL, job, r.fault)
  {
    hide LoadingAt, Cost, PageClean, FailsAt, SegmentPages, PagesOf, PageNo;
    r := EnsurePage(pt, root, v, job, pages, k);
    if r.Ok? {
      IndexInRange(job, SnapOf(pt), root, next, k, vaddr, n);
    } else {
      NoPage(job, k + 1, next);
    }
  }

  /** Address i of a segment. */
  method MapAddress(pt: PageTables, root: nat, s: Segment, i: int32, ghost job: Job, ghost k: nat)
    returns (r: Result<()>)
    requires k < |job.segs| && s == job.segs[k] && ValidSegment(s) && 0 <= i < s.memsz
    requires Working(pt, job, root, SegmentPages(job.segs, k) + PagesOf(s.vaddr, i), k) && AddressClean(job, k, i)
    modifies pt, pt.pool, pt.mem
    ensures r.Ok? ==>
      Working(pt, job, root, SegmentPages(job.segs, k) + PagesOf(s.vaddr, i + 1), k) && i < 250 * Sv39.PGSIZE
    ensures r.Halt? ==> FailsAt(SEAL, job, r.fault)
  {
    hide PageClean, Cost, Working, PagesOf, SegmentPages, PageNo, FailsAt;
    var currVirtPage := PageAt(s.vaddr, i);
    NextIndex(job.segs, k, i, s.memsz);
    r := MapPage(pt, root, currVirtPage, s.vaddr, i + 1, job, SegmentPages(job.segs, k) + PagesOf(s.vaddr, i),
                 SegmentPages(job.segs, k) + PagesOf(s.vaddr, i + 1), k);
  }

  /** Gives every address of a segment a page. */
  method MapSegment(pt: PageTables, root: nat, s: Segment, ghost job: Job, ghost k: nat)
    returns (r: Result<()>)
    requires k < |job.segs| && s == job.segs[k] && ValidSegment(s)
    requires Working(pt, job, root, SegmentPages(job.segs, k), k) && SegmentClean(job, k)
    modifies pt, pt.pool, pt.mem
    ensures r.Ok? ==> Working(pt, job, root, SegmentPages(job.segs, k + 1), k)
    ensures r.Halt? ==> FailsAt(SEAL, job, r.fault)
  {
    hide PagesOf, SegmentPages, PageNo, AddressClean, Working, FailsAt;
    var i: int32 := 0;
    WholeSegment(job.segs, k);
    while i < s.memsz
      invariant 0 <= i <= s.memsz
      invariant Working(pt, job, root, SegmentPages(job.segs, k) + PagesOf(s.vaddr, i), k)
    {
      r := MapAddress(pt, root, s, i, job, k);
      if r.Halt? {
        return;
      }
      i := i + 1;
    }
    return Ok(());
  }

  lemma NoWrap(a: nat)
    requires a < TWO64
    ensures a % TWO64 == a
  {
  }

  lemma AddressMapped(m: Mem, root: nat, pages: set<nat>, a: nat)
    requires MapsExactly(LinksOf(m), root, pages)
    ensures IsMapped(m, root, a) <==> PageNo(a) in pages
  {
    assert Translate(LinksOf(m), root, a / Sv39.PGSIZE).Some? <==> a / Sv39.PGSIZE % Sv39.VPAGES in pages;
  }

  ghost predicate PageMapped(m: Mem, root: nat, a: nat) {
    IsMapped(m, root, a)
  }

  lemma {:induction false} PagesMapped(m: Mem, root: nat, vaddr: nat, n: nat)
    requires vaddr + n < TWO64
    requires forall a: nat :: vaddr <= a < vaddr + n ==> PageMapped(m, root, a)
    ensures AllMapped(m, root, vaddr, n)
  {
    if n > 0 {
      PagesMapped(m, root, vaddr, n - 1);
      NoWrap(vaddr + (n - 1));
      assert PageMapped(m, root, vaddr + (n - 1));
    }
  }

  lemma SegmentMapped(job: Job, s: Snap, root: nat, k: nat)
    requires k < |job.segs| && Progress(job, s, root, SegmentPages(job.segs, k + 1), k)
    requires ValidSegment(job.segs[k])
    ensures AllMapped(s.mem, root, job.segs[k].vaddr, job.segs[k].filesz)
  {
    var pages := SegmentPages(job.segs, k + 1);
    ProgressMaps(job, s, root, pages, k);
    var seg := job.segs[k];
    forall a: nat | seg.vaddr <= a < seg.vaddr + seg.filesz ensures PageMapped(s.mem, root, a) {
      PagesOfHas(seg.vaddr, seg.memsz, a - seg.vaddr);
      AddressMapped(s.mem, root, pages, a);
    }
    PagesMapped(s.mem, root, seg.vaddr, seg.filesz);
  }

  /** Block and offset of a segment in the file (kernel/createProcess.c:41, 63-64). */
  method Position(s: Segment, x: Extent) returns (blockNum: uint64, blockOff: nat)
    requires x.startBlock < DISKSIZE
    ensures blockOff < BSIZE && blockNum * BSIZE + blockOff == FileStart(x, s)
    ensures InRange(blockNum, blockOff, s.filesz) <==> FileInRange(x, s)
  {
    var off := (s.off + x.startOff) % TWO64;
    NoWrap(x.startBlock + off / BSIZE);
    FileBlock(x, s);
    blockNum := (x.startBlock + off / BSIZE) % TWO64;
    blockOff := off % BSIZE;
  }

  /** Puts a segment's bytes into its pages (kernel/createProcess.c:61-73). */
  method FillSegment(cache: BufferPool, pt: PageTables, root: nat, s: Segment, x: Extent, ghost job: Job, ghost k: nat)
    returns (r: Result<()>)
    requires job.Valid() && k < |job.segs| && s == job.segs[k] && x == job.extent && x.startBlock < DISKSIZE
    requires Working(pt, job, root, SegmentPages(job.segs, k + 1), k) && Apart(cache, pt)
    requires cache.Good() && LeftAsFound(job.disk, cache.Abs())
    modifies cache`slots, cache`list, cache.buf, cache.head, cache.Arrays(), pt.mem
    ensures r.Ok? ==> FileInRange(x, s) && cache.Good() && LeftAsFound(job.disk, cache.Abs())
    ensures r.Ok? ==> Working(pt, job, root, SegmentPages(job.segs, k + 1), k + 1)
    ensures r.Halt? && Spare(job.disk) ==> FailsAt(SEAL, job, r.fault)
  {
    hide LoadingAt, SegmentPages, TreeInv;
    ghost var before := SnapOf(pt);
    SegmentMapped(job, before, root, k);
    var blockNum, blockOff := Position(s, x);
    r := ReadVirtualChecked(cache, pt, blockNum, blockOff, s.filesz, s.vaddr, root, job.disk);
    if r.Ok? {
      ProgressBytes(job, before, SnapOf(pt), root, SegmentPages(job.segs, k + 1), k);
    } else if Spare(job.disk) {
      NoBlock(job, k);
    }
  }

  /** One segment. */
  method LoadSegment(cache: BufferPool, pt: PageTables, root: nat, s: Segment, x: Extent, ghost job: Job, ghost k: nat)
    returns (r: Result<()>)
    requires job.Valid() && k < |job.segs| && s == job.segs[k] && x == job.extent && x.startBlock < DISKSIZE
    requires Working(pt, job, root, SegmentPages(job.segs, k), k) && Apart(cache, pt) && SegmentClean(job, k)
    requires cache.Good() && LeftAsFound(job.disk, cache.Abs())
    modifies cache`slots, cache`list, cache.buf, cache.head, cache.Arrays(), pt, pt.pool, pt.mem
    ensures r.Ok? ==> FileInRange(x, s) && cache.Good() && LeftAsFound(job.disk, cache.Abs())
    ensures r.Ok? ==> Working(pt, job, root, SegmentPages(job.segs, k + 1), k + 1)
    ensures r.Halt? && Spare(job.disk) ==> FailsAt(SEAL, job, r.fault)
  {
    r := MapSegment(pt, root, s, job, k);
    if r.Halt? {
      return;
    }
    r := FillSegment(cache, pt, root, s, x, job, k);
  }

  /** One round of the loop: a segment, and the stack above it. */
  method LoadNext(cache: BufferPool, pt: PageTables, root: nat, s: Segment, x: Extent, stackBegin: uint64,
                  ghost job: Job, ghost k: nat)
    returns (r: Result<uint64>)
    requires job.Valid() && k < |job.segs| && s == job.segs[k] && x == job.extent && x.startBlock < DISKSIZE
    requires Working(pt, job, root, SegmentPages(job.segs, k), k) && Apart(cache, pt) && SegmentClean(job, k)
    requires cache.Good() && LeftAsFound(job.disk, cache.Abs()) && stackBegin == StackBegin(job.segs, k)
    modifies cache`slots, cache`list, cache.buf, cache.head, cache.Arrays(), pt, pt.pool, pt.mem
    ensures r.Ok? ==> FileInRange(x, s) && cache.Good() && LeftAsFound(job.disk, cache.Abs())
    ensures r.Ok? ==> Working(pt, job, root, SegmentPages(job.segs, k + 1), k + 1)
    ensures r.Ok? ==> r.value == StackBegin(job.segs, k + 1)
    ensures r.Halt? && Spare(job.disk) ==> FailsAt(SEAL, job, r.fault)
  {
    hide CeilDiv, Max, FailsAt, Working, SegmentPages, SegmentClean, LeftAsFound, BufferPool.Good, PageTables.Shape;
    var t := LoadSegment(cache, pt, root, s, x, job, k);
    if t.Halt? {
      return Halt(t.fault);
    }
    return Ok(Max(stackBegin, CeilDiv((s.vaddr + s.memsz) % TWO64, Sv39.PGSIZE)));
  }

  lemma FirstSegment(segs: seq<Segment>)
    ensures SegmentPages(segs, 0) == {} && StackBegin(segs, 0) == 0
  {
  }

  lemma CleanSegment(job: Job, k: nat)
    requires CleanFor(job) && k < |job.segs| && FilesBefore(job.extent, job.segs, k)
    ensures SegmentClean(job, k)
  {
  }

  lemma CleanStack(job: Job)
    requires CleanFor(job) && job.segs != []
    ensures FilesInRange(job.extent, job.segs) ==> StackClean(job)
  {
  }

  /** The loop over the list of segments (kernel/createProcess.c:36-81). */
  method LoadSegments(cache: BufferPool, pt: PageTables, root: nat, nodes: seq<ElfNode>, list: ElfReadList, x: Extent,
                      ghost job: Job, ghost idxs: seq<nat>)
    returns (r: Result<uint64>)
    requires job.Valid() && x == job.extent && x.startBlock < DISKSIZE
    requires IsList(nodes, list, idxs, job.segs) && CleanFor(job)
    requires Working(pt, job, root, {}, 0) && Apart(cache, pt)
    requires cache.Good() && LeftAsFound(job.disk, cache.Abs())
    modifies cache`slots, cache`list, cache.buf, cache.head, cache.Arrays(), pt, pt.pool, pt.mem
    ensures r.Ok? ==> r.value == StackBegin(job.segs, |job.segs|) && FilesInRange(x, job.segs)
    ensures r.Ok? ==> Working(pt, job, root, SegmentPages(job.segs, |job.segs|), |job.segs|)
    ensures r.Ok? ==> cache.Good() && LeftAsFound(job.disk, cache.Abs())
    ensures r.Halt? && Spare(job.disk) ==> FailsAt(SEAL, job, r.fault)
  {
    hide LoadingAt, FailsAt, IdleAt, BufferPool.ValidAt, PageTables.SaneAt, StackBegin, CleanFor, SegmentClean,
         SegmentPages, FileInRange, Working, SnapOf, PageTables.Shape, BufferPool.Good, LeftAsFound;
    FirstSegment(job.segs);
    var stackBegin: uint64 := 0;
    ghost var k: nat := 0;
    var elfNode := list.head;
    while elfNode != null
      invariant k <= |job.segs| && elfNode == (if k < |job.segs| then nodes[idxs[k]] else null)
      invariant Working(pt, job, root, SegmentPages(job.segs, k), k) && Apart(cache, pt)
      invariant cache.Good() && LeftAsFound(job.disk, cache.Abs())
      invariant stackBegin == StackBegin(job.segs, k)
      invariant FilesBefore(x, job.segs, k)
      decreases |job.segs| - k
    {
      assert NodeHolds(nodes, idxs, job.segs, k);
      CleanSegment(job, k);
      var s := Segment(elfNode.off, elfNode.vaddr, elfNode.filesz, elfNode.memsz);
      var t := LoadNext(cache, pt, root, s, x, stackBegin, job, k);
      if t.Halt? {
        return t;
      }
      stackBegin := t.value;
      elfNode := elfNode.next;
      k := k + 1;
    }
    return Ok(stackBegin);
  }

  lemma StackPagesDiffer(sb: nat)
    ensures Stack0(sb) != Stack1(sb)
  {
  }

  lemma NoStack(job: Job, sb: nat)
    requires sb == StackBegin(job.segs, |job.segs|)
    requires Stack0(sb) in SegmentPages(job.segs, |job.segs|) || Stack1(sb) in SegmentPages(job.segs, |job.segs|)
    ensures FailsAt(SEAL, job, PageAlreadyGiven)
  {
    OpenFails(SEAL, job, PageAlreadyGiven);
  }

  lemma NoStackPage(job: Job, sb: nat, pages: set<nat>)
    requires sb == StackBegin(job.segs, |job.segs|)
    requires pages <= ProgramPages(job.segs) && Cost(pages) > |job.start.stack|
    ensures FailsAt(SEAL, job, NoFreePage)
  {
    CostGrows(pages, ProgramPages(job.segs));
    OpenFails(SEAL, job, NoFreePage);
  }

  /** Whether the stack pages can be had, in the order they are asked for. */
  lemma StackCost(job: Job, sb: nat, a: nat, b: nat, pages: set<nat>)
    requires sb == StackBegin(job.segs, |job.segs|) && pages == SegmentPages(job.segs, |job.segs|)
    requires a == Stack0(sb) && b == Stack1(sb)
    ensures a in pages || b in pages + {a} ==> FailsAt(SEAL, job, PageAlreadyGiven)
    ensures Cost(pages + {a}) > |job.start.stack| ==> FailsAt(SEAL, job, NoFreePage)
    ensures Cost(pages + {a} + {b}) > |job.start.stack| ==> FailsAt(SEAL, job, NoFreePage)
    ensures a !in pages && b !in pages + {a} ==> StackClear(job.segs)
    ensures pages + {a} + {b} == ProgramPages(job.segs)
  {
    StackPagesDiffer(sb);
    if a in pages || b in pages {
      NoStack(job, sb);
    }
    if Cost(pages + {a}) > |job.start.stack| {
      NoStackPage(job, sb, pages + {a});
    }
    if Cost(pages + {a} + {b}) > |job.start.stack| {
      NoStackPage(job, sb, pages + {a} + {b});
    }
  }

  /** The two stack pages (kernel/createProcess.c:85-86). */
  method AllocateStack(pt: PageTables, root: nat, stackBegin: nat, ghost job: Job, ghost pages: set<nat>)
    returns (r: Result<()>)
    requires stackBegin == StackBegin(job.segs, |job.segs|) && pages == SegmentPages(job.segs, |job.segs|)
    requires Working(pt, job, root, pages, |job.segs|) && StackClean(job)
    modifies pt, pt.pool, pt.mem
    ensures r.Ok? ==> Working(pt, job, root, ProgramPages(job.segs), |job.segs|) && StackClear(job.segs)
    ensures r.Ok? ==> Cost(ProgramPages(job.segs)) <= |job.start.stack|
    ensures r.Halt? ==> FailsAt(SEAL, job, r.fault)
  {
    StackCost(job, stackBegin, Stack0(stackBegin), Stack1(stackBegin), pages);
    r := AddPage(pt, root, stackBegin, job, pages, |job.segs|);
    if r.Ok? {
      r := AddPage(pt, root, stackBegin + 1, job, pages + {Stack0(stackBegin)}, |job.segs|);
    }
  }

  // The program
  // -----------

  ghost function JobOf(cache: BufferPool, pt: PageTables, x: Extent): Job
    requires pt.Shape() && |cache.Abs().disk| == DISKSIZE
    reads cache, pt, pt.pool, pt.pool.pages, pt.mem
  {
    Job(SnapOf(pt), cache.Abs(), x, Elf.Result(cache.Abs(), x))
  }

  lemma ResultValid(c: Cache, x: Extent, k: nat)
    requires |c.disk| == DISKSIZE && k < |Elf.Result(c, x)|
    ensures x.startBlock < DISKSIZE && ValidSegment(Elf.Result(c, x)[k])
  {
    var h := HeaderOf(c, x);
    LoadsValid(c, x, h.phoff, h.phnum, k);
  }

  lemma JobIsValid(cache: BufferPool, pt: PageTables, x: Extent)
    requires pt.Sane() && pt.Shape() && |cache.Abs().disk| == DISKSIZE
    ensures JobOf(cache, pt, x).Valid()
    ensures Elf.Result(cache.Abs(), x) != [] ==> x.startBlock < DISKSIZE
  {
    pt.OpenSane(SEAL);
    var segs := Elf.Result(cache.Abs(), x);
    forall k | 0 <= k < |segs| ensures ValidSegment(segs[k]) && x.startBlock < DISKSIZE {
      ResultValid(cache.Abs(), x, k);
    }
  }

  /** Value of the stack pointer: one past the second stack page. */
  function StackTop(sb: nat): uint64 {
    (Shl(sb, 12) + 2 * Sv39.PGSIZE) % TWO64
  }

  /** A process has been given the program: its table, entry point and stack. */
  ghost predicate Loaded(pt: PageTables, d: ProcessDescriptor, job: Job)
    reads pt, pt.pool, pt.pool.pages, pt.mem, d
  {
    && Working(pt, job, d.satp, ProgramPages(job.segs), |job.segs|)
    && |job.disk.disk| == DISKSIZE && InRange(job.extent.startBlock, job.extent.startOff, EHSIZE)
    && d.epc == HeaderOf(job.disk, job.extent).entry
    && d.reg[1] == StackTop(StackBegin(job.segs, |job.segs|))
  }

  /** What a load needs. */
  ghost predicate Loadable(job: Job) {
    && Cost(ProgramPages(job.segs)) <= |job.start.stack|
    && FilesInRange(job.extent, job.segs)
    && StackClear(job.segs)
  }

  ghost predicate LoadableAt(n: nat, job: Job) {
    if n == 0 then Loadable(job) else LoadableAt(n - 1, job)
  }

  lemma {:induction false} OpenLoadable(n: nat, job: Job)
    ensures LoadableAt(n, job) <==> Loadable(job)
  {
    if n > 0 {
      OpenLoadable(n - 1, job);
    }
  }

  /** Loadable, sealed. */
  ghost predicate CanLoad(job: Job) {
    LoadableAt(SEAL, job)
  }

  lemma CanLoadMeans(job: Job)
    ensures CanLoad(job) <==> Loadable(job)
  {
    OpenLoadable(SEAL, job);
  }

  /** Fails, sealed. */
  ghost predicate LoadFails(job: Job, f: Fault) {
    FailsAt(SEAL, job, f)
  }

  lemma LoadFailsMeans(job: Job, f: Fault)
    ensures LoadFails(job, f) <==> Fails(job, f)
    ensures LoadFails(job, f) ==> !CanLoad(job)
  {
    OpenFails(SEAL, job, f);
    CanLoadMeans(job);
  }

  /** allocatePageTable at the start of a load. */
  method NewTable(pt: PageTables, ghost job: Job) returns (r: Result<nat>)
    requires job.Valid() && pt.Sane() && pt.Shape() && SnapOf(pt) == job.start
    modifies pt, pt.pool, pt.mem
    ensures r.Ok? ==> Working(pt, job, r.value, {}, 0)
    ensures r.Halt? ==> FailsAt(SEAL, job, r.fault)
  {
    pt.OpenSane(SEAL);
    r := pt.AllocatePageTable();
    if r.Halt? {
      NoPage(job, 0, {});
    } else {
      pt.OpenSane(SEAL);
      ProgressStart(job, SnapOf(pt), r.value);
    }
  }

  /** Root table and entry point of the process. */
  method StartSpace(pt: PageTables, list: ElfReadList, d: ProcessDescriptor, ghost job: Job) returns (r: Result<nat>)
    requires job.Valid() && pt.Sane() && pt.Shape() && SnapOf(pt) == job.start
    modifies pt, pt.pool, pt.mem, d`satp, d`epc
    ensures r.Ok? ==> Working(pt, job, r.value, {}, 0) && d.satp == r.value && d.epc == list.entry
    ensures r.Halt? ==> FailsAt(SEAL, job, r.fault)
  {
    r := NewTable(pt, job);
    if r.Ok? {
      d.satp := r.value;
      d.epc := list.entry;
    }
  }

  /** Segments and stack. */
  method LoadPages(cache: BufferPool, pt: PageTables, root: nat, nodes: seq<ElfNode>, list: ElfReadList, x: Extent,
                   ghost job: Job, ghost idxs: seq<nat>)
    returns (r: Result<uint64>)
    requires job.segs != [] && job.Valid() && x == job.extent && x.startBlock < DISKSIZE
    requires IsList(nodes, list, idxs, job.segs) && CleanFor(job)
    requires Working(pt, job, root, {}, 0) && Apart(cache, pt)
    requires cache.Good() && LeftAsFound(job.disk, cache.Abs())
    modifies cache`slots, cache`list, cache.buf, cache.head, cache.Arrays(), pt, pt.pool, pt.mem
    ensures r.Ok? ==> r.value == StackBegin(job.segs, |job.segs|)
    ensures r.Ok? ==> Working(pt, job, root, ProgramPages(job.segs), |job.segs|) && CanLoad(job)
    ensures r.Ok? ==> cache.Good() && LeftAsFound(job.disk, cache.Abs())
    ensures r.Halt? && Spare(job.disk) ==> FailsAt(SEAL, job, r.fault)
  {
    hide LoadingAt, FailsAt, IdleAt, BufferPool.ValidAt, PageTables.SaneAt, StackBegin, SegmentPages, CleanFor,
         IsList, StackClean, FilesBefore, Working, SnapOf, PageTables.Shape, BufferPool.Good, LeftAsFound;
    CleanStack(job);
    r := LoadSegments(cache, pt, root, nodes, list, x, job, idxs);
    if r.Ok? {
      var t := AllocateStack(pt, root, r.value, job, SegmentPages(job.segs, |job.segs|));
      if t.Halt? {
        return Halt(t.fault);
      }
      CanLoadMeans(job);
    }
  }

  /** Assigns the SP register the top of the stack. */
  method SetStackPointer(d: ProcessDescriptor, stackBeginVirtPage: nat)
    modifies d`reg
    ensures d.reg == old(d.reg)[1 := StackTop(stackBeginVirtPage)]
  {
    d.reg := d.reg[1 := (Shl(stackBeginVirtPage, 12) + 2 * Sv39.PGSIZE) % TWO64];
  }

  /** The address space: root table, segments, stack. */
  method BuildSpace(cache: BufferPool, pt: PageTables, nodes: seq<ElfNode>, list: ElfReadList, x: Extent,
                    d: ProcessDescriptor, ghost job: Job, ghost idxs: seq<nat>)
    returns (r: Result<()>)
    requires job.Valid() && x == job.extent && x.startBlock < DISKSIZE
    requires IsList(nodes, list, idxs, job.segs) && job.segs != [] && CleanFor(job)
    requires pt.Sane() && pt.Shape() && SnapOf(pt) == job.start && Apart(cache, pt)
    requires cache.Good() && LeftAsFound(job.disk, cache.Abs())
    modifies cache`slots, cache`list, cache.buf, cache.head, cache.Arrays(), pt, pt.pool, pt.mem, d`satp, d`epc, d`reg
    ensures r.Ok? ==> Working(pt, job, d.satp, ProgramPages(job.segs), |job.segs|) && CanLoad(job)
    ensures r.Ok? ==> cache.Good() && LeftAsFound(job.disk, cache.Abs())
    ensures r.Ok? ==> d.epc == list.entry && d.reg == old(d.reg)[1 := StackTop(StackBegin(job.segs, |job.segs|))]
    ensures r.Halt? && Spare(job.disk) ==> FailsAt(SEAL, job, r.fault)
  {
    hide LoadingAt, FailsAt, IdleAt, BufferPool.ValidAt, PageTables.SaneAt, StackBegin, CleanFor, IsList, NodeHolds,
         CanLoad, ProgramPages, StackTop, Working, SnapOf, PageTables.Shape, BufferPool.Good, LeftAsFound;
    var pagetable := StartSpace(pt, list, d, job);
    if pagetable.Halt? {
      return Halt(pagetable.fault);
    }
    var s := LoadPages(cache, pt, pagetable.value, nodes, list, x, job, idxs);
    if s.Halt? {
      return Halt(s.fault);
    }
    SetStackPointer(d, s.value);
    return Ok(());
  }

  /** programLoader. With a spare buffer it loads the program exactly when the
      file is a program, its bytes are on the disk, the stack pages are clear of
      the segments and the pool has the pages the program costs. */
  method ProgramLoader(cache: BufferPool, pt: PageTables, nodes: seq<ElfNode>, x: Extent, d: ProcessDescriptor)
    returns (r: Result<bool>)
    requires Ready(cache) && DistinctNodes(nodes) && x.startOff <= BSIZE
    requires pt.Sane() && pt.Shape() && Apart(cache, pt)
    requires |cache.Abs().disk| == DISKSIZE && CleanFor(JobOf(cache, pt, x))
    modifies cache`slots, cache`list, cache.buf, cache.head, cache.Arrays(), nodes, pt, pt.pool, pt.mem, d`satp,
             d`epc, d`reg
    ensures r.Ok? ==> cache.Good() && LeftAsFound(old(cache.Abs()), cache.Abs()) && pt.Sane() && pt.Shape()
    ensures r.Ok? ==> d.reg == old(d.reg)[1 := d.reg[1]]
    ensures var job := old(JobOf(cache, pt, x));
      && (r.Ok? && !r.value ==> job.segs == [] && SnapOf(pt) == job.start)
      && (r.Ok? && r.value ==> job.segs != [] && Loaded(pt, d, job) && CanLoad(job))
      && (Spare(job.disk) ==>
            if ReaderStops(job.disk, x) then r.Halt?
            else if job.segs == [] then r == Ok(false)
            else (r == Ok(true) <==> CanLoad(job)) && (r.Halt? ==> LoadFails(job, r.fault)))
  {
    hide LoadingAt, FailsAt, IdleAt, BufferPool.ValidAt, PageTables.SaneAt, StackBegin, CleanFor, CanLoad,
         ProgramPages, StackTop, Elf.Result, ReaderStops, NodeHolds, Spare, Working, SnapOf, PageTables.Shape,
         LeftAsFound, BufferPool.Good, HeaderOf, Unchanged;
    StartUnchanged(cache.Abs());
    JobIsValid(cache, pt, x);
    ghost var job := JobOf(cache, pt, x);
    var list := new ElfReadList();
    var e, idxs := ElfReader(cache, nodes, list, x);
    if e.Halt? {
      return Halt(e.fault);
    }
    if list.head == null {
      return Ok(false);
    }
    var t := BuildSpace(cache, pt, nodes, list, x, d, job, idxs);
    if t.Halt? {
      if Spare(job.disk) {
        LoadFailsMeans(job, t.fault);
      }
      return Halt(t.fault);
    }
    WorkingMeans(pt, job, d.satp, ProgramPages(job.segs), |job.segs|);
    return Ok(true);
  }

  /** The first slot that is not taken, or NPROC. */
  ghost predicate IsFirstFree(slots: Slots, pid: nat) {
    && pid <= NPROC && (forall i :: 0 <= i < pid ==> slots[i].taken)
    && (pid < NPROC ==> !slots[pid].taken)
  }

  method FindFreeSlot(table: ProcessTable) returns (pid: nat)
    requires table.Valid()
    ensures IsFirstFree(table.SlotsNow(), pid)
  {
    pid := 0;
    while pid < NPROC
      invariant pid <= NPROC
      invariant forall i :: 0 <= i < pid ==> table.SlotsNow()[i].taken
    {
      if !table.pd[pid].slotAllocated {
        break;
      }
      pid := pid + 1;
    }
  }

  /** Makes a loaded process ready to run. */
  method MakeReady(table: ProcessTable, ghost pid: nat, d: ProcessDescriptor, ghost pt: PageTables, ghost job: Job)
    requires table.Valid() && pid < NPROC && table.pd[pid] == d && Loaded(pt, d, job)
    modifies d`slotAllocated, d`state, d`timeLeft
    ensures table.SlotsNow() == old(table.SlotsNow())[pid := Processes.Slot(true, READY, 100000)]
    ensures Loaded(pt, table.pd[pid], job)
  {
    d.slotAllocated := true;
    d.state := READY;
    d.timeLeft := TIME_QUANTUM;
  }

  /** The saved registers of a process. */
  ghost function SaveArea(d: ProcessDescriptor): (Registers, uint64, nat)
    reads d
  {
    (d.reg, d.epc, d.satp)
  }

  /** programLoader for a slot of the table, whose slots' standing it leaves alone. */
  method LoadInto(cache: BufferPool, pt: PageTables, nodes: seq<ElfNode>, table: ProcessTable, d: ProcessDescriptor,
                  x: Extent)
    returns (r: Result<bool>)
    requires Ready(cache) && DistinctNodes(nodes) && x.startOff <= BSIZE && table.Valid()
    requires pt.Sane() && pt.Shape() && Apart(cache, pt)
    requires |cache.Abs().disk| == DISKSIZE && CleanFor(JobOf(cache, pt, x))
    modifies cache`slots, cache`list, cache.buf, cache.head, cache.Arrays(), nodes, pt, pt.pool, pt.mem, d`satp,
             d`epc, d`reg
    ensures table.SlotsNow() == old(table.SlotsNow())
    ensures r.Ok? ==> cache.Good() && LeftAsFound(old(cache.Abs()), cache.Abs())
    ensures var job := old(JobOf(cache, pt, x));
      && (r.Ok? && !r.value ==> job.segs == [])
      && (r.Ok? && r.value ==> job.segs != [] && Loaded(pt, d, job) && CanLoad(job))
      && (Spare(job.disk) && !ReaderStops(job.disk, x) ==>
            if job.segs == [] then r == Ok(false)
            else (r == Ok(true) <==> CanLoad(job)) && (r.Halt? ==> LoadFails(job, r.fault)))
  {
    hide Working, PageTables.Shape, BufferPool.Good, LeftAsFound, CleanFor, Loaded, CanLoad, LoadFails, SnapOf,
         Elf.Result, ReaderStops, Spare, JobOf;
    r := ProgramLoader(cache, pt, nodes, x, d);
  }

  /** createProcess, in the slot it has found. */
  method CreateIn(cache: BufferPool, pt: PageTables, nodes: seq<ElfNode>, table: ProcessTable, ghost pid: nat,
                  d: ProcessDescriptor, x: Extent)
    returns (r: Result<()>)
    requires Ready(cache) && DistinctNodes(nodes) && x.startOff <= BSIZE && table.Valid()
    requires pid < NPROC && table.pd[pid] == d
    requires pt.Sane() && pt.Shape() && Apart(cache, pt)
    requires |cache.Abs().disk| == DISKSIZE && CleanFor(JobOf(cache, pt, x))
    modifies cache`slots, cache`list, cache.buf, cache.head, cache.Arrays(), nodes, pt, pt.pool, pt.mem, d
    ensures r.Ok? ==> cache.Good() && LeftAsFound(old(cache.Abs()), cache.Abs())
    ensures r.Ok? ==> table.SlotsNow() == old(table.SlotsNow())[pid := Processes.Slot(true, READY, 100000)]
    ensures var job := old(JobOf(cache, pt, x));
      && (r.Ok? ==> Loaded(pt, table.pd[pid], job) && CanLoad(job) && job.segs != [])
      && (Spare(job.disk) && !ReaderStops(job.disk, x) ==>
            if job.segs == [] then r == Halt(LoadingFailed)
            else (r.Ok? <==> CanLoad(job)) && (r.Halt? ==> LoadFails(job, r.fault)))
  {
    hide LoadingAt, FailsAt, IdleAt, BufferPool.ValidAt, PageTables.SaneAt, StackBegin, CleanFor, CanLoad, Elf.Result,
         ReaderStops, Spare, Loaded, LoadFails;
    ghost var job := JobOf(cache, pt, x);
    var ok := LoadInto(cache, pt, nodes, table, d, x);
    if ok.Halt? {
      return Halt(ok.fault);
    }
    if !ok.value {
      return Halt(LoadingFailed);
    }
    MakeReady(table, pid, d, pt, job);
    return Ok(());
  }

  /** createProcess: the program goes to the first free slot, which becomes
      ready with a full quantum; every other slot stays as it is. */
  method CreateProcess(cache: BufferPool, pt: PageTables, nodes: seq<ElfNode>, table: ProcessTable, x: Extent)
    returns (r: Result<nat>, ghost free: nat)
    requires Ready(cache) && DistinctNodes(nodes) && x.startOff <= BSIZE && table.Valid()
    requires pt.Sane() && pt.Shape() && Apart(cache, pt)
    requires |cache.Abs().disk| == DISKSIZE && CleanFor(JobOf(cache, pt, x))
    modifies cache`slots, cache`list, cache.buf, cache.head, cache.Arrays(), nodes, pt, pt.pool, pt.mem, table.pd
    ensures IsFirstFree(old(table.SlotsNow()), free)
    ensures free == NPROC ==> r == Halt(ProcessTableFilled)
    ensures forall q: nat :: q < NPROC && q != free ==> SaveArea(table.pd[q]) == old(SaveArea(table.pd[q]))
    ensures r.Ok? ==> r.value == free < NPROC && cache.Good() && LeftAsFound(old(cache.Abs()), cache.Abs())
    ensures r.Ok? ==> table.SlotsNow() == old(table.SlotsNow())[free := Processes.Slot(true, READY, 100000)]
    ensures var job := old(JobOf(cache, pt, x));
      && (r.Ok? ==> Loaded(pt, table.pd[free], job) && CanLoad(job) && job.segs != [])
      && (free < NPROC && Spare(job.disk) && !ReaderStops(job.disk, x) ==>
            if job.segs == [] then r == Halt(LoadingFailed)
            else (r.Ok? <==> CanLoad(job)) && (r.Halt? ==> LoadFails(job, r.fault)))
  {
    hide LoadingAt, FailsAt, IdleAt, BufferPool.ValidAt, PageTables.SaneAt, StackBegin, CleanFor, CanLoad, Elf.Result,
         ReaderStops, Spare, Loaded, LoadFails;
    var pid := FindFreeSlot(table);
    free := pid;
    if pid == NPROC {
      return Halt(ProcessTableFilled), free;
    }
    var d := table.pd[pid];
    var made := CreateIn(cache, pt, nodes, table, pid, d, x);
    r := if made.Ok? then Ok(pid) else Halt(made.fault);
  }
}
