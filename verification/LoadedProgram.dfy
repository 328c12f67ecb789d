/** What a loaded program finds in its address space. */
module LoadedProgram {
  import opened Bits
  import opened CacheSpec
  import opened DiskBytes
  import opened Elf
  import opened ElfLayout
  import opened Halting
  import opened Loader
  import opened PageBudget
  import opened PageTree
  import opened Paging
  import opened PhysMem
  import opened Processes
  import opened ProgramImage
  import opened Seal
  import opened VirtualIO
  import opened VirtualMemory
  import Sv39

  /** A load that went through all segments and both stack pages. */
  ghost predicate Complete(job: Job, s: Snap, root: nat) {
    Progress(job, s, root, ProgramPages(job.segs), |job.segs|) && FilesInRange(job.extent, job.segs)
  }

  // Places in the file
  // ------------------

  /** A segment's bytes start where its header says, counted from the start of
      the file, modulo 2^64. */
  lemma FileStartIs(x: Extent, s: Segment)
    ensures FileStart(x, s) == x.startBlock * 1024 + (x.startOff + s.off) % 0x1_0000_0000_0000_0000
    ensures x.startOff + s.off < 0x1_0000_0000_0000_0000 ==>
      FileStart(x, s) == x.startBlock * 1024 + x.startOff + s.off
  {
    NoWrap(FileOffset(x, s));
    if x.startOff + s.off < 0x1_0000_0000_0000_0000 {
      NoWrap(x.startOff + s.off);
    }
  }

  /** They are on the disk when the last of them is. */
  lemma FileInRangeIs(x: Extent, s: Segment)
    requires x.startOff + s.off < 0x1_0000_0000_0000_0000
    ensures s.filesz > 0 ==>
      (FileInRange(x, s) <==> x.startBlock * 1024 + x.startOff + s.off + s.filesz <= 1024000)
    ensures s.filesz == 0 ==> (FileInRange(x, s) <==> x.startBlock + (x.startOff + s.off) / 1024 < 1000)
  {
    FileStartIs(x, s);
    FileBlock(x, s);
  }

  // What is in memory
  // -----------------

  /** What programLoader leaves when it returns True. */
  lemma LoadedIsComplete(pt: PageTables, d: ProcessDescriptor, job: Job)
    requires Loaded(pt, d, job) && CanLoad(job)
    ensures Complete(job, SnapOf(pt), d.satp)
  {
    CanLoadMeans(job);
  }

  /** Segment j is the last one that has file bytes at address a. */
  ghost predicate LastCovering(segs: seq<Segment>, k: nat, j: nat, a: nat)
    requires k <= |segs|
  {
    j < k && Covers(segs[j], a) && forall l :: j < l < k ==> !Covers(segs[l], a)
  }

  lemma {:induction false} ImageOfLast(job: Job, k: nat, j: nat, a: nat, d: byte)
    requires job.Valid() && k <= |job.segs| && LastCovering(job.segs, k, j, a)
    requires FileInRange(job.extent, job.segs[j])
    ensures var from := FileStart(job.extent, job.segs[j]) + Above(a, job.segs[j].vaddr);
      from < DISKBYTES && ImageByte(job, k, a, d) == FlatByte(job.disk, from)
  {
    FileBlock(job.extent, job.segs[j]);
    if j < k - 1 {
      ImageOfLast(job, k - 1, j, a, d);
    }
  }

  lemma {:induction false} ImageOfNone(job: Job, k: nat, a: nat, d: byte)
    requires job.Valid() && k <= |job.segs| && forall l :: 0 <= l < k ==> !Covers(job.segs[l], a)
    ensures ImageByte(job, k, a, d) == d
  {
    if k > 0 {
      ImageOfNone(job, k - 1, a, d);
    }
  }

  /** The table maps the program's pages and no others. */
  lemma MapsItsPages(job: Job, s: Snap, root: nat, a: nat)
    requires Complete(job, s, root)
    ensures IsMapped(s.mem, root, a) <==> PageNo(a) in ProgramPages(job.segs)
  {
    ProgressMaps(job, s, root, ProgramPages(job.segs), |job.segs|);
    AddressMapped(s.mem, root, ProgramPages(job.segs), a);
  }

  lemma HoldsImage(job: Job, s: Snap, root: nat, a: nat)
    requires Complete(job, s, root) && PageNo(a) in ProgramPages(job.segs)
    ensures job.Valid()
    ensures var p := Translate(s.Links(), root, a / Sv39.PGSIZE);
      p.Some? && InPool(p.value) && VirtualByte(s.mem, root, a) ==
        Some(ImageByte(job, |job.segs|, a, ByteAt(job.start.mem, p.value, a % Sv39.PGSIZE)))
  {
    MapsItsPages(job, s, root, a);
    OpenLoading(SEAL, job, s, root, ProgramPages(job.segs), |job.segs|);
  }

  /** A mapped address holds the file byte of the last segment over it. */
  lemma HoldsFileByte(job: Job, s: Snap, root: nat, a: nat, j: nat)
    requires Complete(job, s, root) && PageNo(a) in ProgramPages(job.segs)
    requires LastCovering(job.segs, |job.segs|, j, a)
    ensures |job.disk.disk| == DISKSIZE
    ensures var from := job.extent.startBlock * 1024
        + (job.extent.startOff + job.segs[j].off) % 0x1_0000_0000_0000_0000
        + (a - job.segs[j].vaddr) % 0x80_0000_0000;
      from < 1024000 && VirtualByte(s.mem, root, a) == Some(FlatByte(job.disk, from))
  {
    hide LoadingAt, VirtualByte, FlatByte, FileStart, ImageByte, ProgramPages;
    FileStartIs(job.extent, job.segs[j]);
    HoldsImage(job, s, root, a);
    var p := Translate(s.Links(), root, a / Sv39.PGSIZE).value;
    ImageOfLast(job, |job.segs|, j, a, ByteAt(job.start.mem, p, a % Sv39.PGSIZE));
  }

  /** Where no segment has file bytes, a mapped address holds what its physical
      page held before the load: nothing between a segment's file size and its
      memory size is zeroed, nor is the stack. */
  lemma HoldsOldByte(job: Job, s: Snap, root: nat, a: nat)
    requires Complete(job, s, root) && PageNo(a) in ProgramPages(job.segs)
    requires forall l :: 0 <= l < |job.segs| ==> !Covers(job.segs[l], a)
    ensures var p := Translate(s.Links(), root, a / Sv39.PGSIZE);
      p.Some? && InPool(p.value) && VirtualByte(s.mem, root, a) == Some(ByteAt(job.start.mem, p.value, a % Sv39.PGSIZE))
  {
    HoldsImage(job, s, root, a);
    var p := Translate(s.Links(), root, a / Sv39.PGSIZE).value;
    ImageOfNone(job, |job.segs|, a, ByteAt(job.start.mem, p, a % Sv39.PGSIZE));
  }

  /** The other address spaces read as before. */
  lemma OthersUntouched(job: Job, s: Snap, root: nat, t: nat, a: nat)
    requires Complete(job, s, root) && RoleOf(job.start.roles, t).Root?
    ensures t != root && VirtualByte(s.mem, t, a) == VirtualByte(job.start.mem, t, a)
  {
    OpenLoading(SEAL, job, s, root, ProgramPages(job.segs), |job.segs|);
  }

  /** The load took exactly the pages the program costs. */
  lemma PagesTaken(job: Job, s: Snap, root: nat)
    requires Complete(job, s, root)
    ensures Cost(ProgramPages(job.segs)) <= |job.start.stack|
        && s.stack == job.start.stack[Cost(ProgramPages(job.segs))..]
  {
    OpenLoading(SEAL, job, s, root, ProgramPages(job.segs), |job.segs|);
  }

  // Well-placed programs
  // --------------------

  /** Segments below the last two of the 2^27 virtual pages. */
  ghost predicate RoomForStack(segs: seq<Segment>) {
    forall k :: 0 <= k < |segs| ==> segs[k].vaddr + segs[k].memsz <= VSPACE - 2 * Sv39.PGSIZE
  }

  ghost predicate Disjoint(segs: seq<Segment>) {
    forall i, j :: 0 <= i < j < |segs| ==>
      segs[i].vaddr + segs[i].memsz <= segs[j].vaddr || segs[j].vaddr + segs[j].memsz <= segs[i].vaddr
  }

  lemma NoWrapAbove(a: nat, from: nat)
    requires a < VSPACE && from < VSPACE
    ensures Above(a, from) == if a >= from then a - from else a + VSPACE - from
  {
  }

  lemma {:induction false} BelowStack(segs: seq<Segment>, k: nat, j: nat)
    requires j < k <= |segs| && RoomForStack(segs)
    ensures segs[j].vaddr + segs[j].memsz <= StackBegin(segs, k) * Sv39.PGSIZE
    ensures StackBegin(segs, k) <= Sv39.VPAGES - 2
  {
    assert segs[k - 1].vaddr + segs[k - 1].memsz <= VSPACE - 2 * Sv39.PGSIZE;
    RoundUp(segs[k - 1].vaddr + segs[k - 1].memsz);
    if j < k - 1 {
      BelowStack(segs, k - 1, j);
    } else if k - 1 > 0 {
      BelowStack(segs, k - 1, k - 2);
    }
  }

  lemma RoundUp(e: nat)
    requires e <= VSPACE - 2 * Sv39.PGSIZE
    ensures e % TWO64 == e && e <= CeilDiv(e, Sv39.PGSIZE) * Sv39.PGSIZE < e + Sv39.PGSIZE
    ensures CeilDiv(e, Sv39.PGSIZE) <= Sv39.VPAGES - 2
  {
  }

  lemma LowPage(a: nat, sb: nat)
    requires a < sb * Sv39.PGSIZE && sb <= Sv39.VPAGES
    ensures PageNo(a) < sb
  {
  }

  lemma {:induction false} PagesBelow(vaddr: nat, n: nat, sb: nat, v: nat)
    requires vaddr + n <= sb * Sv39.PGSIZE && sb <= Sv39.VPAGES && v in PagesOf(vaddr, n)
    ensures v < sb
  {
    if v == PageNo(vaddr + (n - 1)) {
      LowPage(vaddr + (n - 1), sb);
    } else {
      PagesBelow(vaddr, n - 1, sb, v);
    }
  }

  lemma {:induction false} SegmentsBelowStack(segs: seq<Segment>, k: nat, v: nat)
    requires k <= |segs| && RoomForStack(segs) && v in SegmentPages(segs, k)
    ensures v < StackBegin(segs, |segs|)
  {
    var s := segs[k - 1];
    if v in PagesOf(s.vaddr, s.memsz) {
      BelowStack(segs, |segs|, k - 1);
      PagesBelow(s.vaddr, s.memsz, StackBegin(segs, |segs|), v);
    } else {
      SegmentsBelowStack(segs, k - 1, v);
    }
  }

  lemma StackFits(segs: seq<Segment>)
    requires segs != [] && RoomForStack(segs)
    ensures StackBegin(segs, |segs|) <= Sv39.VPAGES - 2
    ensures Stack0(StackBegin(segs, |segs|)) == StackBegin(segs, |segs|)
    ensures Stack1(StackBegin(segs, |segs|)) == StackBegin(segs, |segs|) + 1
  {
    BelowStack(segs, |segs|, |segs| - 1);
  }

  /** With room for it, the stack lies above every segment, so that neither
      stack page is "already given", and its top is where the two pages end. */
  lemma StackAbove(segs: seq<Segment>)
    requires segs != [] && RoomForStack(segs)
    ensures StackClear(segs)
    ensures forall v :: v in SegmentPages(segs, |segs|) ==>
      v < Stack0(StackBegin(segs, |segs|)) < Stack1(StackBegin(segs, |segs|))
    ensures StackTop(StackBegin(segs, |segs|)) == (StackBegin(segs, |segs|) + 2) * Sv39.PGSIZE <= VSPACE
  {
    StackFits(segs);
    forall v | v in SegmentPages(segs, |segs|) ensures v < StackBegin(segs, |segs|) {
      SegmentsBelowStack(segs, |segs|, v);
    }
    StackTopIs(StackBegin(segs, |segs|));
  }

  lemma StackTopIs(sb: nat)
    requires sb <= Sv39.VPAGES - 2
    ensures StackTop(sb) == (sb + 2) * Sv39.PGSIZE <= VSPACE
  {
    Powers();
    NoWrap(sb * Sv39.PGSIZE);
    NoWrap((sb + 2) * Sv39.PGSIZE);
  }

  lemma {:induction false} SegmentPagesHas(segs: seq<Segment>, k: nat, j: nat, i: nat)
    requires j < k <= |segs| && i < segs[j].memsz
    ensures PageNo(segs[j].vaddr + i) in SegmentPages(segs, k)
  {
    if j < k - 1 {
      SegmentPagesHas(segs, k - 1, j, i);
    } else {
      PagesOfHas(segs[j].vaddr, segs[j].memsz, i);
    }
  }

  lemma OnlyCover(segs: seq<Segment>, j: nat, i: nat)
    requires j < |segs| && i < segs[j].filesz && RoomForStack(segs) && Disjoint(segs)
    requires forall k :: 0 <= k < |segs| ==> ValidSegment(segs[k])
    ensures Above(segs[j].vaddr + i, segs[j].vaddr) == i
    ensures LastCovering(segs, |segs|, j, segs[j].vaddr + i)
  {
    var a := segs[j].vaddr + i;
    NoWrapAbove(a, segs[j].vaddr);
    forall l | j < l < |segs| ensures !Covers(segs[l], a) {
      NoWrapAbove(a, segs[l].vaddr);
    }
  }

  /** Every byte of every segment of a well-placed program is the byte of the
      file, read through the page table. */
  lemma SegmentsLoaded(job: Job, s: Snap, root: nat, j: nat, i: nat)
    requires Complete(job, s, root) && RoomForStack(job.segs) && Disjoint(job.segs)
    requires j < |job.segs| && i < job.segs[j].filesz
    ensures |job.disk.disk| == DISKSIZE
    ensures var from := job.extent.startBlock * 1024
        + (job.extent.startOff + job.segs[j].off) % 0x1_0000_0000_0000_0000 + i;
      from < 1024000 && VirtualByte(s.mem, root, job.segs[j].vaddr + i) == Some(FlatByte(job.disk, from))
  {
    hide LoadingAt, SegmentPages, RoomForStack, Disjoint, LastCovering, PageNo, VirtualByte, FlatByte, FileStart;
    var a := job.segs[j].vaddr + i;
    JobValid(job, s, root);
    OnlyCover(job.segs, j, i);
    SegmentPagesHas(job.segs, |job.segs|, j, i);
    HoldsFileByte(job, s, root, a, j);
  }

  /** An offset that does not wrap counts from the first byte of the file. */
  lemma SegmentBytes(job: Job, s: Snap, root: nat, j: nat, i: nat)
    requires Complete(job, s, root) && RoomForStack(job.segs) && Disjoint(job.segs)
    requires j < |job.segs| && i < job.segs[j].filesz
    requires job.extent.startOff + job.segs[j].off < 0x1_0000_0000_0000_0000
    ensures |job.disk.disk| == DISKSIZE
    ensures var from := job.extent.startBlock * 1024 + job.extent.startOff + job.segs[j].off + i;
      from < 1024000 && VirtualByte(s.mem, root, job.segs[j].vaddr + i) == Some(FlatByte(job.disk, from))
  {
    hide LoadingAt, RoomForStack, Disjoint, VirtualByte, FlatByte;
    NoWrap(job.extent.startOff + job.segs[j].off);
    SegmentsLoaded(job, s, root, j, i);
  }

  lemma JobValid(job: Job, s: Snap, root: nat)
    requires Complete(job, s, root)
    ensures job.Valid()
  {
    OpenLoading(SEAL, job, s, root, ProgramPages(job.segs), |job.segs|);
  }

  /** All of every segment is mapped, its file's share and the rest. */
  lemma SegmentsMapped(job: Job, s: Snap, root: nat, j: nat, i: nat)
    requires Complete(job, s, root) && j < |job.segs| && i < job.segs[j].memsz
    ensures IsMapped(s.mem, root, job.segs[j].vaddr + i)
  {
    SegmentPagesHas(job.segs, |job.segs|, j, i);
    MapsItsPages(job, s, root, job.segs[j].vaddr + i);
  }

  lemma TopPages(sb: nat, a: nat)
    requires sb <= Sv39.VPAGES - 2 && sb * Sv39.PGSIZE <= a < (sb + 2) * Sv39.PGSIZE
    ensures PageNo(a) == sb || PageNo(a) == sb + 1
  {
  }

  /** The two pages below the stack pointer are mapped. */
  lemma StackMapped(job: Job, s: Snap, root: nat, a: nat)
    requires Complete(job, s, root) && RoomForStack(job.segs) && job.segs != []
    requires var top := StackTop(StackBegin(job.segs, |job.segs|)); top - 2 * Sv39.PGSIZE <= a < top
    ensures IsMapped(s.mem, root, a)
  {
    hide LoadingAt, StackBegin, SegmentPages, RoomForStack, StackTop, PageNo;
    StackFits(job.segs);
    StackTopIs(StackBegin(job.segs, |job.segs|));
    TopPages(StackBegin(job.segs, |job.segs|), a);
    MapsItsPages(job, s, root, a);
  }

  /** A well-placed program whose bytes are on the disk is refused only for
      want of pages: exactly when it costs more than there are. */
  lemma OnlyPagesCanBeMissing(job: Job, f: Fault)
    requires job.segs != [] && RoomForStack(job.segs) && FilesInRange(job.extent, job.segs)
    ensures CanLoad(job) <==> Cost(ProgramPages(job.segs)) <= |job.start.stack|
    ensures LoadFails(job, f) ==> f == NoFreePage && Cost(ProgramPages(job.segs)) > |job.start.stack|
  {
    StackAbove(job.segs);
    CanLoadMeans(job);
    LoadFailsMeans(job, f);
  }

  // From the file to the address space
  // ----------------------------------

  /** Of a file whose program headers are at `off` from its first block: each
      byte of each LOAD header's part of the file is at the address that the
      header gives it. All numbers are read from the disk; header h is at disk
      byte a. */
  lemma ProgramLoaded(job: Job, s: Snap, root: nat, off: int, h: nat, a: nat, i: nat)
    requires |job.disk.disk| == DISKSIZE && HasHeader(job.disk, job.extent)
    requires Place(job.extent, Word(job.disk, FileByte(job.extent) + 32, 8), off)
    requires h < Word(job.disk, FileByte(job.extent) + 56, 2) && a == job.extent.startBlock * 1024 + off + 56 * h
    requires a + 56 <= 1024000 && Word(job.disk, a, 4) == 1 && i < Word(job.disk, a + 32, 8)
    requires job.extent.startOff + Word(job.disk, a + 8, 8) < 0x1_0000_0000_0000_0000
    requires job.segs == Elf.Result(job.disk, job.extent) != []
    requires Complete(job, s, root) && RoomForStack(job.segs) && Disjoint(job.segs)
    ensures job.extent.startBlock * 1024 + job.extent.startOff + Word(job.disk, a + 8, 8) + i < 1024000
    ensures VirtualByte(s.mem, root, Word(job.disk, a + 16, 8) + i) ==
      Some(FlatByte(job.disk, job.extent.startBlock * 1024 + job.extent.startOff + Word(job.disk, a + 8, 8) + i))
  {
    hide LoadingAt, RoomForStack, Disjoint, VirtualByte, FlatByte, Word, Place, AllGood, Elf.Result;
    var idx := ResultIs(job.disk, job.extent, off);
    assert HeaderByte(job.extent, off, h) == a;
    assert h in idx;
    var j :| 0 <= j < |idx| && idx[j] == h;
    assert Describes(job.disk, HeaderByte(job.extent, off, idx[j]), job.segs[j]);
    SegmentBytes(job, s, root, j, i);
  }

  /** The process starts at the address in the file header. */
  lemma EntryPoint(pt: PageTables, d: ProcessDescriptor, job: Job)
    requires Loaded(pt, d, job)
    ensures |job.disk.disk| == DISKSIZE && job.extent.startBlock * 1024 + job.extent.startOff + 64 <= 1024000
    ensures d.epc == Word(job.disk, job.extent.startBlock * 1024 + job.extent.startOff + 24, 8)
  {
    hide Working, Word, HeaderOf;
    HeaderIs(job.disk, job.extent);
  }

  // The stack
  // ---------

  /** The stack begins on the first page that lies above every segment. */
  lemma {:induction false} StackLeast(segs: seq<Segment>, k: nat, n: nat)
    requires k <= |segs|
    requires forall i :: 0 <= i < k ==> segs[i].vaddr + segs[i].memsz + 4095 < 0x1_0000_0000_0000_0000
    ensures StackBegin(segs, k) <= n <==> forall i :: 0 <= i < k ==> segs[i].vaddr + segs[i].memsz <= 4096 * n
  {
    if k > 0 {
      StackLeast(segs, k - 1, n);
      PagesUpTo(segs[k - 1].vaddr + segs[k - 1].memsz, n);
    }
  }

  lemma PagesUpTo(e: nat, n: nat)
    requires e + 4095 < 0x1_0000_0000_0000_0000
    ensures CeilDiv(e % TWO64, Sv39.PGSIZE) <= n <==> e <= 4096 * n
  {
    NoWrap(e);
    NoWrap(e + 4095);
  }

  /** The stack pointer is two pages above the first page that no segment reaches. */
  lemma StackPointer(segs: seq<Segment>, n: nat)
    requires RoomForStack(segs) && forall i :: 0 <= i < |segs| ==> segs[i].vaddr + segs[i].memsz <= 4096 * n
    requires exists i :: 0 <= i < |segs| && segs[i].vaddr + segs[i].memsz + 4096 > 4096 * n
    ensures StackTop(StackBegin(segs, |segs|)) == 4096 * (n + 2)
  {
    hide StackBegin, StackTop, CeilDiv;
    StackLeast(segs, |segs|, n);
    if n > 0 {
      StackLeast(segs, |segs|, n - 1);
    }
    StackFits(segs);
    StackTopIs(StackBegin(segs, |segs|));
  }

  // What is mapped
  // --------------

  /** Address a is in a page that holds a byte of segment s, which starts a page. */
  ghost predicate OnSegment(s: Segment, a: nat) {
    s.vaddr <= a && a - a % 4096 < s.vaddr + s.memsz
  }

  lemma OnPages(s: Segment, a: nat)
    requires s.vaddr % 4096 == 0 && s.vaddr + s.memsz <= VSPACE && a < VSPACE
    ensures PageNo(a) in PagesOf(s.vaddr, s.memsz) <==> OnSegment(s, a)
  {
    hide PagesOf;
    PagesAligned(s.vaddr, s.memsz, PageNo(a));
    var p, v := a / 4096, s.vaddr / 4096;
    assert PageNo(a) == p;
    assert PagesAbove(p, v) == if p >= v then p - v else p - v + 0x800_0000;
  }

  lemma {:induction false} OnSegmentPages(segs: seq<Segment>, k: nat, a: nat)
    requires k <= |segs| && RoomForStack(segs) && a < VSPACE
    requires forall i :: 0 <= i < |segs| ==> ValidSegment(segs[i])
    ensures PageNo(a) in SegmentPages(segs, k) <==> exists i :: 0 <= i < k && OnSegment(segs[i], a)
  {
    hide PagesOf, PageNo, OnSegment;
    if k > 0 {
      OnSegmentPages(segs, k - 1, a);
      OnPages(segs[k - 1], a);
    }
  }

  /** The addresses that a well-placed program can use: the pages of its
      segments, and the two pages below the stack pointer. */
  lemma MappedIs(job: Job, s: Snap, root: nat, a: nat)
    requires Complete(job, s, root) && RoomForStack(job.segs) && job.segs != [] && a < 0x80_0000_0000
    ensures IsMapped(s.mem, root, a) <==>
      || (exists i :: 0 <= i < |job.segs| && OnSegment(job.segs[i], a))
      || (var top := StackTop(StackBegin(job.segs, |job.segs|)); top - 8192 <= a < top)
  {
    hide LoadingAt, StackBegin, SegmentPages, RoomForStack, StackTop, IsMapped, OnSegment;
    JobValid(job, s, root);
    StackFits(job.segs);
    StackTopIs(StackBegin(job.segs, |job.segs|));
    OnSegmentPages(job.segs, |job.segs|, a);
    MapsItsPages(job, s, root, a);
  }

  /** The entry of every mapped page, in directory d, is valid and allows the
      process to read, write and execute; it has no other flag. */
  lemma AccessIs(job: Job, s: Snap, root: nat, a: nat) returns (d: nat)
    requires Complete(job, s, root) && IsMapped(s.mem, root, a)
    ensures Level0Of(s.Links(), root, Sv39.PathOf(a / 4096)) == Some(d) && IsSlot(d, a / 4096 % 512)
    ensures forall j :: 0 <= j < 10 ==> (Bit(At(s.mem, d, a / 4096 % 512), j) <==> j <= 3)
  {
    hide Bit, Sv39.NewEntry;
    var x := Sv39.PathOf(a / 4096);
    AllAccess(job, s, root, x);
    var p := Walk(s.Links(), root, x).value;
    d := Level0Of(s.Links(), root, x).value;
    forall j | 0 <= j < 10 ensures Bit(At(s.mem, d, a / 4096 % 512), j) <==> j <= 3 {
      Sv39.NewEntryFlags(p, true, true, true, j);
    }
  }

  lemma AllAccess(job: Job, s: Snap, root: nat, x: Sv39.Path)
    requires Complete(job, s, root) && Walk(s.Links(), root, x).Some?
    ensures EntryAt(s.mem, root, x, Sv39.NewEntry(Walk(s.Links(), root, x).value, true, true, true))
  {
    hide EntryAt, Sv39.NewEntry, LinksOf;
    OpenLoading(SEAL, job, s, root, ProgramPages(job.segs), |job.segs|);
  }
}
