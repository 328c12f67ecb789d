/** What memory holds while a program is being loaded, and what that means for
    the loaded program. */
module ProgramImage {
  import opened Bits
  import opened CacheSpec
  import opened DiskBytes
  import opened Elf
  import opened Halting
  import opened PageBudget
  import opened PageTree
  import opened Paging
  import opened PhysMem
  import opened Seal
  import opened VirtualIO
  import opened VirtualMemory
  import Sv39

  /** Memory, the use of its pages, and the free ones, next to be popped first. */
  datatype Snap = Snap(mem: Mem, roles: Roles, stack: seq<nat>) {
    ghost function Links(): PhysMem.Links {
      LinksOf(mem)
    }
  }

  /** What is loaded, and from what state. */
  datatype Job = Job(start: Snap, disk: Cache, extent: Extent, segs: seq<Segment>) {
    ghost predicate Valid() {
      && |disk.disk| == DISKSIZE
      && |start.stack| <= NUM_PAGES
      && TreeInv(start.Links(), start.roles)
      && forall k :: 0 <= k < |segs| ==> ValidSegment(segs[k])
    }
  }

  /** Position in the file of a segment's bytes, from the start of the block the file starts in. */
  function FileOffset(x: Extent, s: Segment): uint64 {
    (s.off + x.startOff) % TWO64
  }

  /** Disk byte that a segment starts at. */
  function FileStart(x: Extent, s: Segment): nat {
    x.startBlock * BSIZE + FileOffset(x, s)
  }

  ghost predicate FileInRange(x: Extent, s: Segment) {
    InRange(x.startBlock + FileOffset(x, s) / BSIZE, FileOffset(x, s) % BSIZE, s.filesz)
  }

  lemma FileBlock(x: Extent, s: Segment)
    ensures (x.startBlock + FileOffset(x, s) / BSIZE) * BSIZE + FileOffset(x, s) % BSIZE == FileStart(x, s)
  {
  }

  /** The byte at address a comes from the file. */
  ghost predicate Covers(s: Segment, a: nat) {
    Above(a, s.vaddr) < s.filesz
  }

  /** The byte at address a with the first k segments loaded, the later over
      the earlier, where it was d before. */
  ghost function ImageByte(job: Job, k: nat, a: nat, d: byte): byte
    requires job.Valid() && k <= |job.segs|
  {
    if k == 0 then d
    else
      var s := job.segs[k - 1];
      var from := FileStart(job.extent, s) + Above(a, s.vaddr);
      if Covers(s, a) && from < DISKBYTES then FlatByte(job.disk, from) else ImageByte(job, k - 1, a, d)
  }

  /** Virtual pages of the first k segments. */
  ghost function SegmentPages(segs: seq<Segment>, k: nat): set<nat>
    requires k <= |segs|
  {
    if k == 0 then {} else SegmentPages(segs, k - 1) + PagesOf(segs[k - 1].vaddr, segs[k - 1].memsz)
  }

  lemma {:induction false} SegmentPagesGrow(segs: seq<Segment>, k: nat, n: nat)
    requires k <= n <= |segs|
    ensures SegmentPages(segs, k) <= SegmentPages(segs, n)
  {
    if k < n {
      SegmentPagesGrow(segs, k, n - 1);
    }
  }

  lemma SamePage(a: nat, b: nat)
    requires a % VSPACE == b % VSPACE
    ensures PageNo(a) == PageNo(b) && a % Sv39.PGSIZE == b % Sv39.PGSIZE
  {
    SplitAddress(a);
    SplitAddress(b);
  }

  lemma CoversPage(s: Segment, a: nat, n: nat)
    requires Above(a, s.vaddr) < n
    ensures PageNo(a) in PagesOf(s.vaddr, n)
  {
    var d := Above(a, s.vaddr);
    AboveIs(a, s.vaddr, d);
    SamePage(a, s.vaddr + d);
    PagesOfHas(s.vaddr, n, d);
  }

  /** Nothing is loaded outside the segments' pages. */
  lemma {:induction false} OutsideImage(job: Job, k: nat, a: nat, d: byte)
    requires job.Valid() && k <= |job.segs| && PageNo(a) !in SegmentPages(job.segs, k)
    ensures ImageByte(job, k, a, d) == d
  {
    if k > 0 {
      var s := job.segs[k - 1];
      if Covers(s, a) {
        CoversPage(s, a, s.filesz);
        PagesOfGrow(s.vaddr, s.filesz, s.memsz);
      }
      OutsideImage(job, k - 1, a, d);
    }
  }

  // Clean pages
  // -----------

  /** The pages that become directories when page v is mapped after `pages`
      hold no word that looks like a valid entry. The page popped before them
      and the one after them may hold anything. */
  ghost predicate PageClean(job: Job, pages: set<nat>, v: nat) {
    v !in pages ==>
      BlankNext(job.start.Links(), job.start.stack, Cost(pages) + 1, NewDirs(pages, Sv39.PathOf(v)))
  }

  /** The same for address i of segment k. */
  ghost predicate AddressClean(job: Job, k: nat, i: nat)
    requires k < |job.segs|
  {
    var s := job.segs[k];
    PageClean(job, SegmentPages(job.segs, k) + PagesOf(s.vaddr, i), PageNo(s.vaddr + i))
  }

  ghost predicate SegmentClean(job: Job, k: nat)
    requires k < |job.segs|
  {
    forall i: nat :: i < job.segs[k].memsz ==> AddressClean(job, k, i)
  }

  lemma PoolCleanPage(job: Job, pages: set<nat>, v: nat)
    requires StackHoldsFree(job.start.stack, job.start.roles)
    requires CleanPages(job.start.Links(), job.start.roles)
    ensures PageClean(job, pages, v)
  {
    forall k: nat | k < |job.start.stack| ensures Blank(job.start.Links(), job.start.stack[k]) {
      assert job.start.stack[k] in job.start.stack;
    }
  }

  lemma PoolCleanSegment(job: Job, k: nat)
    requires StackHoldsFree(job.start.stack, job.start.roles) && k < |job.segs|
    requires CleanPages(job.start.Links(), job.start.roles)
    ensures SegmentClean(job, k)
  {
    var s := job.segs[k];
    forall i: nat | i < s.memsz ensures AddressClean(job, k, i) {
      PoolCleanPage(job, SegmentPages(job.segs, k) + PagesOf(s.vaddr, i), PageNo(s.vaddr + i));
    }
  }

  // State of the load
  // -----------------

  /** n pages have been popped. */
  ghost predicate Popped(s: Snap, s': Snap, n: nat) {
    n <= |s.stack| && s'.stack == s.stack[n..]
  }

  /** Tables that were there at the start read as they did, and free pages are
      as they were. */
  ghost predicate OthersAlone(s0: Snap, s: Snap) {
    && (forall t: nat :: RoleOf(s0.roles, t).Root? ==> RoleOf(s.roles, t).Root?)
    && (forall t: nat, a: nat :: RoleOf(s0.roles, t).Root? ==> VirtualByte(s.mem, t, a) == VirtualByte(s0.mem, t, a))
    && (forall p: nat, i: nat :: IsSlot(p, i) && RoleOf(s.roles, p).Free? ==> At(s.mem, p, i) == At(s0.mem, p, i))
  }

  /** Every mapped address of the new table holds its byte of the program, or
      what its physical page held before the load. */
  ghost predicate Holds(job: Job, s: Snap, root: nat, k: nat)
    requires job.Valid() && k <= |job.segs|
  {
    forall a: nat :: Translate(s.Links(), root, a / Sv39.PGSIZE).Some? ==>
      var p := Translate(s.Links(), root, a / Sv39.PGSIZE).value;
      InPool(p) && VirtualByte(s.mem, root, a) ==
        Some(ImageByte(job, k, a, ByteAt(job.start.mem, p, a % Sv39.PGSIZE)))
  }

  /** Every page that the table maps may be read, written and executed. */
  ghost predicate FullAccess(s: Snap, root: nat) {
    forall y: Sv39.Path :: Walk(s.Links(), root, y).Some? ==>
      EntryAt(s.mem, root, y, Sv39.NewEntry(Walk(s.Links(), root, y).value, true, true, true))
  }

  lemma FullAccessNext(s: Snap, s': Snap, root: nat, x: Sv39.Path, q: nat)
    requires TreeInv(s.Links(), s.roles) && RoleOf(s.roles, root).Root? && KeepsEntries(s.mem, s.roles, s'.mem)
    requires FullAccess(s, root) && AddsPage(s.Links(), s'.Links(), s.roles, root, x, q)
    requires EntryAt(s'.mem, root, x, Sv39.NewEntry(q, true, true, true))
    ensures FullAccess(s', root)
  {
    hide TreeInv, KeepsEntries, EntryAt, LinksOf, Sv39.NewEntry;
    forall y: Sv39.Path | Walk(s'.Links(), root, y).Some?
      ensures EntryAt(s'.mem, root, y, Sv39.NewEntry(Walk(s'.Links(), root, y).value, true, true, true))
    {
      if y != x {
        EntryKept(s.mem, s.roles, s'.mem, root, y,
                  Sv39.NewEntry(Walk(s.Links(), root, y).value, true, true, true));
      }
    }
  }

  lemma FullAccessFilled(s: Snap, s': Snap, root: nat, from: nat, c: Cache, start: nat, n: nat)
    requires FullAccess(s, root) && Filled(s.mem, s'.mem, s.roles, root, from, c, start, n)
    ensures FullAccess(s', root)
  {
    hide TreeInv, EntryAt, LinksOf, Sv39.NewEntry, VirtualByte, CleanPages, Sv39.IsValidEntry;
    forall y: Sv39.Path | Walk(s'.Links(), root, y).Some?
      ensures EntryAt(s'.mem, root, y, Sv39.NewEntry(Walk(s'.Links(), root, y).value, true, true, true))
    {
      EntryKept(s.mem, s.roles, s'.mem, root, y, Sv39.NewEntry(Walk(s.Links(), root, y).value, true, true, true));
    }
  }

  /** The first k segments are loaded into table `root`, which maps these pages. */
  ghost predicate Loading(job: Job, s: Snap, root: nat, pages: set<nat>, k: nat) {
    && job.Valid() && k <= |job.segs|
    && TreeInv(s.Links(), s.roles)
    && RoleOf(s.roles, root).Root? && RoleOf(job.start.roles, root).Free?
    && OthersAlone(job.start, s)
    && Tight(s.Links(), root, pages)
    && Cost(pages) <= |job.start.stack| && s.stack == job.start.stack[Cost(pages)..]
    && SegmentPages(job.segs, k) <= pages
    && Holds(job, s, root, k)
    && FullAccess(s, root)
  }

  lemma ByteKept(m: Mem, m': Mem, p: nat, o: nat)
    requires InPool(p) && o < Sv39.PGSIZE
    requires forall i: nat :: IsSlot(p, i) ==> At(m', p, i) == At(m, p, i)
    ensures ByteAt(m', p, o) == ByteAt(m, p, o)
  {
    assert IsSlot(p, o / 8);
  }

  /** A table whose translations stay reads the same. */
  lemma TableKept(s: Snap, s': Snap, t: nat, a: nat)
    requires TreeInv(s.Links(), s.roles) && DirectoriesOnly(s.mem, s.roles, s'.mem, s'.roles)
        && RoleOf(s.roles, t).Root?
    requires Translate(s'.Links(), t, a / Sv39.PGSIZE) == Translate(s.Links(), t, a / Sv39.PGSIZE)
    ensures VirtualByte(s'.mem, t, a) == VirtualByte(s.mem, t, a)
  {
    var p := Translate(s.Links(), t, a / Sv39.PGSIZE);
    if p.Some? {
      MappedInPool(s.mem, s.roles, t, a / Sv39.PGSIZE);
      ByteKept(s.mem, s'.mem, p.value, a % Sv39.PGSIZE);
    }
  }

  lemma LoadStart(job: Job, s: Snap, root: nat)
    requires job.Valid() && TreeInv(s.Links(), s.roles)
    requires RoleOf(job.start.roles, root).Free? && s.roles == job.start.roles[root := Root]
    requires forall j: nat :: (root, j) !in s.Links()
    requires SameSpaces(job.start.Links(), s.Links(), job.start.roles)
    requires DirectoriesOnly(job.start.mem, job.start.roles, s.mem, s.roles)
    requires job.start.stack != [] && s.stack == job.start.stack[1..]
    ensures Loading(job, s, root, {}, 0)
  {
    TightEmpty(s.Links(), root);
    forall t: nat, a: nat | RoleOf(job.start.roles, t).Root?
      ensures VirtualByte(s.mem, t, a) == VirtualByte(job.start.mem, t, a)
    {
      TableKept(job.start, s, t, a);
    }
  }

  /** Another page is mapped. */
  lemma OthersAloneNext(s0: Snap, s: Snap, s': Snap, root: nat, v: nat, q: nat)
    requires TreeInv(s.Links(), s.roles) && OthersAlone(s0, s) && DirectoriesOnly(s.mem, s.roles, s'.mem, s'.roles)
    requires RoleOf(s0.roles, root).Free?
    requires AddsPage(s.Links(), s'.Links(), s.roles, root, Sv39.PathOf(v), q)
    ensures OthersAlone(s0, s')
  {
    forall t: nat, a: nat | RoleOf(s0.roles, t).Root?
      ensures VirtualByte(s'.mem, t, a) == VirtualByte(s0.mem, t, a)
    {
      TableKept(s, s', t, a);
    }
  }

  lemma LoadingValid(job: Job, s: Snap, root: nat, pages: set<nat>, k: nat)
    requires Loading(job, s, root, pages, k)
    ensures job.Valid() && k <= |job.segs|
  {
  }

  lemma HoldsNext(job: Job, s: Snap, s': Snap, root: nat, pages: set<nat>, k: nat, v: nat, q: nat, a: nat)
    requires Loading(job, s, root, pages, k) && v % Sv39.VPAGES !in pages
    requires TreeInv(s'.Links(), s'.roles) && DirectoriesOnly(s.mem, s.roles, s'.mem, s'.roles)
        && RoleOf(s.roles, q).Free?
    requires AddsPage(s.Links(), s'.Links(), s.roles, root, Sv39.PathOf(v), q)
    requires Translate(s'.Links(), root, a / Sv39.PGSIZE).Some?
    ensures var p := Translate(s'.Links(), root, a / Sv39.PGSIZE).value;
      InPool(p) && VirtualByte(s'.mem, root, a) ==
        Some(ImageByte(job, k, a, ByteAt(job.start.mem, p, a % Sv39.PGSIZE)))
  {
    MappedInPool(s'.mem, s'.roles, root, a / Sv39.PGSIZE);
    if Sv39.PathOf(a / Sv39.PGSIZE) == Sv39.PathOf(v) {
      Sv39.PathDetermines(a / Sv39.PGSIZE, v);
      OutsideImage(job, k, a, ByteAt(job.start.mem, q, a % Sv39.PGSIZE));
      ByteKept(s.mem, s'.mem, q, a % Sv39.PGSIZE);
      ByteKept(job.start.mem, s.mem, q, a % Sv39.PGSIZE);
    } else {
      TableKept(s, s', root, a);
    }
  }

  lemma LoadPage(job: Job, s: Snap, s': Snap, root: nat, pages: set<nat>, k: nat, v: nat, w: nat, q: nat)
    requires w == v % Sv39.VPAGES && w !in pages && Loading(job, s, root, pages, k)
    requires TreeInv(s'.Links(), s'.roles) && DirectoriesOnly(s.mem, s.roles, s'.mem, s'.roles)
        && RoleOf(s.roles, q).Free?
    requires AddsPage(s.Links(), s'.Links(), s.roles, root, Sv39.PathOf(v), q)
    requires GrowsPath(s.Links(), s'.Links(), root, Sv39.PathOf(v))
    requires KeepsEntries(s.mem, s.roles, s'.mem)
        && EntryAt(s'.mem, root, Sv39.PathOf(v), Sv39.NewEntry(q, true, true, true))
    requires Popped(s, s', MissingDirs(s.Links(), root, Sv39.PathOf(v)) + 2)
    ensures Loading(job, s', root, pages + {w}, k)
  {
    hide Holds, OthersAlone, Tight, TreeInv, AddsPage, GrowsPath, DirectoriesOnly, SegmentPages, Cost, MissingDirs,
         LinksOf, RoleOf, FullAccess, KeepsEntries, EntryAt;
    OthersAloneNext(job.start, s, s', root, v, q);
    TightNext(s.Links(), s'.Links(), s.roles, root, pages, v, q);
    TightMissing(s.Links(), root, pages, v, w);
    PoppedTwice(job.start.stack, Cost(pages), MissingDirs(s.Links(), root, Sv39.PathOf(v)) + 2);
    StillInUse(s, s', root);
    AllHoldNext(job, s, s', root, pages, k, v, q);
    FullAccessNext(s, s', root, Sv39.PathOf(v), q);
  }

  lemma StillInUse(s: Snap, s': Snap, root: nat)
    requires DirectoriesOnly(s.mem, s.roles, s'.mem, s'.roles) && RoleOf(s.roles, root).Root?
    ensures RoleOf(s'.roles, root).Root?
  {
  }

  lemma PoppedTwice(stack: seq<nat>, i: nat, n: nat)
    requires i <= |stack| && n <= |stack[i..]|
    ensures stack[i..][n..] == stack[i + n..]
  {
  }

  lemma AllHoldNext(job: Job, s: Snap, s': Snap, root: nat, pages: set<nat>, k: nat, v: nat, q: nat)
    requires Loading(job, s, root, pages, k) && v % Sv39.VPAGES !in pages
    requires TreeInv(s'.Links(), s'.roles) && DirectoriesOnly(s.mem, s.roles, s'.mem, s'.roles)
        && RoleOf(s.roles, q).Free?
    requires AddsPage(s.Links(), s'.Links(), s.roles, root, Sv39.PathOf(v), q)
    ensures Holds(job, s', root, k)
  {
    hide Loading, TreeInv, AddsPage, DirectoriesOnly, LinksOf, Translate, VirtualByte, ImageByte, ByteAt;
    LoadingValid(job, s, root, pages, k);
    forall a: nat | Translate(s'.Links(), root, a / Sv39.PGSIZE).Some?
      ensures var p := Translate(s'.Links(), root, a / Sv39.PGSIZE).value;
        InPool(p) && VirtualByte(s'.mem, root, a) ==
          Some(ImageByte(job, k, a, ByteAt(job.start.mem, p, a % Sv39.PGSIZE)))
    {
      HoldsNext(job, s, s', root, pages, k, v, q, a);
    }
  }

  lemma OthersAloneFilled(s0: Snap, s: Snap, s': Snap, root: nat, from: nat, c: Cache, start: nat, n: nat)
    requires OthersAlone(s0, s) && RoleOf(s0.roles, root).Free? && s'.roles == s.roles
    requires Filled(s.mem, s'.mem, s.roles, root, from, c, start, n)
    ensures OthersAlone(s0, s')
  {
  }

  lemma HoldsFilled(job: Job, s: Snap, s': Snap, root: nat, k: nat, a: nat)
    requires job.Valid() && k < |job.segs| && Holds(job, s, root, k)
    requires FileStart(job.extent, job.segs[k]) + job.segs[k].filesz <= DISKBYTES
    requires Filled(s.mem, s'.mem, s.roles, root, job.segs[k].vaddr, job.disk,
                    FileStart(job.extent, job.segs[k]), job.segs[k].filesz)
    requires Translate(s'.Links(), root, a / Sv39.PGSIZE).Some?
    ensures var p := Translate(s'.Links(), root, a / Sv39.PGSIZE).value;
      InPool(p) && VirtualByte(s'.mem, root, a) ==
        Some(ImageByte(job, k + 1, a, ByteAt(job.start.mem, p, a % Sv39.PGSIZE)))
  {
    var x := Sv39.PathOf(a / Sv39.PGSIZE);
    assert Walk(s'.Links(), root, x) == Walk(s.Links(), root, x);
    assert Translate(s'.Links(), root, a / Sv39.PGSIZE) == Translate(s.Links(), root, a / Sv39.PGSIZE);
  }

  /** A segment's bytes are put in place. */
  lemma LoadBytes(job: Job, s: Snap, s': Snap, root: nat, pages: set<nat>, k: nat)
    requires Loading(job, s, root, pages, k) && k < |job.segs|
    requires SegmentPages(job.segs, k + 1) <= pages
    requires s'.roles == s.roles && s'.stack == s.stack
    requires FileStart(job.extent, job.segs[k]) + job.segs[k].filesz <= DISKBYTES
    requires Filled(s.mem, s'.mem, s.roles, root, job.segs[k].vaddr, job.disk,
                    FileStart(job.extent, job.segs[k]), job.segs[k].filesz)
    ensures Loading(job, s', root, pages, k + 1)
  {
    var seg := job.segs[k];
    OthersAloneFilled(job.start, s, s', root, seg.vaddr, job.disk, FileStart(job.extent, seg), seg.filesz);
    forall a: nat | Translate(s'.Links(), root, a / Sv39.PGSIZE).Some?
      ensures var p := Translate(s'.Links(), root, a / Sv39.PGSIZE).value;
        InPool(p) && VirtualByte(s'.mem, root, a) ==
          Some(ImageByte(job, k + 1, a, ByteAt(job.start.mem, p, a % Sv39.PGSIZE)))
    {
      HoldsFilled(job, s, s', root, k, a);
    }
    TightSame(s.Links(), s'.Links(), s.roles, root, pages);
    FullAccessFilled(s, s', root, seg.vaddr, job.disk, FileStart(job.extent, seg), seg.filesz);
  }

  // Sealed
  // ------

  ghost predicate LoadingAt(n: nat, job: Job, s: Snap, root: nat, pages: set<nat>, k: nat) {
    if n == 0 then Loading(job, s, root, pages, k) else LoadingAt(n - 1, job, s, root, pages, k)
  }

  lemma {:induction false} OpenLoading(n: nat, job: Job, s: Snap, root: nat, pages: set<nat>, k: nat)
    ensures LoadingAt(n, job, s, root, pages, k) <==> Loading(job, s, root, pages, k)
  {
    if n > 0 {
      OpenLoading(n - 1, job, s, root, pages, k);
    }
  }

  /** Loading, sealed. */
  ghost predicate Progress(job: Job, s: Snap, root: nat, pages: set<nat>, k: nat) {
    LoadingAt(SEAL, job, s, root, pages, k)
  }

  lemma ProgressMaps(job: Job, s: Snap, root: nat, pages: set<nat>, k: nat)
    requires Progress(job, s, root, pages, k)
    ensures MapsExactly(s.Links(), root, pages)
  {
    OpenLoading(SEAL, job, s, root, pages, k);
  }

  lemma ProgressBytes(job: Job, s: Snap, s': Snap, root: nat, pages: set<nat>, k: nat)
    requires Progress(job, s, root, pages, k) && k < |job.segs| && job.Valid()
    requires SegmentPages(job.segs, k + 1) <= pages
    requires s'.roles == s.roles && s'.stack == s.stack
    requires FileInRange(job.extent, job.segs[k])
    requires FilledFrom(s.mem, s'.mem, s.roles, root, job.segs[k].vaddr, job.disk,
                        FileStart(job.extent, job.segs[k]), job.segs[k].filesz)
    ensures Progress(job, s', root, pages, k + 1)
  {
    var seg := job.segs[k];
    FileBlock(job.extent, seg);
    OpenLoading(SEAL, job, s, root, pages, k);
    OpenFilled(SEAL, s.mem, s'.mem, s.roles, root, seg.vaddr, job.disk, FileStart(job.extent, seg), seg.filesz);
    LoadBytes(job, s, s', root, pages, k);
    OpenLoading(SEAL, job, s', root, pages, k + 1);
  }

  lemma ProgressMissing(job: Job, s: Snap, root: nat, pages: set<nat>, k: nat, v: nat)
    requires Progress(job, s, root, pages, k)
    ensures Translate(s.Links(), root, v).Some? <==> v % Sv39.VPAGES in pages
    ensures v % Sv39.VPAGES !in pages ==>
      Cost(pages + {v % Sv39.VPAGES}) + |s.stack|
      == |job.start.stack| + MissingDirs(s.Links(), root, Sv39.PathOf(v)) + 2
  {
    OpenLoading(SEAL, job, s, root, pages, k);
    assert MapsExactly(s.Links(), root, pages);
    if v % Sv39.VPAGES !in pages {
      TightMissing(s.Links(), root, pages, v, v % Sv39.VPAGES);
    }
  }

  /** A page that is still free is blank if it was at the start. */
  lemma StillBlank(s0: Snap, s: Snap, p: nat)
    requires OthersAlone(s0, s) && RoleOf(s.roles, p).Free? && Blank(s0.Links(), p)
    ensures Blank(s.Links(), p)
  {
    LinksSpec(s0.mem);
    LinksSpec(s.mem);
    forall i: nat ensures (p, i) !in s.Links() {
      assert (p, i) !in s0.Links();
    }
  }

  lemma ProgressClean(job: Job, s: Snap, root: nat, pages: set<nat>, k: nat, v: nat)
    requires Progress(job, s, root, pages, k) && StackHoldsFree(s.stack, s.roles)
    requires PageClean(job, pages, v % Sv39.VPAGES)
    ensures BlankNext(s.Links(), s.stack, 1, MissingDirs(s.Links(), root, Sv39.PathOf(v)))
  {
    OpenLoading(SEAL, job, s, root, pages, k);
    var n := MissingDirs(s.Links(), root, Sv39.PathOf(v));
    if v % Sv39.VPAGES !in pages {
      SamePath(v);
      MissingIs(s.Links(), root, pages, Sv39.PathOf(v));
      forall d: nat | 1 <= d < 1 + n && d < |s.stack| ensures Blank(s.Links(), s.stack[d]) {
        assert s.stack[d] == job.start.stack[Cost(pages) + d] && s.stack[d] in s.stack;
        StillBlank(job.start, s, s.stack[d]);
      }
    } else {
      assert Translate(s.Links(), root, v).Some?;
    }
  }

  lemma ProgressPage(job: Job, s: Snap, s': Snap, root: nat, pages: set<nat>, k: nat, v: nat, w: nat, q: nat)
    requires w == v % Sv39.VPAGES && w !in pages && Progress(job, s, root, pages, k)
    requires TreeInv(s'.Links(), s'.roles) && DirectoriesOnly(s.mem, s.roles, s'.mem, s'.roles)
        && RoleOf(s.roles, q).Free?
    requires AddsPage(s.Links(), s'.Links(), s.roles, root, Sv39.PathOf(v), q)
    requires GrowsPath(s.Links(), s'.Links(), root, Sv39.PathOf(v))
    requires KeepsEntries(s.mem, s.roles, s'.mem)
        && EntryAt(s'.mem, root, Sv39.PathOf(v), Sv39.NewEntry(q, true, true, true))
    requires Popped(s, s', MissingDirs(s.Links(), root, Sv39.PathOf(v)) + 2)
    ensures Progress(job, s', root, pages + {w}, k)
  {
    hide Loading, TreeInv, AddsPage, GrowsPath, DirectoriesOnly, LinksOf, LoadingAt, KeepsEntries, EntryAt;
    OpenLoading(SEAL, job, s, root, pages, k);
    LoadPage(job, s, s', root, pages, k, v, w, q);
    OpenLoading(SEAL, job, s', root, pages + {w}, k);
  }

  lemma ProgressStart(job: Job, s: Snap, root: nat)
    requires job.Valid() && TreeInv(s.Links(), s.roles)
    requires RoleOf(job.start.roles, root).Free? && s.roles == job.start.roles[root := Root]
    requires forall j: nat :: (root, j) !in s.Links()
    requires SameSpaces(job.start.Links(), s.Links(), job.start.roles)
    requires DirectoriesOnly(job.start.mem, job.start.roles, s.mem, s.roles)
    requires job.start.stack != [] && s.stack == job.start.stack[1..]
    ensures Progress(job, s, root, {}, 0)
  {
    LoadStart(job, s, root);
    OpenLoading(SEAL, job, s, root, {}, 0);
  }
}
