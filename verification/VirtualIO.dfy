/** Byte transfers between the disk and virtual memory (kernel/buffer.c:148-230). */
module VirtualIO {
  import opened Bits
  import opened BufferCache
  import opened CacheSpec
  import opened DiskBytes
  import opened Halting
  import opened PageTree
  import opened Paging
  import opened PhysMem
  import opened Seal
  import opened Sv39
  import opened VirtualMemory

  /** How far address x lies above `from`, round the end of the address space. */
  ghost function Above(x: int, from: int): nat {
    (x - from) % VSPACE
  }

  /** The address spaces of `before`, with the first n bytes from disk byte
      `start` put at address `from` of table `root`. */
  ghost predicate Filled(before: Mem, after: Mem, roles: Roles, root: nat, from: nat, c: Cache, start: nat, n: nat) {
    && TreeInv(LinksOf(before), roles) && TreeInv(LinksOf(after), roles)
    && RoleOf(roles, root).Root? && |c.disk| == DISKSIZE && start + n <= DISKBYTES
    && SameSpaces(LinksOf(before), LinksOf(after), roles)
    && (CleanPages(LinksOf(before), roles) ==> CleanPages(LinksOf(after), roles))
    && (forall p: nat, i: nat :: IsSlot(p, i) && !RoleOf(roles, p).Data? ==> At(after, p, i) == At(before, p, i))
    && forall t: nat, x: nat :: RoleOf(roles, t).Root? ==>
         VirtualByte(after, t, x) ==
           if t == root && Above(x, from) < n && IsMapped(before, t, x)
           then Some(FlatByte(c, start + Above(x, from)))
           else VirtualByte(before, t, x)
  }

  lemma AboveNext(x: nat, from: nat, n: nat)
    requires n < VSPACE
    ensures Above(x, from) == n <==> x % VSPACE == (from + n) % TWO64 % VSPACE
  {
    SameLow(from + n);
    AboveIs(x, from, n);
  }

  lemma NextAddress(from: nat, n: nat)
    ensures ((from + n) % TWO64 + 1) % TWO64 == (from + (n + 1)) % TWO64
  {
  }

  lemma SameLow(a: nat)
    ensures a % TWO64 % VSPACE == a % VSPACE
  {
    var q, r := a / TWO64, a % TWO64;
    QuotientUnique(a, VSPACE, q * 0x200_0000 + r / VSPACE, r % VSPACE);
  }

  lemma AboveIs(x: nat, from: nat, n: nat)
    requires n < VSPACE
    ensures (x - from) % VSPACE == n <==> x % VSPACE == (from + n) % VSPACE
  {
    var d := (x - from) % VSPACE;
    var q := (x - from) / VSPACE;
    assert x - from == q * VSPACE + d;
    var a, b := x % VSPACE, (from + n) % VSPACE;
    var s, t := x / VSPACE, (from + n) / VSPACE;
    assert x == s * VSPACE + a && from + n == t * VSPACE + b;
    assert a - b == (q - s + t) * VSPACE + (d - n);
  }

  lemma FilledNone(m: Mem, roles: Roles, root: nat, from: nat, c: Cache, start: nat)
    requires TreeInv(LinksOf(m), roles) && RoleOf(roles, root).Root? && |c.disk| == DISKSIZE && start <= DISKBYTES
    ensures Filled(m, m, roles, root, from, c, start, 0)
  {
  }

  /** What address x of table t reads once one byte more is in place. */
  lemma FilledByte(before: Mem, mid: Mem, roles: Roles, root: nat, from: nat, c: Cache, start: nat, n: nat, a: nat,
                   t: nat, x: nat)
    requires Filled(before, mid, roles, root, from, c, start, n)
    requires a == (from + n) % TWO64 && n < VSPACE && start + n < DISKBYTES
    requires IsMapped(mid, root, a) && RoleOf(roles, t).Root?
    ensures var p := Translate(LinksOf(mid), root, a / PGSIZE).value;
      InPool(p) && VirtualByte(PutByte(mid, p, a % PGSIZE, FlatByte(c, start + n)), t, x) ==
        if t == root && Above(x, from) < n + 1 && IsMapped(before, t, x)
        then Some(FlatByte(c, start + Above(x, from)))
        else VirtualByte(before, t, x)
  {
    hide TreeInv, CleanPages, LinksOf, PathOf, PutByte, FlatByte, At, Above, ByteAt, Walk;
    MappedInPool(mid, roles, root, a / PGSIZE);
    StoreIsolated(mid, roles, root, a, FlatByte(c, start + n), t, x);
    AboveNext(x, from, n);
    SameAddress(a, x);
    SamePlace(before, mid, roles, t, x);
    SamePlace(before, mid, roles, root, a);
  }

  lemma SamePlace(before: Mem, mid: Mem, roles: Roles, t: nat, x: nat)
    requires SameSpaces(LinksOf(before), LinksOf(mid), roles) && RoleOf(roles, t).Root?
    ensures Translate(LinksOf(mid), t, x / PGSIZE) == Translate(LinksOf(before), t, x / PGSIZE)
  {
    assert Walk(LinksOf(mid), t, PathOf(x / PGSIZE)) == Walk(LinksOf(before), t, PathOf(x / PGSIZE));
  }

  /** One byte more, at the next address. */
  lemma FilledNext(before: Mem, mid: Mem, roles: Roles, root: nat, from: nat, c: Cache, start: nat, n: nat, a: nat)
    requires Filled(before, mid, roles, root, from, c, start, n)
    requires a == (from + n) % TWO64 && n < VSPACE && start + n < DISKBYTES
    requires IsMapped(mid, root, a)
    ensures var p := Translate(LinksOf(mid), root, a / PGSIZE).value;
      InPool(p) && Filled(before, PutByte(mid, p, a % PGSIZE, FlatByte(c, start + n)), roles, root, from, c, start,
                          n + 1)
  {
    hide TreeInv, CleanPages, LinksOf, FlatByte, VirtualByte, Above;
    var p := Translate(LinksOf(mid), root, a / PGSIZE).value;
    var b := FlatByte(c, start + n);
    MappedInPool(mid, roles, root, a / PGSIZE);
    var after := PutByte(mid, p, a % PGSIZE, b);
    StoreKeepsTree(mid, roles, p, a % PGSIZE, b);
    forall t: nat, x: nat | RoleOf(roles, t).Root?
      ensures VirtualByte(after, t, x) ==
              if t == root && Above(x, from) < n + 1 && IsMapped(before, t, x)
              then Some(FlatByte(c, start + Above(x, from)))
              else VirtualByte(before, t, x)
    {
      FilledByte(before, mid, roles, root, from, c, start, n, a, t, x);
    }
  }

  lemma StartFilled(m: Mem, roles: Roles, root: nat, from: nat, c: Cache, start: nat)
    requires TreeInv(LinksOf(m), roles) && RoleOf(roles, root).Root? && |c.disk| == DISKSIZE
    ensures start <= DISKBYTES ==> FilledFrom(m, m, roles, root, from, c, start, 0)
  {
    if start <= DISKBYTES {
      FilledNone(m, roles, root, from, c, start);
      OpenFilled(SEAL, m, m, roles, root, from, c, start, 0);
    }
  }

  // Sealed
  // ------

  ghost predicate FilledAt(k: nat, before: Mem, after: Mem, roles: Roles, root: nat, from: nat, c: Cache, start: nat,
                           n: nat) {
    if k == 0 then Filled(before, after, roles, root, from, c, start, n)
    else FilledAt(k - 1, before, after, roles, root, from, c, start, n)
  }

  lemma {:induction false} OpenFilled(k: nat, before: Mem, after: Mem, roles: Roles, root: nat, from: nat, c: Cache,
                                      start: nat, n: nat)
    ensures FilledAt(k, before, after, roles, root, from, c, start, n)
        <==> Filled(before, after, roles, root, from, c, start, n)
  {
    if k > 0 {
      OpenFilled(k - 1, before, after, roles, root, from, c, start, n);
    }
  }

  /** Filled, sealed. */
  ghost predicate FilledFrom(before: Mem, after: Mem, roles: Roles, root: nat, from: nat, c: Cache, start: nat,
                             n: nat) {
    FilledAt(SEAL, before, after, roles, root, from, c, start, n)
  }

  /** The first n addresses from `from` on are mapped. */
  ghost predicate AllMapped(m: Mem, root: nat, from: nat, n: nat) {
    n == 0 || (AllMapped(m, root, from, n - 1) && IsMapped(m, root, (from + (n - 1)) % TWO64))
  }

  lemma MappedNext(m: Mem, root: nat, from: nat, n: nat)
    requires AllMapped(m, root, from, n) && IsMapped(m, root, (from + n) % TWO64)
    ensures AllMapped(m, root, from, n + 1)
  {
  }

  /** The cache and the page pool share no memory. */
  ghost predicate Apart(cache: BufferPool, pt: PageTables) {
    forall a :: a in cache.Arrays() ==> a as object != pt.mem && a as object != pt.pool.pages
  }

  /** Stores one delivered byte at the next address. */
  method FillByte(pt: PageTables, pagetable: nat, a: uint64, x: byte,
                  ghost m0: Mem, ghost from: nat, ghost c0: Cache, ghost start: nat, ghost done: nat)
    returns (r: Result<()>)
    requires pt.Sane() && pt.IsTable(pagetable) && pt.mem.Length == MEM_WORDS
    requires a == (from + done) % TWO64
    requires |c0.disk| == DISKSIZE && start + done < DISKBYTES && x == FlatByte(c0, start + done)
    requires FilledFrom(m0, pt.M(), pt.roles, pagetable, from, c0, start, done)
    modifies pt.mem
    ensures pt.Sane()
    ensures r.Ok? <==> IsMapped(m0, pagetable, a)
    ensures r.Ok? ==> FilledFrom(m0, pt.M(), pt.roles, pagetable, from, c0, start, done + 1)
    ensures r.Halt? ==> r == Halt(AddressNotValid)
  {
    hide TreeInv, CleanPages, LinksOf, PathOf, Walk, FlatByte, VirtualByte, PageTables.SaneAt, FilledAt, PutByte;
    OpenFilled(SEAL, m0, pt.M(), pt.roles, pagetable, from, c0, start, done);
    SamePlace(m0, pt.M(), pt.roles, pagetable, a);
    if IsMapped(pt.M(), pagetable, a) {
      FilledNext(m0, pt.M(), pt.roles, pagetable, from, c0, start, done, a);
    }
    r := pt.StoreVirtual(pagetable, a, x);
    OpenFilled(SEAL, m0, pt.M(), pt.roles, pagetable, from, c0, start, done + 1);
  }

  /** Between two bytes of a transfer into virtual memory. */
  ghost predicate MidFill(cache: BufferPool, pt: PageTables, b: Buffer, i: nat, blk: nat, next: nat, done: nat,
                          m0: Mem, pagetable: nat, from: nat, c0: Cache, start: nat)
    reads cache, cache.head, cache.buf, cache.Arrays(), pt, pt.pool, pt.pool.pages, pt.mem
  {
    && cache.Good() && ReadingAt(SEAL, c0, cache.Abs(), i, blk) && i < |cache.list| && cache.list[i] == b
    && |c0.disk| == DISKSIZE && blk < DISKSIZE && next <= BSIZE && blk * BSIZE + next == start + done
    && pt.Sane() && pt.IsTable(pagetable) && pt.mem.Length == MEM_WORDS
    && FilledFrom(m0, pt.M(), pt.roles, pagetable, from, c0, start, done)
    && AllMapped(m0, pagetable, from, done)
  }

  /** One round of the loop: the next block if this one is used up, then a byte. */
  method FillRound(cache: BufferPool, pt: PageTables, b: Buffer, ghost i: nat, blk: nat, next: nat, a: uint64,
                   ghost done: nat, ghost n: nat,
                   ghost m0: Mem, pagetable: nat, ghost from: nat, ghost c0: Cache, ghost start: nat)
    returns (g: Result<Buffer>, ghost j: nat, blk': nat, next': nat, a': uint64)
    requires MidFill(cache, pt, b, i, blk, next, done, m0, pagetable, from, c0, start)
    requires a == (from + done) % TWO64 && Apart(cache, pt) && done < n
    modifies cache`slots, cache`list, cache.buf, cache.head, cache.Arrays(), pt.mem
    ensures cache.Good() && pt.Sane()
    ensures g.Ok? ==> a' == (from + (done + 1)) % TWO64
    ensures blk' == if next == BSIZE then blk + 1 else blk
    ensures g.Ok? ==> next < BSIZE || Available(c0, blk')
    ensures g.Ok? ==> MidFill(cache, pt, g.value, j, blk', next', done + 1, m0, pagetable, from, c0, start)
    ensures g.Halt? ==>
      || (g == Halt(AddressNotValid) && !AllMapped(m0, pagetable, from, n))
      || (next == BSIZE && g == Halt(if blk' < DISKSIZE then NoBuffers else BlockPastDisk)
          && (blk' >= DISKSIZE || !Available(c0, blk')) && LeftAsFound(c0, cache.Abs()))
  {
    hide ReadingAt, IdleAt, AvailableAt, FilledAt, PageTables.SaneAt, BufferPool.ValidAt, FlatByte, AllMapped;
    g, j, blk', next', a' := Ok(b), i, blk, next, a;
    if next == BSIZE {
      g, j := NextToRead(cache, b, i, blk, c0);
      blk', next' := blk + 1, 0;
      if g.Halt? {
        return;
      }
    }
    ReadingByte(c0, cache.Abs(), j, blk', next');
    var x := cache.LoadByte(g.value, j, next');
    var s := FillByte(pt, pagetable, a, x, m0, from, c0, start, done);
    if s.Halt? {
      NotAllMapped(m0, pagetable, from, n, done);
      return Halt(s.fault), j, blk', next', a;
    }
    MappedNext(m0, pagetable, from, done);
    next' := next' + 1;
    NextAddress(from, done);
    a' := (a + 1) % TWO64;
  }

  /** The loop over the bytes, with the first block in hand. */
  method FillBytes(cache: BufferPool, pt: PageTables, b: Buffer, ghost slot: nat, diskBlockNum: nat, offset: nat,
                   nBytes: nat,
                   memoryLocation: uint64, pagetable: nat, ghost m0: Mem, ghost c0: Cache, ghost start: nat)
    returns (r: Result<()>, ghost last: nat)
    requires start == diskBlockNum * BSIZE + offset && Apart(cache, pt)
    requires MidFill(cache, pt, b, slot, diskBlockNum, offset, 0, m0, pagetable, memoryLocation, c0, start)
    requires Through(c0, diskBlockNum, offset, 0, diskBlockNum)
    modifies cache`slots, cache`list, cache.buf, cache.head, cache.Arrays(), pt.mem
    ensures cache.Good() && pt.Sane()
    ensures r.Ok? ==>
      && LeftAsFound(c0, cache.Abs())
      && Through(c0, diskBlockNum, offset, nBytes, last)
      && AllMapped(m0, pagetable, memoryLocation, nBytes)
      && FilledFrom(m0, pt.M(), pt.roles, pagetable, memoryLocation, c0, start, nBytes)
    ensures r.Halt? ==>
      || (r.fault == AddressNotValid && !AllMapped(m0, pagetable, memoryLocation, nBytes))
      || (StoppedAt(c0, diskBlockNum, offset, nBytes, last, r.fault) && LeftAsFound(c0, cache.Abs()))
  {
    hide ReadingAt, IdleAt, AvailableAt, FilledAt, PageTables.SaneAt, BufferPool.ValidAt, AllMapped, Through, StoppedAt;
    var blk: nat, next: nat, bytesRead: nat := diskBlockNum, offset, 0;
    var a := memoryLocation;
    ghost var i: nat := slot;
    var g := Ok(b);
    last := blk;
    while bytesRead < nBytes
      invariant bytesRead <= nBytes && g.Ok? && blk == last && a == (memoryLocation + bytesRead) % TWO64
      invariant MidFill(cache, pt, g.value, i, blk, next, bytesRead, m0, pagetable, memoryLocation, c0, start)
      invariant Through(c0, diskBlockNum, offset, bytesRead, last)
    {
      if next == BSIZE {
        NextBlock(c0, diskBlockNum, offset, nBytes, bytesRead, blk);
      } else {
        SameBlock(c0, diskBlockNum, offset, bytesRead, blk, next);
      }
      g, i, blk, next, a := FillRound(cache, pt, g.value, i, blk, next, a, bytesRead, nBytes, m0, pagetable,
                                      memoryLocation, c0, start);
      last := blk;
      if g.Halt? {
        return Halt(g.fault), last;
      }
      bytesRead := bytesRead + 1;
    }
    End(cache, g.value, i, blk, c0);
    return Ok(()), last;
  }

  /** The transfer itself; `last` is the block it ended on. */
  method FillLoop(cache: BufferPool, pt: PageTables, diskBlockNum: nat, offset: nat, nBytes: nat,
                  memoryLocation: uint64, pagetable: nat, ghost c0: Cache)
    returns (r: Result<()>, ghost last: nat)
    requires cache.Good() && LeftAsFound(c0, cache.Abs()) && |c0.disk| == DISKSIZE
    requires pt.Sane() && pt.IsTable(pagetable) && pt.mem.Length == MEM_WORDS && Apart(cache, pt)
    requires FilledFrom(pt.M(), pt.M(), pt.roles, pagetable, memoryLocation, c0, diskBlockNum * BSIZE + offset, 0)
    requires offset <= BSIZE && diskBlockNum < DISKSIZE
    modifies cache`slots, cache`list, cache.buf, cache.head, cache.Arrays(), pt.mem
    ensures cache.Good() && pt.Sane()
    ensures r.Ok? ==>
      && LeftAsFound(c0, cache.Abs())
      && Through(c0, diskBlockNum, offset, nBytes, last)
      && AllMapped(old(pt.M()), pagetable, memoryLocation, nBytes)
      && FilledFrom(old(pt.M()), pt.M(), pt.roles, pagetable, memoryLocation, c0, diskBlockNum * BSIZE + offset, nBytes)
    ensures r.Halt? ==>
      || (r.fault == AddressNotValid && !AllMapped(old(pt.M()), pagetable, memoryLocation, nBytes))
      || (StoppedAt(c0, diskBlockNum, offset, nBytes, last, r.fault) && LeftAsFound(c0, cache.Abs()))
  {
    hide ReadingAt, IdleAt, AvailableAt, AvailableRange, FilledAt, PageTables.SaneAt, BufferPool.ValidAt;
    ghost var start := diskBlockNum * BSIZE + offset;
    ghost var m0 := pt.M();
    var g, i := Begin(cache, diskBlockNum, c0);
    if g.Halt? {
      return Halt(g.fault), diskBlockNum;
    }
    FirstBlock(c0, diskBlockNum, offset);
    assert AllMapped(m0, pagetable, memoryLocation, 0);
    r, last := FillBytes(cache, pt, g.value, i, diskBlockNum, offset, nBytes, memoryLocation, pagetable, m0, c0, start);
  }

  /** readBytesVirtual: copies n bytes from the disk to virtual addresses from
      `memoryLocation` on. It succeeds exactly when the bytes are on the disk
      and every address is mapped; the bytes then appear at those addresses of
      that table and nowhere else. */
  method ReadBytesVirtual(cache: BufferPool, pt: PageTables, diskBlockNum: nat, offset: nat, nBytes: nat,
                          memoryLocation: uint64, pagetable: nat)
    returns (r: Result<()>)
    requires Ready(cache) && offset <= BSIZE
    requires pt.Sane() && pt.IsTable(pagetable) && pt.mem.Length == MEM_WORDS && Apart(cache, pt)
    modifies cache`slots, cache`list, cache.buf, cache.head, cache.Arrays(), pt.mem
    ensures cache.Good() && pt.Sane()
    ensures r.Ok? <==>
      && InRange(diskBlockNum, offset, nBytes)
      && Buffered(old(cache.Abs()), diskBlockNum, offset, nBytes)
      && AllMapped(old(pt.M()), pagetable, memoryLocation, nBytes)
    ensures r.Ok? ==> LeftAsFound(old(cache.Abs()), cache.Abs())
    ensures r.Ok? ==>
      FilledFrom(old(pt.M()), pt.M(), pt.roles, pagetable, memoryLocation, old(cache.Abs()),
                 diskBlockNum * BSIZE + offset, nBytes)
  {
    ghost var c0 := cache.Abs();
    StartUnchanged(c0);
    LeftAsFoundMeans(c0, c0);
    r := ReadVirtualChecked(cache, pt, diskBlockNum, offset, nBytes, memoryLocation, pagetable, c0);
  }

  /** readBytesVirtual, in terms of an earlier state c0 since which the cache was only read. */
  method ReadVirtualChecked(cache: BufferPool, pt: PageTables, diskBlockNum: nat, offset: nat, nBytes: nat,
                            memoryLocation: uint64, pagetable: nat, ghost c0: Cache)
    returns (r: Result<()>)
    requires cache.Good() && LeftAsFound(c0, cache.Abs()) && |c0.disk| == DISKSIZE && offset <= BSIZE
    requires pt.Sane() && pt.IsTable(pagetable) && pt.mem.Length == MEM_WORDS && Apart(cache, pt)
    modifies cache`slots, cache`list, cache.buf, cache.head, cache.Arrays(), pt.mem
    ensures cache.Good() && pt.Sane()
    ensures r.Ok? <==>
      && InRange(diskBlockNum, offset, nBytes)
      && Buffered(c0, diskBlockNum, offset, nBytes)
      && AllMapped(old(pt.M()), pagetable, memoryLocation, nBytes)
    ensures
      r.Halt? && Buffered(c0, diskBlockNum, offset, nBytes) && AllMapped(old(pt.M()), pagetable, memoryLocation, nBytes)
      ==> r == Halt(BlockPastDisk)
    ensures r.Ok? ==> LeftAsFound(c0, cache.Abs())
    ensures r.Ok? ==>
      FilledFrom(old(pt.M()), pt.M(), pt.roles, pagetable, memoryLocation, c0, diskBlockNum * BSIZE + offset, nBytes)
  {
    if diskBlockNum >= DISKSIZE {
      return Halt(BlockPastDisk);
    }
    pt.OpenSane(SEAL);
    StartFilled(pt.M(), pt.roles, pagetable, memoryLocation, c0, diskBlockNum * BSIZE + offset);
    ghost var last;
    r, last := FillLoop(cache, pt, diskBlockNum, offset, nBytes, memoryLocation, pagetable, c0);
    if r.Ok? {
      ThroughMeans(c0, diskBlockNum, offset, nBytes, last);
    } else if StoppedAt(c0, diskBlockNum, offset, nBytes, last, r.fault) {
      StoppedMeans(c0, diskBlockNum, offset, nBytes, last, r.fault);
    }
  }

  // From memory to the disk
  // -----------------------

  /** n bytes of a table's memory from address `from` on; 0 where nothing is mapped. */
  ghost function VirtualSlice(m: Mem, root: nat, from: nat, n: nat): (s: seq<byte>)
    ensures |s| == n
  {
    if n == 0 then []
    else
      var x := VirtualByte(m, root, (from + (n - 1)) % TWO64);
      VirtualSlice(m, root, from, n - 1) + [if x.Some? then x.value else 0]
  }

  lemma {:induction false} VirtualSliceAt(m: Mem, root: nat, from: nat, n: nat, k: nat)
    requires k < n && VirtualByte(m, root, (from + k) % TWO64).Some?
    ensures VirtualSlice(m, root, from, n)[k] == VirtualByte(m, root, (from + k) % TWO64).value
  {
    if k < n - 1 {
      VirtualSliceAt(m, root, from, n - 1, k);
    }
  }

  /** Address k of n is the first that is not mapped. */
  ghost predicate FirstUnmapped(m: Mem, root: nat, from: nat, n: nat, k: nat) {
    k < n && AllMapped(m, root, from, k) && !IsMapped(m, root, (from + k) % TWO64)
  }

  /** What a transfer that stops has done. At an address that is not mapped it
      holds a buffer, with the bytes before that address written; at a block it
      cannot have it holds none. */
  ghost predicate Undone(c0: Cache, c: Cache, i: nat, blk: nat, start: nat, m: Mem, root: nat, from: nat, n: nat,
                         done: nat, f: Fault) {
    if f == AddressNotValid then
      && FirstUnmapped(m, root, from, n, done)
      && WritingAt(SEAL, c0, c, i, blk, start, VirtualSlice(m, root, from, n), done)
    else
      WroteOver(c0, c, start, VirtualSlice(m, root, from, n), done)
  }

  /** Between two bytes of a transfer from virtual memory. */
  ghost predicate MidDrain(cache: BufferPool, pt: PageTables, b: Buffer, i: nat, blk: nat, next: nat, done: nat, n: nat,
                           pagetable: nat, from: nat, c0: Cache, start: nat)
    reads cache, cache.head, cache.buf, cache.Arrays(), pt, pt.pool, pt.pool.pages, pt.mem
  {
    && pt.Sane() && pt.IsTable(pagetable) && pt.mem.Length == MEM_WORDS
    && MidWrite(cache, b, i, blk, next, done, c0, start, VirtualSlice(pt.M(), pagetable, from, n))
    && AllMapped(pt.M(), pagetable, from, done)
  }

  lemma MappedByte(m: Mem, roles: Roles, root: nat, a: nat)
    requires TreeInv(LinksOf(m), roles) && RoleOf(roles, root).Root?
    ensures IsMapped(m, root, a) <==> VirtualByte(m, root, a).Some?
  {
    if IsMapped(m, root, a) {
      MappedInPool(m, roles, root, a / PGSIZE);
    }
  }

  /** Reads the next byte to write. */
  method DrainByte(pt: PageTables, pagetable: nat, a: uint64, ghost from: nat, ghost done: nat, ghost n: nat)
    returns (x: Result<byte>)
    requires pt.Sane() && pt.IsTable(pagetable) && pt.mem.Length == MEM_WORDS
    requires a == (from + done) % TWO64 && done < n && AllMapped(pt.M(), pagetable, from, done)
    ensures x.Ok? ==>
      x.value == VirtualSlice(pt.M(), pagetable, from, n)[done] && AllMapped(pt.M(), pagetable, from, done + 1)
    ensures x.Halt? ==> x == Halt(AddressNotValid) && FirstUnmapped(pt.M(), pagetable, from, n, done)
  {
    pt.OpenSane(SEAL);
    MappedByte(pt.M(), pt.roles, pagetable, a);
    x := pt.LoadVirtual(pagetable, a);
    if x.Ok? {
      VirtualSliceAt(pt.M(), pagetable, from, n, done);
    }
  }

  /** One round of the loop: the next block if this one is used up, then a byte. */
  method DrainRound(cache: BufferPool, pt: PageTables, b: Buffer, ghost i: nat, blk: nat, next: nat, a: uint64,
                    ghost done: nat, ghost n: nat, pagetable: nat, ghost from: nat, ghost c0: Cache, ghost start: nat)
    returns (g: Result<Buffer>, ghost j: nat, blk': nat, next': nat, a': uint64)
    requires MidDrain(cache, pt, b, i, blk, next, done, n, pagetable, from, c0, start)
    requires a == (from + done) % TWO64 && Apart(cache, pt) && done < n
    modifies cache, cache.buf, cache.head, cache.Arrays()
    ensures cache.Good()
    ensures g.Ok? ==> a' == (from + (done + 1)) % TWO64
    ensures blk' == if next == BSIZE then blk + 1 else blk
    ensures g.Ok? ==> next < BSIZE || Available(c0, blk')
    ensures g.Ok? ==> MidDrain(cache, pt, g.value, j, blk', next', done + 1, n, pagetable, from, c0, start)
    ensures g.Halt? ==> Undone(c0, cache.Abs(), j, blk', start, pt.M(), pagetable, from, n, done, g.fault)
    ensures g.Halt? && g.fault != AddressNotValid ==>
      && next == BSIZE && g == Halt(if blk' < DISKSIZE then NoBuffers else BlockPastDisk)
      && (blk' >= DISKSIZE || !Available(c0, blk'))
  {
    hide WritingAt, WrittenAt, AvailableAt, PageTables.SaneAt, BufferPool.ValidAt, VirtualSlice, AllMapped;
    ghost var src := VirtualSlice(pt.M(), pagetable, from, n);
    g, j, blk', next', a' := Ok(b), i, blk, next, a;
    if next == BSIZE {
      g, j := NextToWrite(cache, b, i, blk, c0, start, src, done);
      blk', next' := blk + 1, 0;
      if g.Halt? {
        return;
      }
    }
    var x := DrainByte(pt, pagetable, a, from, done, n);
    if x.Halt? {
      return Halt(x.fault), j, blk', next', a;
    }
    StoreNext(cache, g.value, j, blk', next', x.value, c0, start, src, done);
    next' := next' + 1;
    NextAddress(from, done);
    a' := (a + 1) % TWO64;
  }

  /** writeBytesVirtual: puts n bytes of a table's memory on the disk. It
      succeeds exactly when they fit and every address is mapped. A run that
      stops at the end of the disk has written exactly the bytes that fit, one
      that stops at an address the bytes before it. */
  method WriteBytesVirtual(cache: BufferPool, pt: PageTables, diskBlockNum: nat, offset: nat, nBytes: nat,
                           memoryLocation: uint64, pagetable: nat)
    returns (r: Result<()>, ghost slot: nat, ghost last: nat, ghost done: nat)
    requires Ready(cache) && offset <= BSIZE
    requires pt.Sane() && pt.IsTable(pagetable) && pt.mem.Length == MEM_WORDS && Apart(cache, pt)
    modifies cache, cache.buf, cache.head, cache.Arrays()
    ensures cache.Good()
    ensures r.Ok? <==>
      && InRange(diskBlockNum, offset, nBytes)
      && Buffered(old(cache.Abs()), diskBlockNum, offset, nBytes)
      && AllMapped(pt.M(), pagetable, memoryLocation, nBytes)
    ensures r.Ok? ==>
      WroteOver(old(cache.Abs()), cache.Abs(), diskBlockNum * BSIZE + offset,
                VirtualSlice(pt.M(), pagetable, memoryLocation, nBytes), nBytes)
    ensures r.Halt? ==>
      Undone(old(cache.Abs()), cache.Abs(), slot, last, diskBlockNum * BSIZE + offset,
             pt.M(), pagetable, memoryLocation, nBytes, done, r.fault)
    ensures r == Halt(BlockPastDisk) ==> done == Fitting(diskBlockNum, offset, nBytes)
  {
    ghost var c0 := cache.Abs();
    StartWritten(c0, diskBlockNum * BSIZE + offset, VirtualSlice(pt.M(), pagetable, memoryLocation, nBytes));
    if diskBlockNum >= DISKSIZE {
      return Halt(BlockPastDisk), 0, diskBlockNum, 0;
    }
    r, slot, last, done := DrainLoop(cache, pt, diskBlockNum, offset, nBytes, memoryLocation, pagetable, c0);
    if r.Ok? {
      ThroughMeans(c0, diskBlockNum, offset, nBytes, last);
    } else if r.fault != AddressNotValid {
      StoppedMeans(c0, diskBlockNum, offset, nBytes, last, r.fault);
    } else {
      NotAllMapped(pt.M(), pagetable, memoryLocation, nBytes, done);
    }
  }

  lemma {:induction false} NotAllMapped(m: Mem, root: nat, from: nat, n: nat, k: nat)
    requires FirstUnmapped(m, root, from, n, k)
    ensures !AllMapped(m, root, from, n)
  {
    if k < n - 1 {
      NotAllMapped(m, root, from, n - 1, k);
    }
  }

  /** The loop over the bytes, with the first block in hand. */
  method DrainBytes(cache: BufferPool, pt: PageTables, b: Buffer, ghost slot: nat, diskBlockNum: nat, offset: nat,
                    nBytes: nat, memoryLocation: uint64, pagetable: nat, ghost c0: Cache, ghost start: nat)
    returns (r: Result<()>, ghost i: nat, ghost last: nat, ghost done: nat)
    requires start == diskBlockNum * BSIZE + offset && Apart(cache, pt)
    requires MidDrain(cache, pt, b, slot, diskBlockNum, offset, 0, nBytes, pagetable, memoryLocation, c0, start)
    requires Through(c0, diskBlockNum, offset, 0, diskBlockNum)
    modifies cache, cache.buf, cache.head, cache.Arrays()
    ensures cache.Good()
    ensures r.Ok? ==>
      && Through(c0, diskBlockNum, offset, nBytes, last)
      && AllMapped(pt.M(), pagetable, memoryLocation, nBytes)
      && WroteOver(c0, cache.Abs(), start, VirtualSlice(pt.M(), pagetable, memoryLocation, nBytes), nBytes)
    ensures r.Halt? ==> Undone(c0, cache.Abs(), i, last, start, pt.M(), pagetable, memoryLocation, nBytes, done,
                               r.fault)
    ensures r.Halt? && r.fault != AddressNotValid ==>
      StoppedAt(c0, diskBlockNum, offset, nBytes, last, r.fault) && start + done == last * BSIZE && last <= DISKSIZE
  {
    hide WritingAt, WrittenAt, AvailableAt, PageTables.SaneAt, BufferPool.ValidAt, VirtualSlice, AllMapped, Through,
         StoppedAt;
    var blk: nat, next: nat, bytesWritten: nat := diskBlockNum, offset, 0;
    var a := memoryLocation;
    var g := Ok(b);
    i, last, done := slot, blk, 0;
    while bytesWritten < nBytes
      invariant bytesWritten <= nBytes && g.Ok? && blk == last && done == bytesWritten
      invariant a == (memoryLocation + bytesWritten) % TWO64
      invariant MidDrain(cache, pt, g.value, i, blk, next, bytesWritten, nBytes, pagetable, memoryLocation, c0, start)
      invariant Through(c0, diskBlockNum, offset, bytesWritten, last)
    {
      if next == BSIZE {
        NextBlock(c0, diskBlockNum, offset, nBytes, bytesWritten, blk);
      } else {
        SameBlock(c0, diskBlockNum, offset, bytesWritten, blk, next);
      }
      g, i, blk, next, a := DrainRound(cache, pt, g.value, i, blk, next, a, bytesWritten, nBytes, pagetable,
                                       memoryLocation, c0, start);
      last := blk;
      if g.Halt? {
        return Halt(g.fault), i, last, done;
      }
      bytesWritten := bytesWritten + 1;
      done := bytesWritten;
    }
    EndWrite(cache, g.value, i, blk, c0, start, VirtualSlice(pt.M(), pagetable, memoryLocation, nBytes), nBytes);
    return Ok(()), i, last, done;
  }

  /** The transfer itself; `last` is the block it ended on. */
  method DrainLoop(cache: BufferPool, pt: PageTables, diskBlockNum: nat, offset: nat, nBytes: nat,
                   memoryLocation: uint64, pagetable: nat, ghost c0: Cache)
    returns (r: Result<()>, ghost slot: nat, ghost last: nat, ghost done: nat)
    requires pt.Sane() && pt.IsTable(pagetable) && pt.mem.Length == MEM_WORDS && Apart(cache, pt)
    requires cache.Good() && WroteOver(c0, cache.Abs(), diskBlockNum * BSIZE + offset,
                                       VirtualSlice(pt.M(), pagetable, memoryLocation, nBytes), 0)
    requires offset <= BSIZE && diskBlockNum < DISKSIZE
    modifies cache, cache.buf, cache.head, cache.Arrays()
    ensures cache.Good()
    ensures r.Ok? ==>
      && Through(c0, diskBlockNum, offset, nBytes, last)
      && AllMapped(pt.M(), pagetable, memoryLocation, nBytes)
      && WroteOver(c0, cache.Abs(), diskBlockNum * BSIZE + offset,
                   VirtualSlice(pt.M(), pagetable, memoryLocation, nBytes), nBytes)
    ensures r.Halt? ==>
      Undone(c0, cache.Abs(), slot, last, diskBlockNum * BSIZE + offset, pt.M(), pagetable, memoryLocation, nBytes,
             done, r.fault)
    ensures r.Halt? && r.fault != AddressNotValid ==> StoppedAt(c0, diskBlockNum, offset, nBytes, last, r.fault)
    ensures r == Halt(BlockPastDisk) ==> diskBlockNum * BSIZE + offset + done == DISKBYTES
  {
    hide WritingAt, WrittenAt, AvailableAt, AvailableRange, PageTables.SaneAt, BufferPool.ValidAt, VirtualSlice;
    ghost var start := diskBlockNum * BSIZE + offset;
    var g, i := BeginWrite(cache, diskBlockNum, c0, start, VirtualSlice(pt.M(), pagetable, memoryLocation, nBytes), 0);
    if g.Halt? {
      return Halt(g.fault), 0, diskBlockNum, 0;
    }
    FirstBlock(c0, diskBlockNum, offset);
    r, slot, last, done := DrainBytes(cache, pt, g.value, i, diskBlockNum, offset, nBytes, memoryLocation, pagetable,
                                      c0, start);
  }
}
