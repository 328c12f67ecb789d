/** Byte ranges of the disk through the buffer cache (kernel/buffer.c:78-146). */
module DiskBytes {
  import opened Bits
  import opened BufferCache
  import opened CacheSpec
  import opened Halting
  import opened Seal
  import opened Seqs

  const DISKBYTES: nat := 1024000

  /** Byte a of the disk, blocks laid end to end, as readers of the cache see it. */
  ghost function FlatByte(c: Cache, a: nat): byte
    requires |c.disk| == DISKSIZE && a < DISKBYTES
  {
    View(c, a / BSIZE)[a % BSIZE]
  }

  lemma FlatAt(c: Cache, blk: nat, off: nat)
    requires |c.disk| == DISKSIZE && blk < DISKSIZE && off < BSIZE
    ensures FlatByte(c, blk * BSIZE + off) == View(c, blk)[off]
  {
  }

  lemma SameViewsFlat(c: Cache, d: Cache)
    requires OnDisk(c) && OnDisk(d) && SameViews(c, d)
    ensures forall a :: 0 <= a < DISKBYTES ==> FlatByte(d, a) == FlatByte(c, a)
  {
  }

  /** n bytes of the disk from byte a on, as readers of the cache see them. */
  ghost function FlatSlice(c: Cache, a: nat, n: nat): (s: seq<byte>)
    requires |c.disk| == DISKSIZE && a + n <= DISKBYTES
    ensures |s| == n
  {
    if n == 0 then [] else FlatSlice(c, a, n - 1) + [FlatByte(c, a + n - 1)]
  }

  lemma {:induction false} FlatSliceAt(c: Cache, a: nat, n: nat, k: nat)
    requires |c.disk| == DISKSIZE && a + n <= DISKBYTES && k < n
    ensures FlatSlice(c, a, n)[k] == FlatByte(c, a + k)
  {
    hide FlatByte;
    if k < n - 1 {
      FlatSliceAt(c, a, n - 1, k);
    }
  }

  /** With nothing dirty the flat bytes are the bytes on the device. */
  lemma CleanFlat(c: Cache, a: nat)
    requires Inv(c) && Clean(c) && a < DISKBYTES
    ensures FlatByte(c, a) == c.disk[a / BSIZE][a % BSIZE]
  {
    CleanView(c, a / BSIZE);
  }

  /** Every byte to transfer, and the first block in any case, is on the disk. */
  ghost predicate InRange(blk: nat, off: nat, n: nat) {
    blk < DISKSIZE && (n == 0 || blk * BSIZE + off + n <= DISKBYTES)
  }

  /** A transfer of n bytes asks for block m. */
  ghost predicate Touches(blk: nat, off: nat, n: nat, m: nat) {
    m == blk || (blk < m < DISKSIZE && m * BSIZE < blk * BSIZE + off + n)
  }

  /** bget finds a buffer for every block of the transfer. */
  ghost predicate Buffered(c: Cache, blk: nat, off: nat, n: nat) {
    Spare(c) || forall m: nat :: Touches(blk, off, n, m) ==> Cached(c, m)
  }

  ghost predicate Ready(cache: BufferPool)
    reads cache, cache.head, cache.buf, cache.Arrays()
  {
    cache.Good() && Sound(cache.Abs())
  }

  /** What a reader leaves behind: nothing but a different list order. */
  ghost predicate Unchanged(c0: Cache, c: Cache) {
    && Sound(c0) && Sound(c) && SameViews(c0, c) && c.disk == c0.disk
    && Refs(c.slots) == Refs(c0.slots)
    && (Spare(c) <==> Spare(c0))
    && (Clean(c0) ==> Clean(c))
    && (!Spare(c0) ==> forall m: nat :: Cached(c, m) <==> Cached(c0, m))
  }

  /** In the middle of a read: buffer i is held for block d. */
  ghost predicate Reading(c0: Cache, c: Cache, i: nat, d: nat) {
    && Sound(c0) && Sound(c) && SameViews(c0, c) && c.disk == c0.disk
    && Held(c, i, d) && OneMore(c0, c, i)
    && (c.slots[i].refcnt == 1 ==> c.slots[i].data == c.disk[d])
    && c.slots[i].data == View(c0, d)
    && (Clean(c0) ==> Clean(c))
    && (!Spare(c0) ==> forall m: nat :: Cached(c, m) <==> Cached(c0, m))
  }

  // The two relations again, sealed; OpenIdle and OpenReading say what they mean.

  ghost predicate IdleAt(n: nat, c0: Cache, c: Cache) {
    if n == 0 then Unchanged(c0, c) else IdleAt(n - 1, c0, c)
  }

  /** Unchanged, sealed. */
  ghost predicate LeftAsFound(c0: Cache, c: Cache) {
    IdleAt(SEAL, c0, c)
  }

  lemma LeftAsFoundMeans(c0: Cache, c: Cache)
    ensures LeftAsFound(c0, c) <==> Unchanged(c0, c)
  {
    OpenIdle(SEAL, c0, c);
  }

  ghost predicate ReadingAt(n: nat, c0: Cache, c: Cache, i: nat, d: nat) {
    if n == 0 then Reading(c0, c, i, d) else ReadingAt(n - 1, c0, c, i, d)
  }

  lemma {:induction false} OpenIdle(n: nat, c0: Cache, c: Cache)
    ensures IdleAt(n, c0, c) <==> Unchanged(c0, c)
  {
    if n > 0 {
      OpenIdle(n - 1, c0, c);
    }
  }

  lemma {:induction false} OpenReading(n: nat, c0: Cache, c: Cache, i: nat, d: nat)
    ensures ReadingAt(n, c0, c, i, d) <==> Reading(c0, c, i, d)
  {
    if n > 0 {
      OpenReading(n - 1, c0, c, i, d);
    }
  }

  /** bget finds a buffer for block m; sealed like the others. */
  ghost predicate AvailableAt(n: nat, c0: Cache, m: nat) {
    if n == 0 then Spare(c0) || Cached(c0, m) else AvailableAt(n - 1, c0, m)
  }

  lemma {:induction false} OpenAvailable(n: nat, c0: Cache, m: nat)
    ensures AvailableAt(n, c0, m) <==> Spare(c0) || Cached(c0, m)
  {
    if n > 0 {
      OpenAvailable(n - 1, c0, m);
    }
  }

  ghost predicate Available(c0: Cache, m: nat) {
    AvailableAt(SEAL, c0, m)
  }

  /** The byte at off of the held buffer is the disk's byte there. */
  lemma ReadingByte(c0: Cache, c: Cache, i: nat, d: nat, off: nat)
    requires ReadingAt(SEAL, c0, c, i, d) && off < BSIZE
    ensures i < |c.slots| && d < DISKSIZE && |c0.disk| == DISKSIZE
    ensures c.slots[i].data[off] == FlatByte(c0, d * BSIZE + off)
  {
    OpenReading(SEAL, c0, c, i, d);
    FlatAt(c0, d, off);
  }

  lemma StartReading(c0: Cache, c: Cache, d: nat)
    requires Unchanged(c0, c) && d < DISKSIZE
    ensures BRead(c, d).Some? <==> Spare(c0) || Cached(c0, d)
    ensures BRead(c, d).Some? ==> var (e, i) := BRead(c, d).value; Reading(c0, e, i, d)
  {
    hide Refs, Find, View, NoStaleTwin, UnusedIsZero, Coherent, DistinctIds, BRead, Clean;
    BReadFails(c, d);
    if BRead(c, d).Some? {
      BReadEffect(c, d);
      if !Spare(c0) {
        forall m: nat ensures Cached(BRead(c, d).value.0, m) <==> Cached(c0, m) {
          BReadCached(c, d, m);
        }
      }
    }
  }

  lemma StopReading(c0: Cache, c: Cache, i: nat, d: nat)
    requires Reading(c0, c, i, d)
    ensures Unchanged(c0, BRelse(c, i))
  {
    BRelseEffect(c0, c, i, d);
    if !Spare(c0) {
      forall m: nat ensures Cached(BRelse(c, i), m) <==> Cached(c0, m) {
        BRelseCached(c, i, m);
      }
    }
  }

  lemma StartUnchanged(c: Cache)
    requires Sound(c)
    ensures Unchanged(c, c)
  {
  }

  /** bread. */
  method Begin(cache: BufferPool, blk: nat, ghost c0: Cache) returns (r: Result<Buffer>, ghost i: nat)
    requires cache.Good() && LeftAsFound(c0, cache.Abs()) && blk < DISKSIZE
    modifies cache`slots, cache.buf`valid, cache.buf`blockno, cache.buf`refcnt, cache.Arrays()
    ensures cache.Good()
    ensures r.Ok? <==> Available(c0, blk)
    ensures r.Halt? ==> r == Halt(NoBuffers) && LeftAsFound(c0, cache.Abs())
    ensures r.Ok? ==> ReadingAt(SEAL, c0, cache.Abs(), i, blk) && i < |cache.list| && cache.list[i] == r.value
  {
    cache.OpenValid(SEAL);
    OpenIdle(SEAL, c0, cache.Abs());
    StartReading(c0, cache.Abs(), blk);
    OpenAvailable(SEAL, c0, blk);
    r, i := cache.BRead(blk);
    cache.OpenValid(SEAL);
    OpenIdle(SEAL, c0, cache.Abs());
    OpenReading(SEAL, c0, cache.Abs(), i, blk);
  }

  /** brelse. */
  method End(cache: BufferPool, b: Buffer, ghost i: nat, ghost blk: nat, ghost c0: Cache)
    requires cache.Good() && ReadingAt(SEAL, c0, cache.Abs(), i, blk) && i < |cache.list| && cache.list[i] == b
    modifies cache`slots, cache`list, cache.buf, cache.head
    ensures cache.Good() && LeftAsFound(c0, cache.Abs())
  {
    ghost var c := cache.Abs();
    cache.OpenValid(SEAL);
    OpenReading(SEAL, c0, c, i, blk);
    StopReading(c0, c, i, blk);
    cache.BRelse(b, i);
    cache.OpenValid(SEAL);
    assert cache.Abs() == BRelse(c, i);
    OpenIdle(SEAL, c0, cache.Abs());
  }

  /** On to the next block: brelse, the check against the disk's end, bread. */
  method NextToRead(cache: BufferPool, b: Buffer, ghost i: nat, blk: nat, ghost c0: Cache)
    returns (r: Result<Buffer>, ghost j: nat)
    requires cache.Good() && ReadingAt(SEAL, c0, cache.Abs(), i, blk) && i < |cache.list| && cache.list[i] == b
    modifies cache`slots, cache`list, cache.buf, cache.head, cache.Arrays()
    ensures cache.Good()
    ensures r.Ok? <==> blk + 1 < DISKSIZE && Available(c0, blk + 1)
    ensures r.Halt? ==> r == Halt(if blk + 1 < DISKSIZE then NoBuffers else BlockPastDisk)
    ensures r.Halt? ==> LeftAsFound(c0, cache.Abs())
    ensures r.Ok? ==> ReadingAt(SEAL, c0, cache.Abs(), j, blk + 1) && j < |cache.list| && cache.list[j] == r.value
  {
    End(cache, b, i, blk, c0);
    if blk + 1 >= DISKSIZE {
      return Halt(BlockPastDisk), 0;
    }
    r, j := Begin(cache, blk + 1, c0);
  }

  /** Memory holds the first n bytes that a read from disk byte `start` delivers. */
  ghost predicate Delivered(c0: Cache, start: nat, n: nat, memory: array<byte>, at: nat)
    requires |c0.disk| == DISKSIZE && start + n <= DISKBYTES && at + n <= memory.Length
    reads memory
  {
    n == 0 || (Delivered(c0, start, n - 1, memory, at) && memory[at + n - 1] == FlatByte(c0, start + n - 1))
  }

  lemma {:induction false} DeliveredMeans(c0: Cache, start: nat, n: nat, memory: array<byte>, at: nat)
    requires |c0.disk| == DISKSIZE && start + n <= DISKBYTES && at + n <= memory.Length
    ensures Delivered(c0, start, n, memory, at) <==> memory[at..at + n] == FlatSlice(c0, start, n)
  {
    hide FlatByte;
    if n > 0 {
      DeliveredMeans(c0, start, n - 1, memory, at);
      SnocEqual(memory[at..at + (n - 1)], memory[at + n - 1], FlatSlice(c0, start, n - 1), FlatByte(c0, start + n - 1));
      assert memory[at..at + n] == memory[at..at + (n - 1)] + [memory[at + n - 1]];
    }
  }

  /** Copies the byte at `next` of the held buffer to its place in memory. */
  method CopyByte(cache: BufferPool, b: Buffer, ghost i: nat, ghost blk: nat, next: nat, ghost c0: Cache,
                  ghost start: nat, n: nat, memory: array<byte>, at: nat)
    requires cache.Good() && ReadingAt(SEAL, c0, cache.Abs(), i, blk) && i < |cache.list| && cache.list[i] == b
    requires next < BSIZE && blk < DISKSIZE && |c0.disk| == DISKSIZE && blk * BSIZE + next == start + n
    requires at + n < memory.Length && memory !in cache.Arrays()
    requires Delivered(c0, start, n, memory, at)
    modifies memory
    ensures Delivered(c0, start, n + 1, memory, at)
    ensures forall k :: 0 <= k < memory.Length && k != at + n ==> memory[k] == old(memory[k])
  {
    hide ReadingAt, FlatByte;
    ReadingByte(c0, cache.Abs(), i, blk, next);
    var x := cache.LoadByte(b, i, next);
    DeliveredMeans(c0, start, n, memory, at);
    ghost var before := memory[at..at + n];
    memory[at + n] := x;
    assert memory[at..at + n] == before;
    DeliveredMeans(c0, start, n, memory, at);
  }

  /** The transfer got through block `last`. */
  ghost predicate Through(c0: Cache, blk: nat, off: nat, n: nat, last: nat) {
    && blk <= last < DISKSIZE && blk * BSIZE + off + n <= last * BSIZE + BSIZE
    && AvailableRange(c0, blk, last)
  }

  ghost predicate AvailableRange(c0: Cache, from: nat, to: nat) {
    to < from || (Available(c0, to) && (to == 0 || AvailableRange(c0, from, to - 1)))
  }

  lemma {:induction false} AvailableRangeAt(c0: Cache, from: nat, to: nat, m: nat)
    requires AvailableRange(c0, from, to) && from <= m <= to
    ensures Available(c0, m)
  {
    if m < to {
      AvailableRangeAt(c0, from, to - 1, m);
    }
  }

  /** The transfer asked for block `failed` in vain. */
  ghost predicate StoppedAt(c0: Cache, blk: nat, off: nat, n: nat, failed: nat, f: Fault) {
    && (failed == blk || (blk < failed && failed * BSIZE < blk * BSIZE + off + n))
    && if failed >= DISKSIZE then f == BlockPastDisk
       else f == NoBuffers && !Available(c0, failed)
  }

  lemma ThroughMeans(c0: Cache, blk: nat, off: nat, n: nat, last: nat)
    requires Through(c0, blk, off, n, last)
    ensures InRange(blk, off, n) && Buffered(c0, blk, off, n)
  {
    if !Spare(c0) {
      forall m: nat | Touches(blk, off, n, m) ensures Cached(c0, m) {
        AvailableRangeAt(c0, blk, last, m);
        OpenAvailable(SEAL, c0, m);
      }
    }
  }

  lemma StoppedMeans(c0: Cache, blk: nat, off: nat, n: nat, failed: nat, f: Fault)
    requires StoppedAt(c0, blk, off, n, failed, f) && off <= BSIZE
    ensures !(InRange(blk, off, n) && Buffered(c0, blk, off, n))
    ensures Buffered(c0, blk, off, n) ==> f == BlockPastDisk
  {
    if failed < DISKSIZE {
      OpenAvailable(SEAL, c0, failed);
      assert Touches(blk, off, n, failed);
    }
  }

  lemma FirstBlock(c0: Cache, blk: nat, off: nat)
    requires blk < DISKSIZE && off <= BSIZE && Available(c0, blk)
    ensures Through(c0, blk, off, 0, blk)
  {
  }

  /** A byte more from a block that is not used up. */
  lemma SameBlock(c0: Cache, blk: nat, off: nat, done: nat, last: nat, next: nat)
    requires Through(c0, blk, off, done, last) && next < BSIZE && last * BSIZE + next == blk * BSIZE + off + done
    ensures Through(c0, blk, off, done + 1, last)
  {
  }

  lemma NextBlock(c0: Cache, blk: nat, off: nat, n: nat, done: nat, last: nat)
    requires Through(c0, blk, off, done, last) && done < n && blk * BSIZE + off + done == last * BSIZE + BSIZE
    ensures last + 1 < DISKSIZE && Available(c0, last + 1) ==> Through(c0, blk, off, done + 1, last + 1)
    ensures last + 1 >= DISKSIZE ==> StoppedAt(c0, blk, off, n, last + 1, BlockPastDisk)
    ensures last + 1 < DISKSIZE && !Available(c0, last + 1) ==> StoppedAt(c0, blk, off, n, last + 1, NoBuffers)
  {
  }

  /** Between two bytes of a read: buffer b, number i in the list, is held for
      block blk, and `done` bytes have been delivered. */
  ghost predicate MidRead(cache: BufferPool, b: Buffer, i: nat, blk: nat, next: nat, done: nat,
                          c0: Cache, start: nat, memory: array<byte>, at: nat)
    reads cache, cache.head, cache.buf, cache.Arrays(), memory
  {
    && cache.Good() && ReadingAt(SEAL, c0, cache.Abs(), i, blk) && i < |cache.list| && cache.list[i] == b
    && |c0.disk| == DISKSIZE && blk < DISKSIZE && next <= BSIZE && blk * BSIZE + next == start + done
    && at + done <= memory.Length && Delivered(c0, start, done, memory, at)
  }

  /** One round of the loop: the next block if this one is used up, then a byte. */
  method ReadRound(cache: BufferPool, b: Buffer, ghost i: nat, blk: nat, next: nat, done: nat,
                   ghost c0: Cache, ghost start: nat, memory: array<byte>, at: nat)
    returns (g: Result<Buffer>, ghost j: nat, blk': nat, next': nat)
    requires MidRead(cache, b, i, blk, next, done, c0, start, memory, at)
    requires at + done < memory.Length && memory !in cache.Arrays()
    modifies cache`slots, cache`list, cache.buf, cache.head, cache.Arrays(), memory
    ensures cache.Good()
    ensures blk' == if next == BSIZE then blk + 1 else blk
    ensures next < BSIZE ==> g.Ok?
    ensures next == BSIZE ==> (g.Ok? <==> blk' < DISKSIZE && Available(c0, blk'))
    ensures g.Ok? ==> MidRead(cache, g.value, j, blk', next', done + 1, c0, start, memory, at)
    ensures g.Halt? ==> g == Halt(if blk' < DISKSIZE then NoBuffers else BlockPastDisk) && LeftAsFound(c0, cache.Abs())
    ensures forall k :: 0 <= k < memory.Length && k != at + done ==> memory[k] == old(memory[k])
  {
    g, j, blk', next' := Ok(b), i, blk, next;
    if next == BSIZE {
      g, j := NextToRead(cache, b, i, blk, c0);
      blk', next' := blk + 1, 0;
      if g.Halt? {
        return;
      }
    }
    CopyByte(cache, g.value, j, blk', next', c0, start, done, memory, at);
    next' := next' + 1;
  }

  /** The transfer itself; `last` is the block it ended on. */
  method ReadLoop(cache: BufferPool, diskBlockNum: nat, offset: nat, nBytes: nat, memory: array<byte>, at: nat,
                  ghost c0: Cache)
    returns (r: Result<()>, ghost last: nat)
    requires cache.Good() && LeftAsFound(c0, cache.Abs()) && |c0.disk| == DISKSIZE
    requires offset <= BSIZE && diskBlockNum < DISKSIZE
    requires at + nBytes <= memory.Length && memory !in cache.Arrays()
    modifies cache`slots, cache`list, cache.buf, cache.head, cache.Arrays(), memory
    ensures cache.Good() && LeftAsFound(c0, cache.Abs())
    ensures r.Ok? ==> Through(c0, diskBlockNum, offset, nBytes, last)
    ensures r.Halt? ==> StoppedAt(c0, diskBlockNum, offset, nBytes, last, r.fault)
    ensures r.Ok? ==> Delivered(c0, diskBlockNum * BSIZE + offset, nBytes, memory, at)
    ensures forall k :: 0 <= k < memory.Length && !(at <= k < at + nBytes) ==> memory[k] == old(memory[k])
  {
    hide ReadingAt, IdleAt, AvailableAt, AvailableRange, FlatByte;
    var blk: nat, next: nat, bytesRead: nat := diskBlockNum, offset, 0;
    ghost var start := diskBlockNum * BSIZE + offset;
    ghost var i: nat;
    var g;
    g, i := Begin(cache, blk, c0);
    last := blk;
    if g.Halt? {
      return Halt(g.fault), last;
    }

    FirstBlock(c0, diskBlockNum, offset);
    while bytesRead < nBytes
      invariant bytesRead <= nBytes && g.Ok? && blk == last
      invariant MidRead(cache, g.value, i, blk, next, bytesRead, c0, start, memory, at)
      invariant Through(c0, diskBlockNum, offset, bytesRead, last)
      invariant forall k :: 0 <= k < memory.Length && !(at <= k < at + nBytes) ==> memory[k] == old(memory[k])
    {
      if next == BSIZE {
        NextBlock(c0, diskBlockNum, offset, nBytes, bytesRead, blk);
      }
      g, i, blk, next := ReadRound(cache, g.value, i, blk, next, bytesRead, c0, start, memory, at);
      last := blk;
      if g.Halt? {
        return Halt(g.fault), last;
      }
      bytesRead := bytesRead + 1;
    }
    End(cache, g.value, i, blk, c0);
    return Ok(()), last;
  }

  /** readBytes, in terms of an earlier state c0 since which the cache was only read. */
  method ReadChecked(cache: BufferPool, diskBlockNum: nat, offset: nat, nBytes: nat, memory: array<byte>, at: nat,
                     ghost c0: Cache)
    returns (r: Result<()>)
    requires cache.Good() && LeftAsFound(c0, cache.Abs()) && |c0.disk| == DISKSIZE && offset <= BSIZE
    requires at + nBytes <= memory.Length && memory !in cache.Arrays()
    modifies cache`slots, cache`list, cache.buf, cache.head, cache.Arrays(), memory
    ensures cache.Good() && LeftAsFound(c0, cache.Abs())
    ensures r.Ok? <==> InRange(diskBlockNum, offset, nBytes) && Buffered(c0, diskBlockNum, offset, nBytes)
    ensures r.Halt? && Buffered(c0, diskBlockNum, offset, nBytes) ==> r == Halt(BlockPastDisk)
    ensures r.Ok? && nBytes > 0 ==> Delivered(c0, diskBlockNum * BSIZE + offset, nBytes, memory, at)
    ensures forall k :: 0 <= k < memory.Length && !(at <= k < at + nBytes) ==> memory[k] == old(memory[k])
  {
    if diskBlockNum >= DISKSIZE {
      return Halt(BlockPastDisk);
    }
    ghost var last;
    r, last := ReadLoop(cache, diskBlockNum, offset, nBytes, memory, at, c0);
    if r.Ok? {
      ThroughMeans(c0, diskBlockNum, offset, nBytes, last);
    } else {
      StoppedMeans(c0, diskBlockNum, offset, nBytes, last, r.fault);
    }
  }

  /** readBytes: copies n bytes from the disk into memory at `at`. It reaches
      the disk-size error exactly when a byte still to be read, or the first
      block, is past the end of the disk. */
  method ReadBytes(cache: BufferPool, diskBlockNum: nat, offset: nat, nBytes: nat, memory: array<byte>, at: nat)
    returns (r: Result<()>)
    requires Ready(cache) && offset <= BSIZE
    requires at + nBytes <= memory.Length && memory !in cache.Arrays()
    modifies cache`slots, cache`list, cache.buf, cache.head, cache.Arrays(), memory
    ensures cache.Good() && LeftAsFound(old(cache.Abs()), cache.Abs())
    ensures r.Ok? <==> InRange(diskBlockNum, offset, nBytes) && Buffered(old(cache.Abs()), diskBlockNum, offset, nBytes)
    ensures r.Halt? && Buffered(old(cache.Abs()), diskBlockNum, offset, nBytes) ==> r == Halt(BlockPastDisk)
    ensures r.Ok? && nBytes > 0 ==>
              memory[at..at + nBytes] == FlatSlice(old(cache.Abs()), diskBlockNum * BSIZE + offset, nBytes)
    ensures forall k :: 0 <= k < memory.Length && !(at <= k < at + nBytes) ==> memory[k] == old(memory[k])
  {
    ghost var c0 := cache.Abs();
    StartUnchanged(c0);
    LeftAsFoundMeans(c0, c0);
    r := ReadChecked(cache, diskBlockNum, offset, nBytes, memory, at, c0);
    if r.Ok? && nBytes > 0 {
      DeliveredMeans(c0, diskBlockNum * BSIZE + offset, nBytes, memory, at);
    }
  }

  // Writing
  // -------

  /** The disk of c0 with the first n bytes of src put over it from byte `start` on. */
  ghost function Overlay(c0: Cache, start: nat, src: seq<byte>, n: nat, a: nat): byte
    requires |c0.disk| == DISKSIZE && a < DISKBYTES && n <= |src|
  {
    if start <= a < start + n then src[a - start] else FlatByte(c0, a)
  }

  ghost predicate Overlaid(c0: Cache, c: Cache, start: nat, src: seq<byte>, n: nat)
    requires |c0.disk| == |c.disk| == DISKSIZE && n <= |src|
  {
    forall a :: 0 <= a < DISKBYTES ==> FlatByte(c, a) == Overlay(c0, start, src, n, a)
  }

  /** What a writer leaves behind: the bytes it wrote, on the disk too if
      nothing was dirty before, and nothing else. */
  ghost predicate Written(c0: Cache, c: Cache, start: nat, src: seq<byte>, n: nat) {
    && Sound(c0) && Sound(c) && n <= |src| && Overlaid(c0, c, start, src, n)
    && Refs(c.slots) == Refs(c0.slots)
    && (Spare(c) <==> Spare(c0))
    && (Clean(c0) ==> Clean(c))
    && (!Spare(c0) ==> forall m: nat :: Cached(c, m) <==> Cached(c0, m))
  }

  /** Only buffer i may have changes that are not on disk. */
  ghost predicate CleanBut(c: Cache, i: nat)
    requires OnDisk(c)
  {
    forall j :: 0 <= j < |c.slots| && j != i && c.slots[j].valid ==> c.slots[j].data == c.disk[c.slots[j].blockno]
  }

  /** In the middle of a write: buffer i is held for block d. */
  ghost predicate Writing(c0: Cache, c: Cache, i: nat, d: nat, start: nat, src: seq<byte>, n: nat) {
    && Sound(c0) && Sound(c) && n <= |src| && Overlaid(c0, c, start, src, n)
    && Held(c, i, d) && OneMore(c0, c, i)
    && (Clean(c0) ==> CleanBut(c, i))
    && (!Spare(c0) ==> forall m: nat :: Cached(c, m) <==> Cached(c0, m))
  }

  lemma StartWriting(c0: Cache, c: Cache, d: nat, start: nat, src: seq<byte>, n: nat)
    requires Written(c0, c, start, src, n) && d < DISKSIZE
    ensures BRead(c, d).Some? <==> Spare(c0) || Cached(c0, d)
    ensures BRead(c, d).Some? ==> var (e, i) := BRead(c, d).value; Writing(c0, e, i, d, start, src, n)
  {
    hide Refs, Find, View, FlatByte, NoStaleTwin, UnusedIsZero, Coherent, DistinctIds, BRead;
    BReadFails(c, d);
    if BRead(c, d).Some? {
      BReadEffect(c, d);
      SameViewsFlat(c, BRead(c, d).value.0);
      if !Spare(c0) {
        forall m: nat ensures Cached(BRead(c, d).value.0, m) <==> Cached(c0, m) {
          BReadCached(c, d, m);
        }
      }
    }
  }

  lemma StoreRefs(c: Cache, i: nat, data: Block)
    requires Sound(c) && i < |c.slots| && c.slots[i].valid && c.slots[i].refcnt > 0
    ensures Sound(Store(c, i, data)) && Refs(Store(c, i, data).slots) == Refs(c.slots)
    ensures forall m: nat :: Cached(Store(c, i, data), m) <==> Cached(c, m)
  {
    var d := Store(c, i, data);
    StoreView(c, i, data, 0);
    UpdateRefs(c.slots, i, d.slots[i]);
    assert Refs(c.slots)[c.slots[i].id := c.slots[i].refcnt] == Refs(c.slots);
    forall m: nat ensures Cached(d, m) <==> Cached(c, m) {
      assert forall k :: 0 <= k < |c.slots| ==> d.slots[k].blockno == c.slots[k].blockno;
    }
  }

  lemma StoreFlat(c: Cache, i: nat, d: nat, next: nat, x: byte, a: nat)
    requires Inv(c) && Held(c, i, d) && c.slots[i].data == View(c, d) && next < BSIZE && a < DISKBYTES
    ensures FlatByte(Store(c, i, c.slots[i].data[next := x]), a) ==
            if a == d * BSIZE + next then x else FlatByte(c, a)
  {
    StoreView(c, i, c.slots[i].data[next := x], a / BSIZE);
    assert a == d * BSIZE + next <==> a / BSIZE == d && a % BSIZE == next;
  }

  lemma StoreWriting(c0: Cache, c: Cache, i: nat, d: nat, start: nat, src: seq<byte>, n: nat, next: nat)
    requires Writing(c0, c, i, d, start, src, n) && n < |src|
    requires next < BSIZE && d * BSIZE + next == start + n
    ensures Writing(c0, Store(c, i, c.slots[i].data[next := src[n]]), i, d, start, src, n + 1)
  {
    hide Refs, Find, View, FlatByte, NoStaleTwin, UnusedIsZero, Coherent, DistinctIds;
    var data: Block := c.slots[i].data[next := src[n]];
    StoreRefs(c, i, data);
    LiveCopy(c, i);
    forall a | 0 <= a < DISKBYTES ensures FlatByte(Store(c, i, data), a) == Overlay(c0, start, src, n + 1, a) {
      assert FlatByte(c, a) == Overlay(c0, start, src, n, a);
      StoreFlat(c, i, d, next, src[n], a);
    }
  }

  lemma CleanFlushed(c: Cache, i: nat)
    requires Inv(c) && i < |c.slots| && c.slots[i].valid && CleanBut(c, i)
    ensures OnDisk(BWrite(c, i)) && Clean(BWrite(c, i))
  {
    var e := BWrite(c, i);
    forall j | 0 <= j < |e.slots| && e.slots[j].valid ensures e.slots[j].data == e.disk[e.slots[j].blockno] {
      LiveCopy(c, i);
      LiveCopy(c, j);
    }
  }

  lemma StopWriting(c0: Cache, c: Cache, i: nat, d: nat, start: nat, src: seq<byte>, n: nat)
    requires Writing(c0, c, i, d, start, src, n)
    ensures Written(c0, BRelse(BWrite(c, i), i), start, src, n)
  {
    hide Refs, Find, View, FlatByte, NoStaleTwin, UnusedIsZero, Coherent, DistinctIds;
    var e := BWrite(c, i);
    forall m | 0 <= m < DISKSIZE ensures View(e, m) == View(c, m) && Inv(e) {
      BWriteView(c, i, m);
    }
    BWriteView(c, i, d);
    LiveCopy(c, i);
    SameViewsFlat(c, e);
    if Clean(c0) {
      CleanFlushed(c, i);
    }
    BRelseEffect(c0, e, i, d);
    SameViewsFlat(e, BRelse(e, i));
    if !Spare(c0) {
      forall m: nat ensures Cached(BRelse(e, i), m) <==> Cached(c0, m) {
        BRelseCached(e, i, m);
      }
    }
  }

  // Sealed, as for reading.

  ghost predicate WrittenAt(k: nat, c0: Cache, c: Cache, start: nat, src: seq<byte>, n: nat) {
    if k == 0 then Written(c0, c, start, src, n) else WrittenAt(k - 1, c0, c, start, src, n)
  }

  ghost predicate WritingAt(k: nat, c0: Cache, c: Cache, i: nat, d: nat, start: nat, src: seq<byte>, n: nat) {
    if k == 0 then Writing(c0, c, i, d, start, src, n) else WritingAt(k - 1, c0, c, i, d, start, src, n)
  }

  lemma {:induction false} OpenWritten(k: nat, c0: Cache, c: Cache, start: nat, src: seq<byte>, n: nat)
    ensures WrittenAt(k, c0, c, start, src, n) <==> Written(c0, c, start, src, n)
  {
    if k > 0 {
      OpenWritten(k - 1, c0, c, start, src, n);
    }
  }

  lemma {:induction false} OpenWriting(k: nat, c0: Cache, c: Cache, i: nat, d: nat, start: nat, src: seq<byte>, n: nat)
    ensures WritingAt(k, c0, c, i, d, start, src, n) <==> Writing(c0, c, i, d, start, src, n)
  {
    if k > 0 {
      OpenWriting(k - 1, c0, c, i, d, start, src, n);
    }
  }

  /** Written, sealed. */
  ghost predicate WroteOver(c0: Cache, c: Cache, start: nat, src: seq<byte>, n: nat) {
    WrittenAt(SEAL, c0, c, start, src, n)
  }

  lemma WroteOverMeans(c0: Cache, c: Cache, start: nat, src: seq<byte>, n: nat)
    ensures WroteOver(c0, c, start, src, n) <==> Written(c0, c, start, src, n)
  {
    OpenWritten(SEAL, c0, c, start, src, n);
  }

  lemma StartWritten(c: Cache, start: nat, src: seq<byte>)
    requires Sound(c)
    ensures WroteOver(c, c, start, src, 0)
  {
    WroteOverMeans(c, c, start, src, 0);
  }

  /** bread, for writing. */
  method BeginWrite(cache: BufferPool, blk: nat, ghost c0: Cache, ghost start: nat, ghost src: seq<byte>, ghost n: nat)
    returns (r: Result<Buffer>, ghost i: nat)
    requires cache.Good() && WroteOver(c0, cache.Abs(), start, src, n) && blk < DISKSIZE
    modifies cache`slots, cache.buf`valid, cache.buf`blockno, cache.buf`refcnt, cache.Arrays()
    ensures cache.Good()
    ensures r.Ok? <==> Available(c0, blk)
    ensures r.Halt? ==> r == Halt(NoBuffers) && WroteOver(c0, cache.Abs(), start, src, n)
    ensures r.Ok? ==>
      WritingAt(SEAL, c0, cache.Abs(), i, blk, start, src, n) && i < |cache.list| && cache.list[i] == r.value
  {
    cache.OpenValid(SEAL);
    WroteOverMeans(c0, cache.Abs(), start, src, n);
    StartWriting(c0, cache.Abs(), blk, start, src, n);
    OpenAvailable(SEAL, c0, blk);
    r, i := cache.BRead(blk);
    cache.OpenValid(SEAL);
    WroteOverMeans(c0, cache.Abs(), start, src, n);
    OpenWriting(SEAL, c0, cache.Abs(), i, blk, start, src, n);
  }

  /** bwrite and brelse. */
  method EndWrite(cache: BufferPool, b: Buffer, ghost i: nat, ghost blk: nat, ghost c0: Cache, ghost start: nat,
                  ghost src: seq<byte>, ghost n: nat)
    requires cache.Good() && WritingAt(SEAL, c0, cache.Abs(), i, blk, start, src, n) && i < |cache.list|
        && cache.list[i] == b
    modifies cache, cache.buf, cache.head
    ensures cache.Good() && WroteOver(c0, cache.Abs(), start, src, n)
  {
    ghost var c := cache.Abs();
    cache.OpenValid(SEAL);
    OpenWriting(SEAL, c0, c, i, blk, start, src, n);
    StopWriting(c0, c, i, blk, start, src, n);
    cache.BWrite(b, i);
    assert cache.Abs() == BWrite(c, i);
    cache.BRelse(b, i);
    assert cache.Abs() == BRelse(BWrite(c, i), i);
    cache.OpenValid(SEAL);
    WroteOverMeans(c0, cache.Abs(), start, src, n);
  }

  /** On to the next block: bwrite, brelse, the check against the disk's end, bread. */
  method NextToWrite(cache: BufferPool, b: Buffer, ghost i: nat, blk: nat, ghost c0: Cache, ghost start: nat,
                     ghost src: seq<byte>, ghost n: nat)
    returns (r: Result<Buffer>, ghost j: nat)
    requires cache.Good() && WritingAt(SEAL, c0, cache.Abs(), i, blk, start, src, n) && i < |cache.list|
        && cache.list[i] == b
    modifies cache, cache.buf, cache.head, cache.Arrays()
    ensures cache.Good()
    ensures r.Ok? <==> blk + 1 < DISKSIZE && Available(c0, blk + 1)
    ensures r.Halt? ==> r == Halt(if blk + 1 < DISKSIZE then NoBuffers else BlockPastDisk)
    ensures r.Halt? ==> WroteOver(c0, cache.Abs(), start, src, n)
    ensures r.Ok? ==>
      WritingAt(SEAL, c0, cache.Abs(), j, blk + 1, start, src, n) && j < |cache.list| && cache.list[j] == r.value
  {
    EndWrite(cache, b, i, blk, c0, start, src, n);
    if blk + 1 >= DISKSIZE {
      return Halt(BlockPastDisk), 0;
    }
    r, j := BeginWrite(cache, blk + 1, c0, start, src, n);
  }

  /** Stores the next source byte into the held buffer. */
  method StoreNext(cache: BufferPool, b: Buffer, ghost i: nat, ghost blk: nat, next: nat, x: byte,
                 ghost c0: Cache, ghost start: nat, ghost src: seq<byte>, ghost n: nat)
    requires cache.Good() && WritingAt(SEAL, c0, cache.Abs(), i, blk, start, src, n) && i < |cache.list|
        && cache.list[i] == b
    requires n < |src| && x == src[n] && next < BSIZE && blk * BSIZE + next == start + n
    modifies cache`slots, cache.Arrays()
    ensures cache.Good() && WritingAt(SEAL, c0, cache.Abs(), i, blk, start, src, n + 1)
    ensures i < |cache.list| && cache.list[i] == b
  {
    ghost var c := cache.Abs();
    cache.OpenValid(SEAL);
    OpenWriting(SEAL, c0, c, i, blk, start, src, n);
    StoreWriting(c0, c, i, blk, start, src, n, next);
    cache.StoreByte(b, i, next, x);
    cache.OpenValid(SEAL);
    OpenWriting(SEAL, c0, cache.Abs(), i, blk, start, src, n + 1);
  }

  ghost predicate MidWrite(cache: BufferPool, b: Buffer, i: nat, blk: nat, next: nat, done: nat,
                           c0: Cache, start: nat, src: seq<byte>)
    reads cache, cache.head, cache.buf, cache.Arrays()
  {
    && cache.Good() && WritingAt(SEAL, c0, cache.Abs(), i, blk, start, src, done) && i < |cache.list|
      && cache.list[i] == b
    && blk < DISKSIZE && next <= BSIZE && blk * BSIZE + next == start + done
  }

  /** One round of the loop: the next block if this one is used up, then a byte. */
  method WriteRound(cache: BufferPool, b: Buffer, ghost i: nat, blk: nat, next: nat, x: byte,
                    ghost c0: Cache, ghost start: nat, ghost src: seq<byte>, ghost done: nat)
    returns (g: Result<Buffer>, ghost j: nat, blk': nat, next': nat)
    requires MidWrite(cache, b, i, blk, next, done, c0, start, src)
    requires done < |src| && x == src[done]
    modifies cache, cache.buf, cache.head, cache.Arrays()
    ensures cache.Good()
    ensures blk' == if next == BSIZE then blk + 1 else blk
    ensures next < BSIZE ==> g.Ok?
    ensures next == BSIZE ==> (g.Ok? <==> blk' < DISKSIZE && Available(c0, blk'))
    ensures g.Ok? ==> MidWrite(cache, g.value, j, blk', next', done + 1, c0, start, src)
    ensures g.Halt? ==> g == Halt(if blk' < DISKSIZE then NoBuffers else BlockPastDisk)
    ensures g.Halt? ==> WroteOver(c0, cache.Abs(), start, src, done)
  {
    g, j, blk', next' := Ok(b), i, blk, next;
    if next == BSIZE {
      g, j := NextToWrite(cache, b, i, blk, c0, start, src, done);
      blk', next' := blk + 1, 0;
      if g.Halt? {
        return;
      }
    }
    StoreNext(cache, g.value, j, blk', next', x, c0, start, src, done);
    next' := next' + 1;
  }

  /** The transfer itself; `last` is the block it ended on and `done` the bytes written. */
  method WriteLoop(cache: BufferPool, diskBlockNum: nat, offset: nat, nBytes: nat, memory: array<byte>, at: nat,
                   ghost c0: Cache)
    returns (r: Result<()>, ghost last: nat, ghost done: nat)
    requires offset <= BSIZE && diskBlockNum < DISKSIZE
    requires at + nBytes <= memory.Length && memory !in cache.Arrays()
    requires cache.Good() && WroteOver(c0, cache.Abs(), diskBlockNum * BSIZE + offset, memory[at..at + nBytes], 0)
    modifies cache, cache.buf, cache.head, cache.Arrays()
    ensures cache.Good() && WroteOver(c0, cache.Abs(), diskBlockNum * BSIZE + offset, old(memory[at..at + nBytes]),
                                      done)
    ensures r.Ok? ==> done == nBytes && Through(c0, diskBlockNum, offset, nBytes, last)
    ensures r.Halt? ==> StoppedAt(c0, diskBlockNum, offset, nBytes, last, r.fault)
    ensures last <= DISKSIZE
    ensures r.Halt? && last > diskBlockNum ==> diskBlockNum * BSIZE + offset + done == last * BSIZE
    ensures r.Halt? && last == diskBlockNum ==> done == 0
  {
    hide WritingAt, WrittenAt, AvailableAt, AvailableRange;
    var blk: nat, next: nat, bytesWritten: nat := diskBlockNum, offset, 0;
    ghost var start := diskBlockNum * BSIZE + offset;
    ghost var src := memory[at..at + nBytes];
    ghost var i: nat;
    var g;
    g, i := BeginWrite(cache, blk, c0, start, src, 0);
    last, done := blk, 0;
    if g.Halt? {
      return Halt(g.fault), last, done;
    }

    FirstBlock(c0, diskBlockNum, offset);
    while bytesWritten < nBytes
      invariant bytesWritten <= nBytes && g.Ok? && blk == last && done == bytesWritten
      invariant memory[at..at + nBytes] == src
      invariant MidWrite(cache, g.value, i, blk, next, bytesWritten, c0, start, src)
      invariant Through(c0, diskBlockNum, offset, bytesWritten, last)
    {
      if next == BSIZE {
        NextBlock(c0, diskBlockNum, offset, nBytes, bytesWritten, blk);
      }
      assert src[bytesWritten] == memory[at + bytesWritten];
      g, i, blk, next := WriteRound(cache, g.value, i, blk, next, memory[at + bytesWritten], c0, start, src,
                                    bytesWritten);
      last := blk;
      if g.Halt? {
        return Halt(g.fault), last, done;
      }
      bytesWritten := bytesWritten + 1;
      done := bytesWritten;
    }
    EndWrite(cache, g.value, i, blk, c0, start, src, nBytes);
    return Ok(()), last, done;
  }

  /** writeBytes: puts n bytes from memory on the disk. A run that stops at the
      end of the disk has written exactly the bytes that fit. */
  method WriteBytes(cache: BufferPool, diskBlockNum: nat, offset: nat, nBytes: nat, memory: array<byte>, at: nat)
    returns (r: Result<()>)
    requires Ready(cache) && offset <= BSIZE
    requires at + nBytes <= memory.Length && memory !in cache.Arrays()
    modifies cache, cache.buf, cache.head, cache.Arrays()
    ensures cache.Good()
    ensures r.Ok? <==> InRange(diskBlockNum, offset, nBytes) && Buffered(old(cache.Abs()), diskBlockNum, offset, nBytes)
    ensures r.Halt? && Buffered(old(cache.Abs()), diskBlockNum, offset, nBytes) ==> r == Halt(BlockPastDisk)
    ensures r.Ok? ==>
              WroteOver(old(cache.Abs()), cache.Abs(), diskBlockNum * BSIZE + offset, old(memory[at..at + nBytes]),
                        nBytes)
    ensures r == Halt(BlockPastDisk) ==>
              WroteOver(old(cache.Abs()), cache.Abs(), diskBlockNum * BSIZE + offset, old(memory[at..at + nBytes]),
                        Fitting(diskBlockNum, offset, nBytes))
  {
    ghost var c0 := cache.Abs();
    StartWritten(c0, diskBlockNum * BSIZE + offset, memory[at..at + nBytes]);
    if diskBlockNum >= DISKSIZE {
      return Halt(BlockPastDisk);
    }
    cache.OpenValid(SEAL);
    ghost var last, done;
    r, last, done := WriteLoop(cache, diskBlockNum, offset, nBytes, memory, at, c0);
    if r.Ok? {
      ThroughMeans(c0, diskBlockNum, offset, nBytes, last);
    } else {
      StoppedMeans(c0, diskBlockNum, offset, nBytes, last, r.fault);
    }
  }

  /** How many of n bytes fit between the start position and the end of the disk. */
  ghost function Fitting(blk: nat, off: nat, n: nat): (f: nat)
    ensures f <= n
  {
    if blk * BSIZE + off + n <= DISKBYTES then n
    else if blk * BSIZE + off <= DISKBYTES then DISKBYTES - (blk * BSIZE + off)
    else 0
  }

  /** What was written is what is read. */
  lemma WriteThenRead(c0: Cache, c: Cache, start: nat, src: seq<byte>, n: nat, a: nat, m: nat)
    requires Written(c0, c, start, src, n) && start <= a && a + m <= start + n && a + m <= DISKBYTES
    ensures FlatSlice(c, a, m) == src[a - start..a - start + m]
  {
    forall k | 0 <= k < m ensures FlatSlice(c, a, m)[k] == src[a - start + k] {
      FlatSliceAt(c, a, m, k);
      assert FlatByte(c, a + k) == Overlay(c0, start, src, n, a + k);
    }
  }

  /** The rest of the disk reads as before. */
  lemma WriteThenReadElsewhere(c0: Cache, c: Cache, start: nat, src: seq<byte>, n: nat, a: nat, m: nat)
    requires Written(c0, c, start, src, n) && a + m <= DISKBYTES && (a + m <= start || start + n <= a)
    ensures FlatSlice(c, a, m) == FlatSlice(c0, a, m)
  {
    forall k | 0 <= k < m ensures FlatSlice(c, a, m)[k] == FlatSlice(c0, a, m)[k] {
      FlatSliceAt(c, a, m, k);
      FlatSliceAt(c0, a, m, k);
      assert FlatByte(c, a + k) == Overlay(c0, start, src, n, a + k);
    }
  }

  /** With nothing dirty before, the device itself holds the bytes. */
  lemma WrittenOnDevice(c0: Cache, c: Cache, start: nat, src: seq<byte>, n: nat, a: nat)
    requires Written(c0, c, start, src, n) && Clean(c0) && a < DISKBYTES
    ensures c.disk[a / BSIZE][a % BSIZE] ==
            if start <= a < start + n then src[a - start] else c0.disk[a / BSIZE][a % BSIZE]
  {
    CleanFlat(c0, a);
    CleanFlat(c, a);
    assert FlatByte(c, a) == Overlay(c0, start, src, n, a);
  }
}
