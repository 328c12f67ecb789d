/** Reading the loadable segments of an ELF program from the disk (kernel/elfReader.c). */
module Elf {
  import opened Bits
  import opened BufferCache
  import opened CacheSpec
  import opened DiskBytes
  import opened Halting
  import opened Seal
  import Sv39

  const ELF_MAGIC: nat := 0x464C457F
  const ELF_PROG_LOAD: nat := 1
  const ELFSIZE: nat := 30
  /** sizeof(Elfhdr) and sizeof(Proghdr). */
  const EHSIZE: nat := 64
  const PHSIZE: nat := 56

  // Fields, least significant byte first
  // ------------------------------------

  function U16(b: seq<byte>, at: nat): (r: nat)
    requires at + 2 <= |b|
    ensures r < 0x1_0000
  {
    var low: nat, high: nat := b[at], b[at + 1];
    low + 0x100 * high
  }

  function U32(b: seq<byte>, at: nat): (r: nat)
    requires at + 4 <= |b|
    ensures r < 0x1_0000_0000
  {
    U16(b, at) + 0x1_0000 * U16(b, at + 2)
  }

  function U64(b: seq<byte>, at: nat): uint64
    requires at + 8 <= |b|
  {
    U32(b, at) + 0x1_0000_0000 * U32(b, at + 4)
  }

  type ushort = n: nat | n < 0x1_0000

  datatype FileHeader = FileHeader(magic: nat, entry: uint64, phoff: uint64, phnum: ushort)

  function ParseFile(b: seq<byte>): FileHeader
    requires |b| == EHSIZE
  {
    FileHeader(U32(b, 0), U64(b, 24), U64(b, 32), U16(b, 56))
  }

  datatype Segment = Segment(off: uint64, vaddr: uint64, filesz: uint64, memsz: uint64)

  datatype ProgramHeader = ProgramHeader(kind: nat, segment: Segment)

  function ParseProgram(b: seq<byte>): ProgramHeader
    requires |b| == PHSIZE
  {
    ProgramHeader(U32(b, 0), Segment(U64(b, 8), U64(b, 16), U64(b, 32), U64(b, 40)))
  }

  // C's int
  // -------

  /** Conversion of a 64-bit value to a 32-bit int, as gcc does it. */
  function ToInt32(x: nat): int {
    var y := x % 0x1_0000_0000;
    if y < 0x8000_0000 then y else y - 0x1_0000_0000
  }

  /** C's division by BSIZE and its remainder: both truncate toward zero. */
  function DivBlock(x: int): int {
    if x >= 0 then x / BSIZE else -((-x) / BSIZE)
  }

  function RemBlock(x: int): int {
    if x >= 0 then x % BSIZE else -((-x) % BSIZE)
  }

  // What a file says
  // ----------------

  /** Where a program stands on the disk. */
  datatype Extent = Extent(startBlock: nat, startOff: nat, endBlock: nat, endOff: nat)

  /** The file header, if it is on the disk. */
  ghost function HeaderOf(c: Cache, x: Extent): FileHeader
    requires |c.disk| == DISKSIZE && InRange(x.startBlock, x.startOff, EHSIZE)
  {
    ParseFile(FlatSlice(c, x.startBlock * BSIZE + x.startOff, EHSIZE))
  }

  /** The int that `off += elf.phoff` leaves. */
  function FirstOff(x: Extent, phoff: uint64): int {
    ToInt32((x.startOff + phoff) % TWO64)
  }

  /** Byte position of program header j, before any wrap. */
  function HeaderPos(x: Extent, phoff: uint64, j: nat): int {
    x.startBlock * BSIZE + FirstOff(x, phoff) + PHSIZE * j
  }

  /** The end position the reader compares with, as a 64-bit value. */
  function EndPos(x: Extent): nat {
    (x.endBlock * BSIZE + x.endOff) % TWO64
  }

  ghost predicate OnDiskAt(pos: int, n: nat) {
    0 <= pos && pos + n <= DISKBYTES
  }

  ghost function ProgramAt(c: Cache, x: Extent, phoff: uint64, j: nat): ProgramHeader
    requires |c.disk| == DISKSIZE && OnDiskAt(HeaderPos(x, phoff, j), PHSIZE)
  {
    ParseProgram(FlatSlice(c, HeaderPos(x, phoff, j), PHSIZE))
  }

  ghost predicate IsLoad(c: Cache, x: Extent, phoff: uint64, j: nat)
    requires |c.disk| == DISKSIZE
  {
    OnDiskAt(HeaderPos(x, phoff, j), PHSIZE) && ProgramAt(c, x, phoff, j).kind == ELF_PROG_LOAD
  }

  /** The segments of the LOAD headers among the first n, in file order. */
  ghost function Loads(c: Cache, x: Extent, phoff: uint64, n: nat): seq<Segment>
    requires |c.disk| == DISKSIZE
  {
    if n == 0 then []
    else if IsLoad(c, x, phoff, n - 1) then Loads(c, x, phoff, n - 1) + [ProgramAt(c, x, phoff, n - 1).segment]
    else Loads(c, x, phoff, n - 1)
  }

  /** Index of the first LOAD header, or n. */
  ghost function FirstLoad(c: Cache, x: Extent, phoff: uint64, n: nat): (f: nat)
    requires |c.disk| == DISKSIZE
    ensures f <= n
  {
    if n == 0 then 0
    else
      var f := FirstLoad(c, x, phoff, n - 1);
      if f < n - 1 || IsLoad(c, x, phoff, n - 1) then f else n
  }

  /** The reader's count when it comes to header j: headers advance the count by one, LOAD
      headers by one more, and the first LOAD header starts it over. */
  ghost function CountAt(c: Cache, x: Extent, phoff: uint64, j: nat): nat
    requires |c.disk| == DISKSIZE
  {
    var f := FirstLoad(c, x, phoff, j);
    if f == j then j else (j - f) + |Loads(c, x, phoff, j)|
  }

  ghost predicate ValidSegment(s: Segment) {
    s.filesz <= s.memsz && s.vaddr + s.memsz < TWO64 && s.vaddr % Sv39.PGSIZE == 0
  }

  /** Header j is not past the end given by the caller, lies on the disk and,
      if it is a LOAD header, is well-formed and finds a node. */
  ghost predicate Fine(c: Cache, x: Extent, phoff: uint64, j: nat)
    requires |c.disk| == DISKSIZE
  {
    && HeaderPos(x, phoff, j) % TWO64 <= EndPos(x)
    && OnDiskAt(HeaderPos(x, phoff, j), PHSIZE)
    && (j == 0 ==> RemBlock(FirstOff(x, phoff)) >= 0)
    && (IsLoad(c, x, phoff, j) ==>
          ValidSegment(ProgramAt(c, x, phoff, j).segment) && CountAt(c, x, phoff, j) < ELFSIZE)
  }

  ghost predicate AllFine(c: Cache, x: Extent, phoff: uint64, n: nat)
    requires |c.disk| == DISKSIZE
  {
    n == 0 || (AllFine(c, x, phoff, n - 1) && FineAt(SEAL, c, x, phoff, n - 1))
  }

  /** Fine, sealed. */
  ghost predicate FineAt(k: nat, c: Cache, x: Extent, phoff: uint64, j: nat)
    requires |c.disk| == DISKSIZE
  {
    if k == 0 then Fine(c, x, phoff, j) else FineAt(k - 1, c, x, phoff, j)
  }

  lemma {:induction false} OpenFine(k: nat, c: Cache, x: Extent, phoff: uint64, j: nat)
    requires |c.disk| == DISKSIZE
    ensures FineAt(k, c, x, phoff, j) <==> Fine(c, x, phoff, j)
  {
    if k > 0 {
      OpenFine(k - 1, c, x, phoff, j);
    }
  }

  /** LOAD headers from the first one on are at most the headers from there on. */
  lemma {:induction false} LoadsSpan(c: Cache, x: Extent, phoff: uint64, n: nat)
    requires |c.disk| == DISKSIZE
    ensures var f := FirstLoad(c, x, phoff, n);
      && |Loads(c, x, phoff, n)| <= n - f
      && (f == n <==> Loads(c, x, phoff, n) == [])
  {
    if n > 0 {
      LoadsSpan(c, x, phoff, n - 1);
    }
  }

  lemma RoomForOne(c: Cache, x: Extent, phoff: uint64, n: nat)
    requires |c.disk| == DISKSIZE && CountAt(c, x, phoff, n) < ELFSIZE
    ensures |Loads(c, x, phoff, n)| < 15
  {
    hide Loads, FirstLoad;
    LoadsSpan(c, x, phoff, n);
  }

  lemma LoadsLonger(c: Cache, x: Extent, phoff: uint64, n: nat)
    requires |c.disk| == DISKSIZE
    ensures Loads(c, x, phoff, 0) == []
    ensures |Loads(c, x, phoff, n + 1)| == |Loads(c, x, phoff, n)| + if IsLoad(c, x, phoff, n) then 1 else 0
  {
    hide IsLoad, ProgramAt;
  }

  /** However many nodes there are, a program has at most 15 segments. */
  lemma {:induction false} AtMostFifteen(c: Cache, x: Extent, phoff: uint64, n: nat)
    requires |c.disk| == DISKSIZE && AllFine(c, x, phoff, n)
    ensures |Loads(c, x, phoff, n)| <= 15
  {
    hide Loads, IsLoad, ProgramAt, ValidSegment, HeaderPos, CountAt, RemBlock, FirstOff;
    if n == 0 {
      LoadsLonger(c, x, phoff, 0);
    } else {
      AtMostFifteen(c, x, phoff, n - 1);
      LoadsLonger(c, x, phoff, n - 1);
      OpenFine(SEAL, c, x, phoff, n - 1);
      if IsLoad(c, x, phoff, n - 1) {
        RoomForOne(c, x, phoff, n - 1);
      }
    }
  }

  /** Every segment of an accepted file is well-formed. */
  lemma {:induction false} LoadsValid(c: Cache, x: Extent, phoff: uint64, n: nat, k: nat)
    requires |c.disk| == DISKSIZE && AllFine(c, x, phoff, n) && k < |Loads(c, x, phoff, n)|
    ensures ValidSegment(Loads(c, x, phoff, n)[k])
  {
    if k < |Loads(c, x, phoff, n - 1)| {
      LoadsValid(c, x, phoff, n - 1, k);
    } else {
      OpenFine(SEAL, c, x, phoff, n - 1);
    }
  }

  // The list of segments
  // --------------------

  class ElfNode {
    var off: uint64
    var vaddr: uint64
    var filesz: uint64
    var memsz: uint64
    var prev: ElfNode?
    var next: ElfNode?

    constructor () {
      off, vaddr, filesz, memsz, prev, next := 0, 0, 0, 0, null, null;
    }
  }

  /** struct ElfreadList. */
  class ElfReadList {
    var entry: uint64
    var head: ElfNode?
    var tail: ElfNode?

    constructor ()
      ensures head == null && tail == null && entry == 0
    {
      entry, head, tail := 0, null, null;
    }
  }

  /** Node k of the list and its neighbours. */
  ghost predicate NodeHolds(nodes: seq<ElfNode>, idxs: seq<nat>, segs: seq<Segment>, k: nat)
    requires k < |idxs| == |segs| && forall i :: 0 <= i < |idxs| ==> idxs[i] < |nodes|
    reads nodes
  {
    var n := nodes[idxs[k]];
    && Segment(n.off, n.vaddr, n.filesz, n.memsz) == segs[k]
    && n.next == (if k + 1 < |idxs| then nodes[idxs[k + 1]] else null)
    && n.prev == (if k > 0 then nodes[idxs[k - 1]] else null)
  }

  /** The list is doubly linked, null at both ends, through nodes of increasing
      index, and carries the segments in order. */
  ghost predicate IsList(nodes: seq<ElfNode>, list: ElfReadList, idxs: seq<nat>, segs: seq<Segment>)
    reads nodes, list
  {
    && |idxs| == |segs|
    && (forall i :: 0 <= i < |idxs| ==> idxs[i] < |nodes|)
    && (forall i, j :: 0 <= i < j < |idxs| ==> idxs[i] < idxs[j])
    && list.head == (if idxs == [] then null else nodes[idxs[0]])
    && list.tail == (if idxs == [] then null else nodes[idxs[|idxs| - 1]])
    && forall k :: 0 <= k < |idxs| ==> NodeHolds(nodes, idxs, segs, k)
  }

  ghost predicate DistinctNodes(nodes: seq<ElfNode>) {
    |nodes| == ELFSIZE && forall i, j :: 0 <= i < j < |nodes| ==> nodes[i] != nodes[j]
  }

  /** The first node of a list (kernel/elfReader.c:95-99). */
  method FirstNode(nodes: seq<ElfNode>, list: ElfReadList, s: Segment)
    requires DistinctNodes(nodes)
    modifies nodes, list
    ensures IsList(nodes, list, [0], [s]) && list.entry == old(list.entry)
  {
    var n := nodes[0];
    list.head, list.tail := n, n;
    n.next, n.prev := null, null;
    n.off, n.vaddr, n.filesz, n.memsz := s.off, s.vaddr, s.filesz, s.memsz;
  }

  /** A node behind the others (kernel/elfReader.c:100-112). */
  method NextNode(nodes: seq<ElfNode>, list: ElfReadList, cnt: nat, s: Segment, ghost idxs: seq<nat>,
                  ghost segs: seq<Segment>)
    requires DistinctNodes(nodes) && IsList(nodes, list, idxs, segs) && cnt < ELFSIZE
    requires idxs != [] && idxs[|idxs| - 1] < cnt
    modifies nodes, list
    ensures IsList(nodes, list, idxs + [cnt], segs + [s]) && list.entry == old(list.entry)
  {
    assert NodeHolds(nodes, idxs, segs, |idxs| - 1);
    var n := nodes[cnt];
    list.tail.next := n;
    n.prev := list.tail;
    n.next := null;
    list.tail := n;
    n.off, n.vaddr, n.filesz, n.memsz := s.off, s.vaddr, s.filesz, s.memsz;
    ghost var idxs' := idxs + [cnt];
    assert forall k :: 0 <= k < |idxs| ==> idxs'[k] == idxs[k];
    forall k | 0 <= k < |idxs'| ensures NodeHolds(nodes, idxs', segs + [s], k) {
      if k < |idxs| {
        assert old(NodeHolds(nodes, idxs, segs, k));
        assert idxs[k] < cnt && nodes[idxs[k]] != n;
        if k + 1 < |idxs| {
          assert idxs[k] < idxs[|idxs| - 1] && nodes[idxs[k]] != nodes[idxs[|idxs| - 1]];
        }
      }
    }
  }

  /** allocateELFReader: a new node at the tail; the first one starts the count over. */
  method AllocateELFReader(nodes: seq<ElfNode>, list: ElfReadList, cnt: nat, s: Segment, ghost idxs: seq<nat>,
                           ghost segs: seq<Segment>)
    returns (cnt': nat, ghost idxs': seq<nat>)
    requires DistinctNodes(nodes) && IsList(nodes, list, idxs, segs) && cnt < ELFSIZE
    requires idxs != [] ==> idxs[|idxs| - 1] < cnt
    modifies nodes, list
    ensures idxs' == idxs + [if idxs == [] then 0 else cnt]
    ensures cnt' == if idxs == [] then 1 else cnt + 1
    ensures IsList(nodes, list, idxs', segs + [s]) && list.entry == old(list.entry)
  {
    if list.head == null {
      assert segs + [s] == [s];
      FirstNode(nodes, list, s);
      return 1, [0];
    }
    NextNode(nodes, list, cnt, s, idxs, segs);
    return cnt + 1, idxs + [cnt];
  }

  // The reader
  // ----------

  /** Header j stops the reader for good: it is to be read, but is not on the
      disk, or its offset in the block came out negative. */
  ghost predicate StopsAt(c: Cache, x: Extent, phoff: uint64, j: nat)
    requires |c.disk| == DISKSIZE
  {
    && HeaderPos(x, phoff, j) % TWO64 <= EndPos(x)
    && (!OnDiskAt(HeaderPos(x, phoff, j), PHSIZE) || (j == 0 && RemBlock(FirstOff(x, phoff)) < 0))
  }

  /** The reader stops at one of the first n headers, those before it being fine. */
  ghost predicate StopsBefore(c: Cache, x: Extent, phoff: uint64, n: nat)
    requires |c.disk| == DISKSIZE
  {
    n > 0 && (StopsBefore(c, x, phoff, n - 1) || (AllFine(c, x, phoff, n - 1) && StopAt(SEAL, c, x, phoff, n - 1)))
  }

  /** StopsAt, sealed. */
  ghost predicate StopAt(k: nat, c: Cache, x: Extent, phoff: uint64, j: nat)
    requires |c.disk| == DISKSIZE
  {
    if k == 0 then StopsAt(c, x, phoff, j) else StopAt(k - 1, c, x, phoff, j)
  }

  lemma {:induction false} OpenStop(k: nat, c: Cache, x: Extent, phoff: uint64, j: nat)
    requires |c.disk| == DISKSIZE
    ensures StopAt(k, c, x, phoff, j) <==> StopsAt(c, x, phoff, j)
  {
    if k > 0 {
      OpenStop(k - 1, c, x, phoff, j);
    }
  }

  /** The reader reaches an error instead of returning. */
  ghost predicate ReaderStops(c: Cache, x: Extent)
    requires |c.disk| == DISKSIZE
  {
    x.startBlock < DISKSIZE &&
    (!InRange(x.startBlock, x.startOff, EHSIZE) ||
     var h := HeaderOf(c, x);
     h.magic == ELF_MAGIC && StopsBefore(c, x, h.phoff, h.phnum))
  }

  /** The list the reader returns: every LOAD segment, or nothing. */
  ghost function Result(c: Cache, x: Extent): seq<Segment>
    requires |c.disk| == DISKSIZE
  {
    if x.startBlock >= DISKSIZE || !InRange(x.startBlock, x.startOff, EHSIZE) then []
    else
      var h := HeaderOf(c, x);
      if h.magic != ELF_MAGIC || !AllFine(c, x, h.phoff, h.phnum) then []
      else Loads(c, x, h.phoff, h.phnum)
  }

  lemma {:induction false} FineMeansNoStop(c: Cache, x: Extent, phoff: uint64, n: nat)
    requires |c.disk| == DISKSIZE && AllFine(c, x, phoff, n)
    ensures !StopsBefore(c, x, phoff, n)
  {
    if n > 0 {
      FineMeansNoStop(c, x, phoff, n - 1);
      OpenFine(SEAL, c, x, phoff, n - 1);
      OpenStop(SEAL, c, x, phoff, n - 1);
    }
  }

  // What header i does decides, whatever headers come after it.
  lemma {:induction false} NotAllFine(c: Cache, x: Extent, phoff: uint64, i: nat, n: nat)
    requires |c.disk| == DISKSIZE && i < n && !AllFine(c, x, phoff, i + 1)
    ensures !AllFine(c, x, phoff, n)
  {
    if i + 1 < n {
      NotAllFine(c, x, phoff, i, n - 1);
    }
  }

  lemma {:induction false} Decided(c: Cache, x: Extent, phoff: uint64, i: nat, n: nat)
    requires |c.disk| == DISKSIZE && i < n && AllFine(c, x, phoff, i) && !AllFine(c, x, phoff, i + 1)
    ensures StopsBefore(c, x, phoff, n) <==> StopAt(SEAL, c, x, phoff, i)
  {
    if n == i + 1 {
      FineMeansNoStop(c, x, phoff, i);
    } else {
      Decided(c, x, phoff, i, n - 1);
      NotAllFine(c, x, phoff, i, n - 1);
    }
  }

  /** readBytes into a buffer of its own, in terms of the disk at the start. */
  method ReadAt(cache: BufferPool, blk: nat, off: nat, n: nat, buffer: array<byte>, ghost c0: Cache)
    returns (r: Halting.Result<()>)
    requires cache.Good() && LeftAsFound(c0, cache.Abs()) && off <= BSIZE && 0 < n == buffer.Length
    requires buffer !in cache.Arrays() && |c0.disk| == DISKSIZE
    modifies cache`slots, cache`list, cache.buf, cache.head, cache.Arrays(), buffer
    ensures cache.Good() && LeftAsFound(c0, cache.Abs())
    ensures r.Ok? ==> InRange(blk, off, n) && buffer[..] == FlatSlice(c0, blk * BSIZE + off, n)
    ensures Spare(c0) ==> (r.Ok? <==> InRange(blk, off, n))
  {
    hide Delivered, FlatSlice, FlatByte, IdleAt, BufferPool.ValidAt, Spare;
    r := ReadChecked(cache, blk, off, n, buffer, 0, c0);
    if r.Ok? {
      DeliveredMeans(c0, blk * BSIZE + off, n, buffer, 0);
      assert buffer[..] == buffer[0..0 + n];
    }
  }

  // The position counters: blockNum is B modulo 2^64, and B and off together
  // give the position of header i.
  ghost predicate Located(x: Extent, phoff: uint64, i: nat, blockNum: uint64, off: int, B: int) {
    && x.startBlock < DISKSIZE && i < 0x1_0000
    && blockNum == B % TWO64
    && B * BSIZE + off == HeaderPos(x, phoff, i)
    && (if i == 0 then off == FirstOff(x, phoff) && B == x.startBlock else 0 <= off < 2 * BSIZE)
  }

  lemma BlockDivision(off: int)
    ensures DivBlock(off) * BSIZE + RemBlock(off) == off
    ensures -1024 < RemBlock(off) < 1024
    ensures off >= 0 ==> RemBlock(off) >= 0 && DivBlock(off) >= 0
    ensures off < 0 ==> RemBlock(off) <= 0 && DivBlock(off) <= 0
  {
  }

  lemma AddModulo(a: int, d: int)
    ensures (a % TWO64 + d) % TWO64 == (a + d) % TWO64
  {
  }

  lemma WholeBlocks(b: int, off: int)
    ensures (b % TWO64 * BSIZE + off) % TWO64 == (b * BSIZE + off) % TWO64
  {
    var q := b / TWO64;
    assert b == q * TWO64 + b % TWO64;
    assert b * BSIZE + off == q * BSIZE * TWO64 + (b % TWO64 * BSIZE + off);
  }

  /** Moving whole blocks from the offset to the block number keeps the position. */
  lemma Renormalised(x: Extent, phoff: uint64, i: nat, blockNum: uint64, off: int, B: int)
    requires Located(x, phoff, i, blockNum, off, B)
    ensures var b, o := (blockNum + DivBlock(off)) % TWO64, RemBlock(off);
      && b == (B + DivBlock(off)) % TWO64
      && (B + DivBlock(off)) * BSIZE + o == HeaderPos(x, phoff, i)
      && (b * BSIZE + o) % TWO64 == HeaderPos(x, phoff, i) % TWO64
      && (o < 0 <==> i == 0 && RemBlock(FirstOff(x, phoff)) < 0)
      && o < BSIZE
      && (o >= 0 ==> (InRange(b, o, PHSIZE) <==> OnDiskAt(HeaderPos(x, phoff, i), PHSIZE)))
      && (o >= 0 && InRange(b, o, PHSIZE) ==> b * BSIZE + o == HeaderPos(x, phoff, i))
  {
    hide DivBlock, RemBlock, FirstOff, HeaderPos;
    BlockDivision(off);
    AddModulo(B, DivBlock(off));
    WholeBlocks(B + DivBlock(off), RemBlock(off));
    PositionBound(x, phoff, i);
    NarrowBlock(B + DivBlock(off), RemBlock(off), HeaderPos(x, phoff, i));
  }

  lemma PositionBound(x: Extent, phoff: uint64, i: nat)
    requires x.startBlock < DISKSIZE && i < 0x1_0000
    ensures -0x1_0000_0000 < HeaderPos(x, phoff, i) < 0x2_0000_0000
  {
  }

  /** A block number that far from the wrap is itself, or too large for the disk. */
  lemma NarrowBlock(b: int, o: int, pos: int)
    requires b * BSIZE + o == pos && -1024 < o < BSIZE && -0x1_0000_0000 < pos < 0x2_0000_0000
    ensures o >= 0 ==> (InRange(b % TWO64, o, PHSIZE) <==> OnDiskAt(pos, PHSIZE))
    ensures o >= 0 && InRange(b % TWO64, o, PHSIZE) ==> b % TWO64 == b
  {
    assert -0x100_0000 < b < 0x100_0000;
    if b < 0 {
      assert b % TWO64 == b + TWO64;
    } else {
      assert b % TWO64 == b;
    }
  }

  lemma LocatedFirst(x: Extent, phoff: uint64)
    requires x.startBlock < DISKSIZE
    ensures Located(x, phoff, 0, x.startBlock, FirstOff(x, phoff), x.startBlock)
  {
  }

  lemma LocatedNext(x: Extent, phoff: uint64, i: nat, b: uint64, o: int, B: int)
    requires x.startBlock < DISKSIZE && i + 1 < 0x1_0000 && b == B % TWO64
    requires 0 <= o < BSIZE && B * BSIZE + o == HeaderPos(x, phoff, i)
    ensures Located(x, phoff, i + 1, b, o + PHSIZE, B)
  {
  }

  datatype Step = Next | Reject | Stop(fault: Fault)

  /** The list and the count before header i. */
  ghost predicate Collected(nodes: seq<ElfNode>, list: ElfReadList, x: Extent, phoff: uint64, i: nat,
                            cnt: nat, c0: Cache, idxs: seq<nat>)
    requires |c0.disk| == DISKSIZE
    reads nodes, list
  {
    && DistinctNodes(nodes) && IsList(nodes, list, idxs, Loads(c0, x, phoff, i))
    && cnt == CountAt(c0, x, phoff, i) && (idxs != [] ==> idxs[|idxs| - 1] < cnt)
  }

  lemma NoneCollected(nodes: seq<ElfNode>, list: ElfReadList, x: Extent, phoff: uint64, c0: Cache)
    requires |c0.disk| == DISKSIZE && DistinctNodes(nodes) && list.head == null && list.tail == null
    ensures Collected(nodes, list, x, phoff, 0, 0, c0, [])
  {
  }

  lemma CollectedIs(nodes: seq<ElfNode>, list: ElfReadList, x: Extent, phoff: uint64, i: nat, cnt: nat, c0: Cache,
                    idxs: seq<nat>)
    requires |c0.disk| == DISKSIZE && Collected(nodes, list, x, phoff, i, cnt, c0, idxs)
    ensures DistinctNodes(nodes) && IsList(nodes, list, idxs, Loads(c0, x, phoff, i))
  {
  }

  lemma CountNext(c: Cache, x: Extent, phoff: uint64, i: nat)
    requires |c.disk| == DISKSIZE
    ensures CountAt(c, x, phoff, i + 1) ==
      if !IsLoad(c, x, phoff, i) then CountAt(c, x, phoff, i) + 1
      else if Loads(c, x, phoff, i) == [] then 2
      else CountAt(c, x, phoff, i) + 2
  {
    LoadsSpan(c, x, phoff, i);
  }

  /** What the checks of a LOAD header decide. */
  method AppendSegment(nodes: seq<ElfNode>, list: ElfReadList, cnt: nat, s: Segment, ghost idxs: seq<nat>,
                       ghost segs: seq<Segment>)
    returns (ok: bool, cnt': nat, ghost idxs': seq<nat>)
    requires DistinctNodes(nodes) && IsList(nodes, list, idxs, segs)
    requires idxs != [] ==> idxs[|idxs| - 1] < cnt
    modifies nodes, list
    ensures ok <==> ValidSegment(s) && cnt < ELFSIZE
    ensures ok ==> cnt' == (if segs == [] then 1 else cnt + 1) && idxs' != [] && idxs'[|idxs'| - 1] < cnt'
    ensures ok ==> IsList(nodes, list, idxs', segs + [s])
    ensures list.entry == old(list.entry)
  {
    cnt', idxs' := cnt, idxs;
    if s.memsz < s.filesz {
      return false, cnt', idxs';
    }
    if (s.vaddr + s.memsz) % TWO64 < s.vaddr {
      return false, cnt', idxs';
    }
    if s.vaddr % Sv39.PGSIZE != 0 {
      return false, cnt', idxs';
    }
    if cnt >= ELFSIZE {
      return false, cnt', idxs';
    }
    cnt', idxs' := AllocateELFReader(nodes, list, cnt, s, idxs, segs);
    ok := true;
  }

  /** The end check and the read of one header. */
  method Fetch(cache: BufferPool, x: Extent, ghost phoff: uint64, ghost i: nat, b: uint64, o: int,
               buffer: array<byte>, ghost c0: Cache)
    returns (s: Step, ph: ProgramHeader)
    requires cache.Good() && LeftAsFound(c0, cache.Abs()) && |c0.disk| == DISKSIZE
    requires (b * BSIZE + o) % TWO64 == HeaderPos(x, phoff, i) % TWO64
    requires o < BSIZE && (o < 0 <==> i == 0 && RemBlock(FirstOff(x, phoff)) < 0)
    requires o >= 0 ==> (InRange(b, o, PHSIZE) <==> OnDiskAt(HeaderPos(x, phoff, i), PHSIZE))
    requires o >= 0 && InRange(b, o, PHSIZE) ==> b * BSIZE + o == HeaderPos(x, phoff, i)
    requires buffer.Length == PHSIZE && buffer !in cache.Arrays()
    modifies cache`slots, cache`list, cache.buf, cache.head, cache.Arrays(), buffer
    ensures cache.Good() && LeftAsFound(c0, cache.Abs())
    ensures s.Next? ==> o >= 0 && HeaderPos(x, phoff, i) % TWO64 <= EndPos(x)
    ensures s.Next? ==> OnDiskAt(HeaderPos(x, phoff, i), PHSIZE) && ph == ProgramAt(c0, x, phoff, i)
    ensures s.Reject? ==> HeaderPos(x, phoff, i) % TWO64 > EndPos(x)
    ensures s.Stop? && Spare(c0) ==> StopsAt(c0, x, phoff, i)
  {
    hide FlatSlice, ParseProgram, HeaderPos, EndPos, FirstOff, RemBlock, IdleAt, BufferPool.ValidAt, Spare;
    ph := ProgramHeader(0, Segment(0, 0, 0, 0));
    if (b * BSIZE + o) % TWO64 > EndPos(x) {
      return Reject, ph;
    }
    if o < 0 {
      return Stop(Undefined), ph;
    }
    var r := ReadAt(cache, b, o, PHSIZE, buffer, c0);
    if r.Halt? {
      return Stop(r.fault), ph;
    }
    return Next, ParseProgram(buffer[..]);
  }

  lemma OneWay(c: Cache, x: Extent, phoff: uint64, i: nat)
    requires |c.disk| == DISKSIZE
    ensures StopAt(SEAL, c, x, phoff, i) ==> !FineAt(SEAL, c, x, phoff, i)
    ensures HeaderPos(x, phoff, i) % TWO64 > EndPos(x) ==>
      !FineAt(SEAL, c, x, phoff, i) && !StopAt(SEAL, c, x, phoff, i)
    ensures StopsAt(c, x, phoff, i) ==> StopAt(SEAL, c, x, phoff, i)
    ensures (HeaderPos(x, phoff, i) % TWO64 <= EndPos(x) && OnDiskAt(HeaderPos(x, phoff, i), PHSIZE)
             && !(i == 0 && RemBlock(FirstOff(x, phoff)) < 0)) ==>
      && !StopAt(SEAL, c, x, phoff, i)
      && (FineAt(SEAL, c, x, phoff, i) <==>
           (ProgramAt(c, x, phoff, i).kind == ELF_PROG_LOAD ==>
              ValidSegment(ProgramAt(c, x, phoff, i).segment) && CountAt(c, x, phoff, i) < ELFSIZE))
  {
    OpenFine(SEAL, c, x, phoff, i);
    OpenStop(SEAL, c, x, phoff, i);
  }

  /** What the loop does with a header it has read. */
  method Collect(nodes: seq<ElfNode>, list: ElfReadList, ghost x: Extent, ghost phoff: uint64, ghost i: nat,
                 cnt: nat, ph: ProgramHeader, ghost c0: Cache, ghost idxs: seq<nat>)
    returns (ok: bool, cnt': nat, ghost idxs': seq<nat>)
    requires |c0.disk| == DISKSIZE && Collected(nodes, list, x, phoff, i, cnt, c0, idxs)
    requires OnDiskAt(HeaderPos(x, phoff, i), PHSIZE) && ph == ProgramAt(c0, x, phoff, i)
    modifies nodes, list
    ensures ok <==> (ph.kind == ELF_PROG_LOAD ==> ValidSegment(ph.segment) && CountAt(c0, x, phoff, i) < ELFSIZE)
    ensures ok ==> Collected(nodes, list, x, phoff, i + 1, cnt', c0, idxs')
    ensures list.entry == old(list.entry)
  {
    CountNext(c0, x, phoff, i);
    ok, cnt', idxs' := true, cnt, idxs;
    if ph.kind == ELF_PROG_LOAD {
      ok, cnt', idxs' := AppendSegment(nodes, list, cnt, ph.segment, idxs, Loads(c0, x, phoff, i));
    }
    cnt' := cnt' + 1;
  }

  /** One header. */
  method ElfRound(cache: BufferPool, nodes: seq<ElfNode>, list: ElfReadList, x: Extent, ghost phoff: uint64,
                  ghost i: nat,
                  b: uint64, o: int, cnt: nat, buffer: array<byte>, ghost c0: Cache, ghost idxs: seq<nat>)
    returns (s: Step, cnt': nat, ghost idxs': seq<nat>)
    requires cache.Good() && LeftAsFound(c0, cache.Abs()) && |c0.disk| == DISKSIZE
    requires Collected(nodes, list, x, phoff, i, cnt, c0, idxs)
    requires (b * BSIZE + o) % TWO64 == HeaderPos(x, phoff, i) % TWO64
    requires o < BSIZE && (o < 0 <==> i == 0 && RemBlock(FirstOff(x, phoff)) < 0)
    requires o >= 0 ==> (InRange(b, o, PHSIZE) <==> OnDiskAt(HeaderPos(x, phoff, i), PHSIZE))
    requires o >= 0 && InRange(b, o, PHSIZE) ==> b * BSIZE + o == HeaderPos(x, phoff, i)
    requires buffer.Length == PHSIZE && buffer !in cache.Arrays()
    modifies cache`slots, cache`list, cache.buf, cache.head, cache.Arrays(), buffer, nodes, list
    ensures cache.Good() && LeftAsFound(c0, cache.Abs()) && list.entry == old(list.entry)
    ensures s.Next? ==> o >= 0
    ensures s.Next? ==> Collected(nodes, list, x, phoff, i + 1, cnt', c0, idxs') && FineAt(SEAL, c0, x, phoff, i)
    ensures s.Reject? ==> !FineAt(SEAL, c0, x, phoff, i) && !StopAt(SEAL, c0, x, phoff, i)
    ensures s.Stop? && Spare(c0) ==> !FineAt(SEAL, c0, x, phoff, i) && StopAt(SEAL, c0, x, phoff, i)
  {
    hide HeaderPos, EndPos, FirstOff, RemBlock, FineAt, StopAt, StopsAt, Collected, CountAt, IdleAt, BufferPool.ValidAt;
    cnt', idxs' := cnt, idxs;
    OneWay(c0, x, phoff, i);
    var ph;
    s, ph := Fetch(cache, x, phoff, i, b, o, buffer, c0);
    if s.Next? {
      var ok;
      ok, cnt', idxs' := Collect(nodes, list, x, phoff, i, cnt, ph, c0, idxs);
      if !ok {
        s := Reject;
      }
    }
  }

  /** The loop over the program headers, after which the list is emptied if
      one of them was not acceptable. */
  method ReadPrograms(cache: BufferPool, nodes: seq<ElfNode>, list: ElfReadList, x: Extent, phoff: uint64, phnum: nat,
                      ghost c0: Cache)
    returns (r: Halting.Result<()>, ghost idxs: seq<nat>)
    requires cache.Good() && LeftAsFound(c0, cache.Abs()) && |c0.disk| == DISKSIZE
    requires DistinctNodes(nodes) && list.head == null && list.tail == null
    requires x.startBlock < DISKSIZE && phnum < 0x1_0000
    modifies cache`slots, cache`list, cache.buf, cache.head, cache.Arrays(), nodes, list
    ensures cache.Good() && LeftAsFound(c0, cache.Abs()) && list.entry == old(list.entry)
    ensures r.Ok? ==> !StopsBefore(c0, x, phoff, phnum)
    ensures r.Ok? ==> IsList(nodes, list, idxs, if AllFine(c0, x, phoff, phnum) then Loads(c0, x, phoff, phnum) else [])
    ensures r.Halt? && Spare(c0) ==> StopsBefore(c0, x, phoff, phnum)
  {
    hide Located, Collected, HeaderPos, DivBlock, RemBlock, FineAt, StopAt, StopsBefore, Loads, NodeHolds, IdleAt,
         BufferPool.ValidAt, FlatByte, DistinctNodes, CountAt, IsLoad;
    var buffer := new byte[PHSIZE];
    var blockNum: uint64, off: int, cnt: nat, i: nat := x.startBlock, FirstOff(x, phoff), 0, 0;
    ghost var B: int := x.startBlock;
    idxs := [];
    LocatedFirst(x, phoff);
    NoneCollected(nodes, list, x, phoff, c0);
    while i < phnum
      invariant i <= phnum && Located(x, phoff, i, blockNum, off, B)
      invariant cache.Good() && LeftAsFound(c0, cache.Abs()) && list.entry == old(list.entry)
      invariant Collected(nodes, list, x, phoff, i, cnt, c0, idxs)
      invariant AllFine(c0, x, phoff, i) && buffer !in cache.Arrays() && fresh(buffer)
    {
      Renormalised(x, phoff, i, blockNum, off, B);
      B := B + DivBlock(off);
      blockNum := (blockNum + DivBlock(off)) % TWO64;
      off := RemBlock(off);
      CollectedIs(nodes, list, x, phoff, i, cnt, c0, idxs);
      var s;
      s, cnt, idxs := ElfRound(cache, nodes, list, x, phoff, i, blockNum, off, cnt, buffer, c0, idxs);
      if !FineAt(SEAL, c0, x, phoff, i) {
        NotAllFine(c0, x, phoff, i, phnum);
        Decided(c0, x, phoff, i, phnum);
      }
      if s.Stop? {
        return Halt(s.fault), idxs;
      }
      if s.Reject? {
        list.head, list.tail := null, null;
        return Ok(()), [];
      }
      LocatedNext(x, phoff, i, blockNum, off, B);
      i := i + 1;
      off := off + PHSIZE;
    }
    FineMeansNoStop(c0, x, phoff, phnum);
    CollectedIs(nodes, list, x, phoff, phnum, cnt, c0, idxs);
    return Ok(()), idxs;
  }

  /** elfReader: the LOAD segments of the program, in file order, or an empty
      list if there is something wrong with the file. */
  method ElfReader(cache: BufferPool, nodes: seq<ElfNode>, list: ElfReadList, x: Extent)
    returns (r: Halting.Result<()>, ghost idxs: seq<nat>)
    requires Ready(cache) && DistinctNodes(nodes) && x.startOff <= BSIZE
    modifies cache`slots, cache`list, cache.buf, cache.head, cache.Arrays(), nodes, list
    ensures cache.Good() && LeftAsFound(old(cache.Abs()), cache.Abs()) && |old(cache.Abs()).disk| == DISKSIZE
    ensures r.Ok? ==> !ReaderStops(old(cache.Abs()), x) && IsList(nodes, list, idxs, Result(old(cache.Abs()), x))
    ensures r.Ok? && idxs != [] ==>
      InRange(x.startBlock, x.startOff, EHSIZE) && list.entry == HeaderOf(old(cache.Abs()), x).entry
    ensures Spare(old(cache.Abs())) ==> (r.Halt? <==> ReaderStops(old(cache.Abs()), x))
  {
    hide FlatSlice, Loads, AllFine, StopsBefore, NodeHolds, IdleAt, BufferPool.ValidAt, U16, U32, U64;
    ghost var c0 := cache.Abs();
    StartUnchanged(c0);
    LeftAsFoundMeans(c0, c0);
    list.head, list.tail := null, null;
    idxs := [];
    if x.startBlock >= DISKSIZE {
      return Ok(()), idxs;
    }
    var buffer := new byte[EHSIZE];
    r := ReadAt(cache, x.startBlock, x.startOff, EHSIZE, buffer, c0);
    if r.Halt? {
      return;
    }
    var elf := ParseFile(buffer[..]);
    if elf.magic != ELF_MAGIC {
      return Ok(()), idxs;
    }
    list.entry := elf.entry;
    r, idxs := ReadPrograms(cache, nodes, list, x, elf.phoff, elf.phnum, c0);
  }
}
