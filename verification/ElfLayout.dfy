/** What the reader makes of a file, in terms of the bytes on the disk. */
module ElfLayout {
  import opened Bits
  import opened CacheSpec
  import opened DiskBytes
  import opened Elf
  import opened Seal

  /** The little-endian number in the n bytes from disk byte a on. */
  ghost function Word(c: Cache, a: nat, n: nat): nat
    requires |c.disk| == DISKSIZE && a + n <= DISKBYTES
    decreases n
  {
    if n == 0 then 0 else FlatByte(c, a) + 256 * Word(c, a + 1, n - 1)
  }

  // Fields
  // ------

  lemma WordTwo(c: Cache, a: nat)
    requires |c.disk| == DISKSIZE && a + 2 <= DISKBYTES
    ensures Word(c, a, 2) == FlatByte(c, a) + 256 * FlatByte(c, a + 1)
  {
    hide FlatByte;
    assert Word(c, a + 2, 0) == 0;
    assert Word(c, a + 1, 1) == FlatByte(c, a + 1);
  }

  lemma WordFour(c: Cache, a: nat)
    requires |c.disk| == DISKSIZE && a + 4 <= DISKBYTES
    ensures Word(c, a, 4) == Word(c, a, 2) + 0x1_0000 * Word(c, a + 2, 2)
  {
    hide FlatByte;
    WordTwo(c, a);
    assert Word(c, a + 1, 3) == FlatByte(c, a + 1) + 256 * Word(c, a + 2, 2);
  }

  lemma WordEight(c: Cache, a: nat)
    requires |c.disk| == DISKSIZE && a + 8 <= DISKBYTES
    ensures Word(c, a, 8) == Word(c, a, 4) + 0x1_0000_0000 * Word(c, a + 4, 4)
  {
    hide FlatByte;
    assert Word(c, a + 1, 7) == FlatByte(c, a + 1) + 256 * Word(c, a + 2, 6);
    assert Word(c, a + 2, 6) == FlatByte(c, a + 2) + 256 * Word(c, a + 3, 5);
    assert Word(c, a + 3, 5) == FlatByte(c, a + 3) + 256 * Word(c, a + 4, 4);
    assert Word(c, a + 1, 3) == FlatByte(c, a + 1) + 256 * Word(c, a + 2, 2);
    assert Word(c, a + 2, 2) == FlatByte(c, a + 2) + 256 * Word(c, a + 3, 1);
    assert Word(c, a + 4, 0) == 0;
    assert Word(c, a + 3, 1) == FlatByte(c, a + 3);
  }

  lemma ShortField(c: Cache, a: nat, n: nat, at: nat)
    requires |c.disk| == DISKSIZE && a + n <= DISKBYTES && at + 2 <= n
    ensures U16(FlatSlice(c, a, n), at) == Word(c, a + at, 2)
  {
    hide FlatByte, Word;
    FlatSliceAt(c, a, n, at);
    FlatSliceAt(c, a, n, at + 1);
    WordTwo(c, a + at);
  }

  lemma IntField(c: Cache, a: nat, n: nat, at: nat)
    requires |c.disk| == DISKSIZE && a + n <= DISKBYTES && at + 4 <= n
    ensures U32(FlatSlice(c, a, n), at) == Word(c, a + at, 4)
  {
    hide FlatByte, FlatSlice, Word, U16;
    ShortField(c, a, n, at);
    ShortField(c, a, n, at + 2);
    WordFour(c, a + at);
  }

  lemma LongField(c: Cache, a: nat, n: nat, at: nat)
    requires |c.disk| == DISKSIZE && a + n <= DISKBYTES && at + 8 <= n
    ensures U64(FlatSlice(c, a, n), at) == Word(c, a + at, 8)
  {
    hide FlatByte, FlatSlice, Word, U32;
    IntField(c, a, n, at);
    IntField(c, a, n, at + 4);
    WordEight(c, a + at);
  }

  /** The fields of the file header at disk byte a. */
  lemma FileFields(c: Cache, a: nat)
    requires |c.disk| == DISKSIZE && a + 64 <= DISKBYTES
    ensures var h := ParseFile(FlatSlice(c, a, 64));
      && h.magic == Word(c, a, 4) && h.entry == Word(c, a + 24, 8)
      && h.phoff == Word(c, a + 32, 8) && h.phnum == Word(c, a + 56, 2)
  {
    hide FlatByte, FlatSlice, Word, U16, U32, U64;
    IntField(c, a, 64, 0);
    LongField(c, a, 64, 24);
    LongField(c, a, 64, 32);
    ShortField(c, a, 64, 56);
  }

  /** The fields of a program header at disk byte a. */
  lemma ProgramFields(c: Cache, a: nat)
    requires |c.disk| == DISKSIZE && a + 56 <= DISKBYTES
    ensures var h := ParseProgram(FlatSlice(c, a, 56));
      && h.kind == Word(c, a, 4)
      && h.segment.off == Word(c, a + 8, 8) && h.segment.vaddr == Word(c, a + 16, 8)
      && h.segment.filesz == Word(c, a + 32, 8) && h.segment.memsz == Word(c, a + 40, 8)
  {
    hide FlatByte, FlatSlice, Word, U32, U64;
    IntField(c, a, 56, 0);
    LongField(c, a, 56, 8);
    LongField(c, a, 56, 16);
    LongField(c, a, 56, 32);
    LongField(c, a, 56, 40);
  }

  // Positions
  // ---------

  /** The int that the start offset and the offset in the header add up to: the
      32 low bits of the sum, as a signed number. */
  ghost predicate Place(x: Extent, phoff: nat, off: int) {
    -0x8000_0000 <= off < 0x8000_0000 && (x.startOff + phoff - off) % 0x1_0000_0000 == 0
  }

  lemma LowBits(n: nat)
    ensures n % 0x1_0000_0000_0000_0000 % 0x1_0000_0000 == n % 0x1_0000_0000
  {
    var q, r := n / 0x1_0000_0000_0000_0000, n % 0x1_0000_0000_0000_0000;
    var k, m := r / 0x1_0000_0000, r % 0x1_0000_0000;
    QuotientUnique(n, 0x1_0000_0000, q * 0x1_0000_0000 + k, m);
  }

  lemma SameLowBits(n: nat, off: int)
    requires -0x8000_0000 <= off < 0x8000_0000 && (n - off) % 0x1_0000_0000 == 0
    ensures n % 0x1_0000_0000 == if off >= 0 then off else off + 0x1_0000_0000
  {
    var k := (n - off) / 0x1_0000_0000;
    if off >= 0 {
      QuotientUnique(n, 0x1_0000_0000, k, off);
    } else {
      QuotientUnique(n, 0x1_0000_0000, k - 1, off + 0x1_0000_0000);
    }
  }

  lemma PlaceUnique(x: Extent, phoff: uint64, off: int)
    requires Place(x, phoff, off)
    ensures FirstOff(x, phoff) == off
  {
    LowBits(x.startOff + phoff);
    SameLowBits(x.startOff + phoff, off);
  }

  /** Below 2^31 nothing is lost. */
  lemma PlaceExact(x: Extent, phoff: uint64)
    requires x.startOff + phoff < 0x8000_0000
    ensures Place(x, phoff, x.startOff + phoff)
  {
  }

  /** Where header j is looked for. */
  ghost function HeaderByte(x: Extent, off: int, j: nat): int {
    x.startBlock * 1024 + off + 56 * j
  }

  /** Header j is the 56 bytes that the file header points to, and on the disk
      exactly when they are. */
  lemma HeaderRead(c: Cache, x: Extent, phoff: uint64, off: int, j: nat)
    requires |c.disk| == DISKSIZE && Place(x, phoff, off)
    ensures var a := x.startBlock * 1024 + off + 56 * j;
      && (OnDiskAt(HeaderPos(x, phoff, j), PHSIZE) <==> 0 <= a && a + 56 <= 1024000)
      && (0 <= a && a + 56 <= 1024000 ==> ProgramAt(c, x, phoff, j) == ParseProgram(FlatSlice(c, a, 56)))
  {
    hide FlatSlice, ParseProgram, FirstOff, Place;
    PlaceUnique(x, phoff, off);
  }

  // One header
  // ----------

  /** A LOAD header at disk byte a. */
  ghost predicate SaysLoad(c: Cache, a: int)
    requires |c.disk| == DISKSIZE
  {
    0 <= a && a + 56 <= 1024000 && Word(c, a, 4) == 1
  }

  /** The header at disk byte a describes segment s. */
  ghost predicate Describes(c: Cache, a: int, s: Segment)
    requires |c.disk| == DISKSIZE
  {
    && 0 <= a && a + 56 <= 1024000
    && s.off == Word(c, a + 8, 8) && s.vaddr == Word(c, a + 16, 8)
    && s.filesz == Word(c, a + 32, 8) && s.memsz == Word(c, a + 40, 8)
  }

  /** No LOAD header among the first n. */
  ghost predicate NoLoad(c: Cache, x: Extent, off: int, n: nat)
    requires |c.disk| == DISKSIZE
  {
    forall i: nat :: i < n ==> !SaysLoad(c, HeaderByte(x, off, i))
  }

  /** The reader's `cnt` when it comes to header j. */
  ghost function Counter(c: Cache, x: Extent, off: int, j: nat): nat
    requires |c.disk| == DISKSIZE
  {
    if j == 0 then 0
    else if !SaysLoad(c, HeaderByte(x, off, j - 1)) then Counter(c, x, off, j - 1) + 1
    else if NoLoad(c, x, off, j - 1) then 2
    else Counter(c, x, off, j - 1) + 2
  }

  /** The reader wants header j: it starts no later than the last byte of the
      file, compared as 64-bit values. */
  ghost predicate Wanted(x: Extent, off: int, j: nat) {
    HeaderByte(x, off, j) % 0x1_0000_0000_0000_0000 <=
      (x.endBlock * 1024 + x.endOff) % 0x1_0000_0000_0000_0000
  }

  /** It can be read: it is on the disk, and the offset in its block, which C
      rounds toward zero, is not negative. */
  ghost predicate Readable(x: Extent, off: int, j: nat) {
    var a := HeaderByte(x, off, j);
    0 <= a && a + 56 <= 1024000 && (j == 0 && off < 0 ==> off % 1024 == 0)
  }

  /** A LOAD header must have room for its file bytes, not wrap, start a page,
      and find one of the 30 nodes. */
  ghost predicate HeaderGood(c: Cache, x: Extent, off: int, j: nat)
    requires |c.disk| == DISKSIZE
  {
    var a := HeaderByte(x, off, j);
    && Wanted(x, off, j)
    && Readable(x, off, j)
    && (Word(c, a, 4) == 1 ==>
          && Word(c, a + 32, 8) <= Word(c, a + 40, 8)
          && Word(c, a + 16, 8) + Word(c, a + 40, 8) < 0x1_0000_0000_0000_0000
          && Word(c, a + 16, 8) % 4096 == 0
          && Counter(c, x, off, j) < 30)
  }

  lemma LoadIs(c: Cache, x: Extent, phoff: uint64, off: int, j: nat)
    requires |c.disk| == DISKSIZE && Place(x, phoff, off)
    ensures IsLoad(c, x, phoff, j) <==> SaysLoad(c, HeaderByte(x, off, j))
    ensures IsLoad(c, x, phoff, j) ==> OnDiskAt(HeaderPos(x, phoff, j), PHSIZE)
    ensures OnDiskAt(HeaderPos(x, phoff, j), PHSIZE) ==>
      Describes(c, HeaderByte(x, off, j), ProgramAt(c, x, phoff, j).segment)
  {
    hide FlatSlice, ParseProgram, HeaderPos, FirstOff, Word, ProgramAt, Place;
    HeaderRead(c, x, phoff, off, j);
    var a := HeaderByte(x, off, j);
    if 0 <= a && a + 56 <= 1024000 {
      ProgramFields(c, a);
    }
  }

  lemma NoLoadNext(c: Cache, x: Extent, off: int, n: nat)
    requires |c.disk| == DISKSIZE
    ensures NoLoad(c, x, off, 0)
    ensures NoLoad(c, x, off, n + 1) <==> NoLoad(c, x, off, n) && !SaysLoad(c, HeaderByte(x, off, n))
  {
    hide SaysLoad, HeaderByte;
  }

  lemma {:induction false} LoadsNone(c: Cache, x: Extent, phoff: uint64, off: int, n: nat)
    requires |c.disk| == DISKSIZE && Place(x, phoff, off)
    ensures Loads(c, x, phoff, n) == [] <==> NoLoad(c, x, off, n)
  {
    hide IsLoad, SaysLoad, HeaderByte, HeaderPos, ProgramAt, NoLoad, Describes, Place;
    if n == 0 {
      NoLoadNext(c, x, off, 0);
    } else {
      LoadsNone(c, x, phoff, off, n - 1);
      LoadIs(c, x, phoff, off, n - 1);
      NoLoadNext(c, x, off, n - 1);
    }
  }

  lemma CounterNext(c: Cache, x: Extent, off: int, j: nat)
    requires |c.disk| == DISKSIZE
    ensures Counter(c, x, off, j + 1) ==
      if !SaysLoad(c, HeaderByte(x, off, j)) then Counter(c, x, off, j) + 1
      else if NoLoad(c, x, off, j) then 2
      else Counter(c, x, off, j) + 2
  {
    hide SaysLoad, HeaderByte, NoLoad;
  }

  lemma CountStart(c: Cache, x: Extent, phoff: uint64, off: int)
    requires |c.disk| == DISKSIZE
    ensures CountAt(c, x, phoff, 0) == 0 == Counter(c, x, off, 0)
  {
  }

  lemma {:induction false} CounterIs(c: Cache, x: Extent, phoff: uint64, off: int, j: nat)
    requires |c.disk| == DISKSIZE && Place(x, phoff, off)
    ensures CountAt(c, x, phoff, j) == Counter(c, x, off, j)
  {
    hide IsLoad, SaysLoad, HeaderByte, HeaderPos, CountAt, Counter, Loads, NoLoad, Describes, Place;
    if j == 0 {
      CountStart(c, x, phoff, off);
    } else {
      CounterIs(c, x, phoff, off, j - 1);
      LoadIs(c, x, phoff, off, j - 1);
      LoadsNone(c, x, phoff, off, j - 1);
      CountNext(c, x, phoff, j - 1);
      CounterNext(c, x, off, j - 1);
    }
  }

  lemma RemainderSign(off: int)
    ensures RemBlock(off) >= 0 <==> (off < 0 ==> off % 1024 == 0)
  {
  }

  lemma WantedIs(x: Extent, phoff: uint64, off: int, j: nat)
    requires Place(x, phoff, off)
    ensures HeaderPos(x, phoff, j) % TWO64 <= EndPos(x) <==> Wanted(x, off, j)
    ensures OnDiskAt(HeaderPos(x, phoff, j), PHSIZE) && (j == 0 ==> RemBlock(FirstOff(x, phoff)) >= 0) <==>
      Readable(x, off, j)
  {
    hide FirstOff, RemBlock, Place;
    PlaceUnique(x, phoff, off);
    RemainderSign(off);
  }

  lemma FineIs(c: Cache, x: Extent, phoff: uint64, off: int, j: nat)
    requires |c.disk| == DISKSIZE && Place(x, phoff, off)
    ensures Fine(c, x, phoff, j) <==> HeaderGood(c, x, off, j)
    ensures StopsAt(c, x, phoff, j) <==> Wanted(x, off, j) && !Readable(x, off, j)
  {
    hide HeaderPos, FirstOff, Word, ProgramAt, CountAt, Counter, RemBlock, Wanted, Place, EndPos;
    WantedIs(x, phoff, off, j);
    LoadIs(c, x, phoff, off, j);
    CounterIs(c, x, phoff, off, j);
  }

  // The whole file
  // --------------

  ghost predicate AllGood(c: Cache, x: Extent, off: int, n: nat)
    requires |c.disk| == DISKSIZE
  {
    forall j: nat :: j < n ==> HeaderGood(c, x, off, j)
  }

  lemma {:induction false} AllFineIs(c: Cache, x: Extent, phoff: uint64, off: int, n: nat)
    requires |c.disk| == DISKSIZE && Place(x, phoff, off)
    ensures AllFine(c, x, phoff, n) <==> AllGood(c, x, off, n)
  {
    hide HeaderGood, Fine, FineAt, Place;
    if n > 0 {
      AllFineIs(c, x, phoff, off, n - 1);
      OpenFine(SEAL, c, x, phoff, n - 1);
      FineIs(c, x, phoff, off, n - 1);
    }
  }

  /** The reader comes to header j, wants it and cannot read it. */
  ghost predicate CutAt(c: Cache, x: Extent, off: int, j: nat)
    requires |c.disk| == DISKSIZE
  {
    Wanted(x, off, j) && !Readable(x, off, j) && AllGood(c, x, off, j)
  }

  ghost predicate SomeCut(c: Cache, x: Extent, off: int, n: nat)
    requires |c.disk| == DISKSIZE
  {
    exists j: nat :: j < n && CutAt(c, x, off, j)
  }

  lemma {:induction false} StopsIs(c: Cache, x: Extent, phoff: uint64, off: int, n: nat)
    requires |c.disk| == DISKSIZE && Place(x, phoff, off)
    ensures StopsBefore(c, x, phoff, n) <==> SomeCut(c, x, off, n)
  {
    hide AllGood, Wanted, Readable, StopsAt, StopAt, AllFine, Fine, Place;
    if n > 0 {
      StopsIs(c, x, phoff, off, n - 1);
      OpenStop(SEAL, c, x, phoff, n - 1);
      FineIs(c, x, phoff, off, n - 1);
      AllFineIs(c, x, phoff, off, n - 1);
      assert StopsBefore(c, x, phoff, n) <==> StopsBefore(c, x, phoff, n - 1) || CutAt(c, x, off, n - 1);
    }
  }

  /** The indices of the LOAD headers among the first n, in file order. */
  ghost predicate Picks(c: Cache, x: Extent, off: int, n: nat, idx: seq<nat>)
    requires |c.disk| == DISKSIZE
  {
    && (forall k, l :: 0 <= k < l < |idx| ==> idx[k] < idx[l])
    && (forall j: nat :: j in idx <==> j < n && SaysLoad(c, HeaderByte(x, off, j)))
  }

  /** The segments at those indices. */
  ghost predicate Listed(c: Cache, x: Extent, off: int, idx: seq<nat>, segs: seq<Segment>)
    requires |c.disk| == DISKSIZE
  {
    && |idx| == |segs|
    && (forall k :: 0 <= k < |idx| ==> Describes(c, HeaderByte(x, off, idx[k]), segs[k]))
  }

  lemma PicksNext(c: Cache, x: Extent, off: int, n: nat, idx: seq<nat>)
    requires |c.disk| == DISKSIZE && Picks(c, x, off, n, idx)
    ensures Picks(c, x, off, n + 1, if SaysLoad(c, HeaderByte(x, off, n)) then idx + [n] else idx)
  {
    hide SaysLoad, HeaderByte;
    assert forall k :: 0 <= k < |idx| ==> idx[k] in idx;
  }

  lemma ListedNext(c: Cache, x: Extent, off: int, idx: seq<nat>, segs: seq<Segment>, n: nat, s: Segment)
    requires |c.disk| == DISKSIZE && Listed(c, x, off, idx, segs)
    requires Describes(c, HeaderByte(x, off, n), s)
    ensures Listed(c, x, off, idx + [n], segs + [s])
  {
    hide Describes, HeaderByte;
  }

  lemma {:induction false} LoadsListed(c: Cache, x: Extent, phoff: uint64, off: int, n: nat) returns (idx: seq<nat>)
    requires |c.disk| == DISKSIZE && Place(x, phoff, off)
    ensures Picks(c, x, off, n, idx) && Listed(c, x, off, idx, Loads(c, x, phoff, n))
  {
    hide SaysLoad, Describes, HeaderByte, IsLoad, HeaderPos, ProgramAt, Place;
    idx := [];
    if n > 0 {
      hide Picks, Listed;
      idx := LoadsListed(c, x, phoff, off, n - 1);
      LoadIs(c, x, phoff, off, n - 1);
      PicksNext(c, x, off, n - 1, idx);
      if IsLoad(c, x, phoff, n - 1) {
        ListedNext(c, x, off, idx, Loads(c, x, phoff, n - 1), n - 1, ProgramAt(c, x, phoff, n - 1).segment);
        idx := idx + [n - 1];
      }
    }
  }

  /** Disk byte that the file starts at. */
  ghost function FileByte(x: Extent): nat {
    x.startBlock * 1024 + x.startOff
  }

  /** The file header is on the disk and has the magic number. */
  ghost predicate HasHeader(c: Cache, x: Extent)
    requires |c.disk| == DISKSIZE
  {
    x.startBlock < 1000 && FileByte(x) + 64 <= 1024000 && Word(c, FileByte(x), 4) == 0x464C457F
  }

  lemma HeaderIs(c: Cache, x: Extent)
    requires |c.disk| == DISKSIZE && InRange(x.startBlock, x.startOff, 64)
    ensures x.startBlock < 1000 && FileByte(x) + 64 <= 1024000
    ensures var h := HeaderOf(c, x);
      && h.magic == Word(c, FileByte(x), 4) && h.entry == Word(c, FileByte(x) + 24, 8)
      && h.phoff == Word(c, FileByte(x) + 32, 8) && h.phnum == Word(c, FileByte(x) + 56, 2)
  {
    hide Word, FlatSlice, ParseFile;
    FileFields(c, x.startBlock * 1024 + x.startOff);
  }

  /** The list that the reader returns: the LOAD headers in file order with the
      fields they have on the disk, if every header is good, and else nothing. */
  lemma ResultIs(c: Cache, x: Extent, off: int) returns (idx: seq<nat>)
    requires |c.disk| == DISKSIZE && (HasHeader(c, x) ==> Place(x, Word(c, FileByte(x) + 32, 8), off))
    ensures if HasHeader(c, x) && AllGood(c, x, off, Word(c, FileByte(x) + 56, 2))
            then Picks(c, x, off, Word(c, FileByte(x) + 56, 2), idx) && Listed(c, x, off, idx, Elf.Result(c, x))
            else Elf.Result(c, x) == [] && idx == []
  {
    hide AllGood, Picks, Listed, Word, HeaderOf, AllFine, Loads, Place;
    idx := [];
    if InRange(x.startBlock, x.startOff, 64) {
      HeaderIs(c, x);
      var h := HeaderOf(c, x);
      if h.magic == 0x464C457F {
        AllFineIs(c, x, h.phoff, off, h.phnum);
        if AllFine(c, x, h.phoff, h.phnum) {
          idx := LoadsListed(c, x, h.phoff, off, h.phnum);
        }
      }
    }
  }

  /** When the reader reaches an error instead: the file header is cut off by
      the end of the disk, or a program header, with only good ones before it,
      is wanted and cannot be read. */
  lemma ReaderStopsIs(c: Cache, x: Extent, off: int)
    requires |c.disk| == DISKSIZE && (HasHeader(c, x) ==> Place(x, Word(c, FileByte(x) + 32, 8), off))
    ensures ReaderStops(c, x) <==>
      && x.startBlock < 1000
      && (|| FileByte(x) + 64 > 1024000
          || (HasHeader(c, x) && SomeCut(c, x, off, Word(c, FileByte(x) + 56, 2))))
  {
    hide SomeCut, Word, HeaderOf, StopsBefore, Place;
    if InRange(x.startBlock, x.startOff, 64) {
      HeaderIs(c, x);
      var h := HeaderOf(c, x);
      if h.magic == 0x464C457F {
        StopsIs(c, x, h.phoff, off, h.phnum);
      }
    }
  }
}
