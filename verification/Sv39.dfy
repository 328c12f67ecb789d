/**
 The bit fields of virtual addresses, physical addresses and page table
 entries (section 4.4, Sv39, of the RISC-V Privileged Architecture), computed
 with the kernel's masks and shifts.
 */
module Sv39 {
  import opened Bits

  const PGSIZE: nat := 4096
  const NUM_PTE: nat := 512
  /** Number of virtual pages the 27 index bits can name. */
  const VPAGES: nat := 0x800_0000
  /** Largest page number field of an entry plus one. */
  const PPN_LIMIT: nat := 0x1000_0000_0000

  const PTE_V: uint64 := 1
  const PTE_R: uint64 := 2
  const PTE_W: uint64 := 4
  const PTE_X: uint64 := 8

  function GetOffset(addr: uint64): nat {
    And(addr, 0xfff)
  }

  function GetVirtPage(virtualAddress: uint64): nat {
    Shr(And(virtualAddress, 0x0000_007f_ffff_f000), 12)
  }

  function GetPhyPage(physicalAddress: uint64): nat {
    Shr(And(physicalAddress, 0x00ff_ffff_ffff_f000), 12)
  }

  function GetL2(virtualAddress: uint64): nat {
    Shr(And(virtualAddress, 0x0000_007f_c000_0000), 30)
  }

  function GetL1(virtualAddress: uint64): nat {
    Shr(And(virtualAddress, 0x3fe0_0000), 21)
  }

  function GetL0(virtualAddress: uint64): nat {
    Shr(And(virtualAddress, 0x001f_f000), 12)
  }

  function GetFlags(entry: uint64): nat {
    And(entry, 0x3ff)
  }

  function GetPageNum(entry: uint64): nat {
    Shr(And(entry, 0x003f_ffff_ffff_fc00), 10)
  }

  /** The test `getFlags(entry) & PTE_V`. */
  predicate IsValidEntry(entry: uint64) {
    And(GetFlags(entry), PTE_V) != 0
  }

  /** Adds the requested permissions; never takes one away. */
  function SetFlags(entry: uint64, read: bool, write: bool, exec: bool): uint64 {
    var e := if read then Or64(entry, PTE_R) else entry;
    var e := if write then Or64(e, PTE_W) else e;
    if exec then Or64(e, PTE_X) else e
  }

  /** Replaces the page number field and keeps the flags. */
  function SetPageNum(entry: uint64, pageNum: nat): uint64 {
    Or64(Shl(pageNum, 10), GetFlags(entry))
  }

  /** The entry stored for a page just allocated, permissions added after. */
  function NewEntry(pageNum: nat, read: bool, write: bool, exec: bool): uint64 {
    SetFlags(Or64(Shl(pageNum, 10), PTE_V), read, write, exec)
  }

  /** Physical address of byte `offset` of page `pageNum`. */
  function PhysicalAddress(pageNum: nat, offset: uint64): uint64 {
    Or64(Shl(pageNum, 12), offset)
  }

  /** The entries a walk uses, one in a directory of each level. */
  datatype Path = Path(i2: nat, i1: nat, i0: nat)

  /** The path of virtual page v: its three 9-bit digits. */
  function PathOf(v: nat): Path {
    Path(v / 0x4_0000 % 512, v / 512 % 512, v % 512)
  }

  lemma OffsetField(a: uint64)
    ensures GetOffset(a) == a % PGSIZE
  {
    Powers();
    Masks();
    AndOnes(a, 12);
  }

  lemma VirtPageField(a: uint64)
    ensures GetVirtPage(a) == a / PGSIZE % VPAGES
  {
    Powers();
    Masks();
    Field(a, 12, 27);
  }

  lemma PhyPageField(a: uint64)
    ensures GetPhyPage(a) == a / PGSIZE % PPN_LIMIT
  {
    Powers();
    Masks();
    Field(a, 12, 44);
  }

  lemma FlagsField(e: uint64)
    ensures GetFlags(e) == e % 1024
    ensures IsValidEntry(e) <==> e % 2 == 1
  {
    Powers();
    Masks();
    AndOnes(e, 10);
    AndOne(GetFlags(e));
  }

  lemma PageNumField(e: uint64)
    ensures GetPageNum(e) == e / 1024 % PPN_LIMIT
  {
    Powers();
    Masks();
    Field(e, 10, 44);
  }

  lemma L2Field(a: uint64)
    ensures GetL2(a) == a / 0x4000_0000 % 512
  {
    Powers();
    Masks();
    Field(a, 30, 9);
  }

  lemma L1Field(a: uint64)
    ensures GetL1(a) == a / 0x20_0000 % 512
  {
    Powers();
    Masks();
    Field(a, 21, 9);
  }

  lemma L0Field(a: uint64)
    ensures GetL0(a) == a / 0x1000 % 512
  {
    Powers();
    Masks();
    Field(a, 12, 9);
  }

  lemma Expand(k: nat, d: nat, m: nat, c: nat)
    ensures (k * d + m) * c == k * (c * d) + m * c
  {
  }

  lemma RemainderFits(m: nat, d: nat, c: nat, r: nat)
    requires m < d && r < c
    ensures m * c + r < c * d
  {
    Distribute(d - 1, m, c);
    if m < d - 1 {
      MulAtLeast(d - 1 - m, c);
    }
  }

  lemma DivideTwice(a: nat, c: nat, d: nat)
    requires c > 0 && d > 0 && c * d > 0
    ensures a / c / d == a / (c * d)
  {
    NotNegative(a, c);
    var q: nat, r: nat := a / c, a % c;
    NotNegative(q, d);
    var k: nat, m: nat := q / d, q % d;
    Division(a, c);
    Division(q, d);
    Expand(k, d, m, c);
    RemainderFits(m, d, c, r);
    QuotientUnique(a, c * d, k, m * c + r);
  }

  /** The directory indices of an address are the path of its virtual page. */
  lemma IndexFields(a: uint64)
    ensures Path(GetL2(a), GetL1(a), GetL0(a)) == PathOf(a / PGSIZE)
  {
    L2Field(a);
    L1Field(a);
    L0Field(a);
    DivideTwice(a, 4096, 512);
    DivideTwice(a, 4096, 0x4_0000);
  }

  /** An address and the number of its virtual page have the same path. */
  lemma AddressPath(a: uint64, x: Path)
    requires x == PathOf(a / PGSIZE)
    ensures PathOf(GetVirtPage(a)) == x
    ensures GetL2(a) == x.i2 && GetL1(a) == x.i1 && GetL0(a) == x.i0
    ensures x.i2 < NUM_PTE && x.i1 < NUM_PTE && x.i0 < NUM_PTE
  {
    VirtPageField(a);
    SameRemainder(a / PGSIZE);
    PathDetermines(GetVirtPage(a), a / PGSIZE);
    IndexFields(a);
    PathDigits(a / PGSIZE);
  }

  lemma SameRemainder(v: nat)
    ensures v % VPAGES % VPAGES == v % VPAGES
  {
  }

  lemma PathDigits(v: nat)
    ensures PathOf(v).i2 < NUM_PTE && PathOf(v).i1 < NUM_PTE && PathOf(v).i0 < NUM_PTE
  {
  }

  /** Walking page number `v` shifted into an address follows the path of v,
      whatever bits of v the shift or the masks throw away. */
  lemma ShiftedPageIndices(v: nat)
    ensures Path(GetL2(Shl(v, 12)), GetL1(Shl(v, 12)), GetL0(Shl(v, 12))) == PathOf(v)
  {
    ShiftedPage(v);
    IndexFields(Shl(v, 12));
    PathDetermines(v, Shl(v, 12) / PGSIZE);
  }

  // Dropping the bits past bit 63 does not reach the 27 index bits.
  lemma ShiftedPage(v: nat)
    ensures Shl(v, 12) / PGSIZE % VPAGES == v % VPAGES
  {
    Powers();
    var q, r := v / 0x10_0000_0000_0000, v % 0x10_0000_0000_0000;
    QuotientUnique(v * 4096, TWO64, q, r * 4096);
    assert Shl(v, 12) / PGSIZE == r;
    QuotientUnique(v, VPAGES, q * 0x200_0000 + r / VPAGES, r % VPAGES);
  }

  /** The page number that a path stands for. */
  function PageOf(x: Path): nat {
    x.i2 * 0x4_0000 + x.i1 * 512 + x.i0
  }

  lemma PageOfPath(v: nat)
    ensures PageOf(PathOf(v)) == v % VPAGES
  {
    var u := v / 512;
    var t := u / 512;
    assert t == v / 0x4_0000;
    QuotientUnique(v, VPAGES, t / 512, t % 512 * 0x4_0000 + u % 512 * 512 + v % 512);
  }

  lemma Digits(x: Path, y: Path)
    requires x.i1 < 512 && x.i0 < 512 && y.i1 < 512 && y.i0 < 512
    requires PageOf(x) == PageOf(y)
    ensures x == y
  {
    QuotientUnique(PageOf(x), 512, x.i2 * 512 + x.i1, x.i0);
    QuotientUnique(PageOf(y), 512, y.i2 * 512 + y.i1, y.i0);
    QuotientUnique(x.i2 * 512 + x.i1, 512, x.i2, x.i1);
    QuotientUnique(y.i2 * 512 + y.i1, 512, y.i2, y.i1);
  }

  /** Two numbers have the same path iff they agree on the 27 index bits. */
  lemma PathDetermines(v: nat, w: nat)
    ensures PathOf(v) == PathOf(w) <==> v % VPAGES == w % VPAGES
  {
    PageOfPath(v);
    PageOfPath(w);
    if v % VPAGES == w % VPAGES {
      Digits(PathOf(v), PathOf(w));
    }
  }

  lemma SetFlagsKeeps(e: uint64, read: bool, write: bool, exec: bool)
    ensures GetPageNum(SetFlags(e, read, write, exec)) == GetPageNum(e)
    ensures IsValidEntry(SetFlags(e, read, write, exec)) <==> IsValidEntry(e)
  {
    Powers();
    var r := if read then Or64(e, PTE_R) else e;
    var w := if write then Or64(r, PTE_W) else r;
    var x := SetFlags(e, read, write, exec);
    OrLow(e, PTE_R, 10);
    OrLow(r, PTE_W, 10);
    OrLow(w, PTE_X, 10);
    OrHalves(e, PTE_R);
    OrHalves(r, PTE_W);
    OrHalves(w, PTE_X);
    PageNumField(e);
    PageNumField(x);
    FlagsField(e);
    FlagsField(x);
  }

  /** setFlags sets the bits of the permissions asked for, and no other bit changes. */
  lemma SetFlagsBits(e: uint64, read: bool, write: bool, exec: bool, j: nat)
    ensures Bit(SetFlags(e, read, write, exec), j) <==>
              Bit(e, j) || (read && j == 1) || (write && j == 2) || (exec && j == 3)
  {
    assert Pow2(1) == PTE_R && Pow2(2) == PTE_W && Pow2(3) == PTE_X;
    var r := if read then Or64(e, PTE_R) else e;
    var w := if write then Or64(r, PTE_W) else r;
    OrBits(e, PTE_R, j);
    OrBits(r, PTE_W, j);
    OrBits(w, PTE_X, j);
    PowerBit(1, j);
    PowerBit(2, j);
    PowerBit(3, j);
  }

  /** The flags of a new entry: valid, the permissions asked for, and nothing else. */
  lemma NewEntryFlags(pageNum: nat, read: bool, write: bool, exec: bool, j: nat)
    requires j < 10
    ensures Bit(NewEntry(pageNum, read, write, exec), j) <==>
              j == 0 || (read && j == 1) || (write && j == 2) || (exec && j == 3)
  {
    assert Pow2(0) == PTE_V;
    var e := Or64(Shl(pageNum, 10), PTE_V);
    SetFlagsBits(e, read, write, exec, j);
    OrBits(Shl(pageNum, 10), PTE_V, j);
    PowerBit(0, j);
    ShlBits(pageNum, j);
  }

  lemma ShlBits(pageNum: nat, j: nat)
    requires j < 10
    ensures !Bit(Shl(pageNum, 10), j)
  {
    Powers();
    var q := pageNum % 0x40_0000_0000_0000;
    QuotientUnique(pageNum * 1024, TWO64, pageNum / 0x40_0000_0000_0000, q * 1024);
    ShiftedBits(q, 10, j);
  }

  /** The mask that allocatePageDirectory applies takes the valid bit away, and no other. */
  lemma ValidBitCleared(e: uint64)
    ensures !IsValidEntry(And(e, Not(PTE_V))) && And(e, Not(PTE_V)) == e - e % 2
  {
    AndNotOne(e, Not(PTE_V));
    FlagsField(And(e, Not(PTE_V)));
  }

  lemma ShiftedPageNum(pageNum: nat, q: nat, f: nat)
    requires q == pageNum % 0x40_0000_0000_0000 && f < 1024
    ensures Or(Shl(pageNum, 10), f) == q * 1024 + f
  {
    Powers();
    QuotientUnique(pageNum * 1024, TWO64, pageNum / 0x40_0000_0000_0000, q * 1024);
    OrBeside(q, f, 10);
  }

  lemma SameLowField(pageNum: nat, q: nat)
    requires q == pageNum % 0x40_0000_0000_0000
    ensures q % PPN_LIMIT == pageNum % PPN_LIMIT
  {
    var d := pageNum / 0x40_0000_0000_0000;
    QuotientUnique(pageNum, PPN_LIMIT, d * 0x400 + q / PPN_LIMIT, q % PPN_LIMIT);
  }

  /** Storing a page number keeps the flags and is read back as stored. */
  lemma SetPageNumRoundTrip(e: uint64, pageNum: nat)
    ensures GetPageNum(SetPageNum(e, pageNum)) == pageNum % PPN_LIMIT
    ensures GetFlags(SetPageNum(e, pageNum)) == GetFlags(e)
  {
    var q := pageNum % 0x40_0000_0000_0000;
    var f := GetFlags(e);
    FlagsField(e);
    ShiftedPageNum(pageNum, q, f);
    var x := SetPageNum(e, pageNum);
    FlagsField(x);
    PageNumField(x);
    QuotientUnique(x, 1024, q, f);
    SameLowField(pageNum, q);
  }

  lemma SmallField(x: nat, limit: nat)
    requires x < limit
    ensures x % limit == x
  {
  }

  lemma ShiftSmall(pageNum: nat, n: nat, p: nat)
    requires pageNum < PPN_LIMIT && Pow2(n) == p <= 4096
    ensures Shl(pageNum, n) == pageNum * p
  {
    SmallField(pageNum * p, TWO64);
  }

  lemma EntryFields(e: uint64, pageNum: nat)
    requires pageNum < PPN_LIMIT && e == pageNum * 1024 + 1
    ensures GetPageNum(e) == pageNum && IsValidEntry(e)
  {
    FlagsField(e);
    PageNumField(e);
    QuotientUnique(e, 1024, pageNum, 1);
    QuotientUnique(e, 2, pageNum * 512, 1);
    SmallField(pageNum, PPN_LIMIT);
  }

  lemma AddressFields(a: uint64, pageNum: nat, offset: nat)
    requires pageNum < PPN_LIMIT && offset < PGSIZE && a == pageNum * 4096 + offset
    ensures GetPhyPage(a) == pageNum && GetOffset(a) == offset
  {
    PhyPageField(a);
    OffsetField(a);
    QuotientUnique(a, 4096, pageNum, offset);
    SmallField(pageNum, PPN_LIMIT);
  }

  /** An entry made for a page names that page and is valid. */
  lemma NewEntryRoundTrip(pageNum: nat, read: bool, write: bool, exec: bool)
    requires pageNum < PPN_LIMIT
    ensures GetPageNum(NewEntry(pageNum, read, write, exec)) == pageNum
    ensures IsValidEntry(NewEntry(pageNum, read, write, exec))
  {
    Powers();
    ShiftSmall(pageNum, 10, 1024);
    OrBeside(pageNum, PTE_V, 10);
    var e := Or64(Shl(pageNum, 10), PTE_V);
    EntryFields(e, pageNum);
    SetFlagsKeeps(e, read, write, exec);
  }

  /** A physical address splits back into the page and offset it was made of. */
  lemma PhysicalAddressRoundTrip(pageNum: nat, offset: uint64)
    requires pageNum < PPN_LIMIT && offset < PGSIZE
    ensures GetPhyPage(PhysicalAddress(pageNum, offset)) == pageNum
    ensures GetOffset(PhysicalAddress(pageNum, offset)) == offset
  {
    Powers();
    ShiftSmall(pageNum, 12, 4096);
    OrBeside(pageNum, offset, 12);
    AddressFields(PhysicalAddress(pageNum, offset), pageNum, offset);
  }
}
