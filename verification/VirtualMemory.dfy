/** Memory as a program sees it through its page table: bytes at virtual addresses. */
module VirtualMemory {
  import opened Bits
  import opened Halting
  import opened PageTree
  import opened PhysMem
  import opened Sv39

  /** Size of an address space: 27 index bits and 12 offset bits. */
  const VSPACE: nat := 0x80_0000_0000

  /** The byte that virtual address a of table `root` stands for, if it is mapped. */
  ghost function VirtualByte(m: Mem, root: nat, a: nat): Option<byte> {
    var p := Translate(LinksOf(m), root, a / PGSIZE);
    if p.Some? && InPool(p.value) then Some(ByteAt(m, p.value, a % PGSIZE)) else None
  }

  ghost predicate IsMapped(m: Mem, root: nat, a: nat) {
    Translate(LinksOf(m), root, a / PGSIZE).Some?
  }

  /** Addresses name the same byte iff they agree on their 39 low bits. */
  lemma SameAddress(a: nat, b: nat)
    ensures PathOf(a / PGSIZE) == PathOf(b / PGSIZE) && a % PGSIZE == b % PGSIZE
            <==> a % VSPACE == b % VSPACE
  {
    PathDetermines(a / PGSIZE, b / PGSIZE);
    SplitAddress(a);
    SplitAddress(b);
  }

  lemma SplitAddress(a: nat)
    ensures a % VSPACE == a / PGSIZE % VPAGES * PGSIZE + a % PGSIZE
  {
    var v := a / PGSIZE;
    QuotientUnique(a, VSPACE, v / VPAGES, v % VPAGES * PGSIZE + a % PGSIZE);
  }

  /** Mapped pages are pages of the pool. */
  lemma MappedInPool(m: Mem, roles: Roles, root: nat, v: nat)
    requires TreeInv(LinksOf(m), roles) && RoleOf(roles, root).Root?
    requires Translate(LinksOf(m), root, v).Some?
    ensures InPool(Translate(LinksOf(m), root, v).value)
    ensures RoleOf(roles, Translate(LinksOf(m), root, v).value).Data?
  {
    WalkRoles(LinksOf(m), roles, root, PathOf(v));
  }

  /** A byte stored in a data page leaves every directory alone. */
  lemma StoreKeepsTree(m: Mem, roles: Roles, p: nat, o: nat, b: byte)
    requires TreeInv(LinksOf(m), roles)
    requires RoleOf(roles, p).Data? && InPool(p) && o < PGSIZE
    ensures TreeInv(LinksOf(PutByte(m, p, o, b)), roles)
    ensures SameSpaces(LinksOf(m), LinksOf(PutByte(m, p, o, b)), roles)
    ensures CleanPages(LinksOf(m), roles) ==> CleanPages(LinksOf(PutByte(m, p, o, b)), roles)
  {
    var m' := PutByte(m, p, o, b);
    PutByteLinks(m, p, o, b);
    LinksSpec(m');
    TreeReadsDirectories(LinksOf(m), LinksOf(m'), roles);
    WalkReadsDirectories(LinksOf(m), LinksOf(m'), roles);
  }

  /** Storing through one address changes what that address reads, in that
      table, and nothing that any table reads anywhere else. */
  lemma StoreIsolated(m: Mem, roles: Roles, root: nat, a: nat, b: byte, t: nat, x: nat)
    requires TreeInv(LinksOf(m), roles)
    requires RoleOf(roles, root).Root? && RoleOf(roles, t).Root?
    requires IsMapped(m, root, a)
    ensures var p := Translate(LinksOf(m), root, a / PGSIZE).value;
      InPool(p) &&
      VirtualByte(PutByte(m, p, a % PGSIZE, b), t, x) ==
        if t == root && x % VSPACE == a % VSPACE then Some(b) else VirtualByte(m, t, x)
  {
    MappedInPool(m, roles, root, a / PGSIZE);
    var p := Translate(LinksOf(m), root, a / PGSIZE).value;
    StoreKeepsTree(m, roles, p, a % PGSIZE, b);
    SameAddress(a, x);
    var q := Translate(LinksOf(m), t, x / PGSIZE);
    if q.Some? {
      MappedInPool(m, roles, t, x / PGSIZE);
      PutByteGet(m, p, a % PGSIZE, b, q.value, x % PGSIZE);
      if q.value == p {
        WalkInjective(LinksOf(m), roles, root, PathOf(a / PGSIZE), t, PathOf(x / PGSIZE));
      }
    }
  }
}
