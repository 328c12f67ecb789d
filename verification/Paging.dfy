/** Page tables in physical memory (kernel/paging.c). */
module Paging {
  import opened Bits
  import opened Halting
  import opened PageAllocator
  import opened PageTree
  import opened PhysMem
  import opened Seal
  import opened Seqs
  import opened Sv39
  import opened TableOrder
  import VirtualMemory

  /** The free stack holds each free page once and nothing else. */
  ghost predicate StackHoldsFree(stack: seq<nat>, roles: Roles) {
    && Distinct(stack)
    && forall p: nat :: p in stack <==> RoleOf(roles, p).Free?
  }

  /** Directories missing on path x. */
  ghost function MissingDirs(links: Links, root: nat, x: Path): nat {
    if Level1Of(links, root, x).None? then 2
    else if Level0Of(links, root, x).None? then 1
    else 0
  }

  /** Of the next pages to be popped, those numbered from .. from+n-1 are blank. */
  ghost predicate BlankNext(links: Links, stack: seq<nat>, from: nat, n: nat) {
    forall k: nat :: from <= k < from + n && k < |stack| ==> Blank(links, stack[k])
  }

  /** Words of pages that are not directories are as before, and pages that
      were in use keep their role. */
  ghost predicate DirectoriesOnly(m: Mem, roles: Roles, m': Mem, roles': Roles) {
    && (forall p: nat, i: nat :: IsSlot(p, i) && !IsDir(RoleOf(roles', p)) ==> At(m', p, i) == At(m, p, i))
    && (forall p: nat :: !RoleOf(roles, p).Free? ==> RoleOf(roles', p) == RoleOf(roles, p))
  }

  lemma DirectoriesOnlyTwice(m0: Mem, r0: Roles, m1: Mem, r1: Roles, m2: Mem, r2: Roles)
    requires DirectoriesOnly(m0, r0, m1, r1) && DirectoriesOnly(m1, r1, m2, r2)
    ensures DirectoriesOnly(m0, r0, m2, r2)
  {
    forall p: nat, i: nat | IsSlot(p, i) && !IsDir(RoleOf(r2, p)) ensures At(m2, p, i) == At(m0, p, i) {
      assert !IsDir(RoleOf(r1, p));
    }
  }

  /** The valid entries of directories in use are as before. */
  ghost predicate KeepsEntries(m: Mem, roles: Roles, m': Mem) {
    forall p: nat, i: nat :: IsSlot(p, i) && IsDir(RoleOf(roles, p)) && IsValidEntry(At(m, p, i)) ==>
      At(m', p, i) == At(m, p, i)
  }

  lemma KeepsEntriesTwice(m0: Mem, r0: Roles, m1: Mem, r1: Roles, m2: Mem)
    requires KeepsEntries(m0, r0, m1) && DirectoriesOnly(m0, r0, m1, r1) && KeepsEntries(m1, r1, m2)
    ensures KeepsEntries(m0, r0, m2)
  {
    hide IsValidEntry;
    forall p: nat, i: nat | IsSlot(p, i) && IsDir(RoleOf(r0, p)) && IsValidEntry(At(m0, p, i))
      ensures At(m2, p, i) == At(m0, p, i)
    {
      assert At(m1, p, i) == At(m0, p, i) && RoleOf(r1, p) == RoleOf(r0, p);
    }
  }

  lemma NothingWritten(m: Mem, roles: Roles)
    ensures KeepsEntries(m, roles, m)
  {
  }

  lemma HeldKeeps(m: Mem, roles: Roles, p: nat, m': Mem)
    requires RoleOf(roles, p).Free? && KeepsEntries(m, roles[p := Held], m')
    ensures KeepsEntries(m, roles, m')
  {
    hide IsValidEntry;
  }

  /** A path that is mapped keeps its entry. */
  lemma EntryKept(m: Mem, roles: Roles, m': Mem, root: nat, x: Path, e: uint64)
    requires TreeInv(LinksOf(m), roles) && RoleOf(roles, root).Root? && KeepsEntries(m, roles, m')
    requires Walk(LinksOf(m), root, x).Some? && EntryAt(m, root, x, e)
    ensures EntryAt(m', root, x, e)
  {
    hide IsValidEntry, GetPageNum;
    LinksSpec(m);
    LinksSpec(m');
    WalkRoles(LinksOf(m), roles, root, x);
    var d1, d0 := Level1Of(LinksOf(m), root, x).value, Level0Of(LinksOf(m), root, x).value;
    assert At(m', root, x.i2) == At(m, root, x.i2);
    assert At(m', d1, x.i1) == At(m, d1, x.i1);
    assert At(m', d0, x.i0) == At(m, d0, x.i0);
  }

  lemma InUseStays(m: Mem, roles: Roles, m': Mem, roles': Roles, p: nat)
    requires DirectoriesOnly(m, roles, m', roles') && !RoleOf(roles, p).Free?
    ensures RoleOf(roles', p) == RoleOf(roles, p)
  {
  }

  /** A directory is a page of the pool and not on the stack. */
  lemma DirectoryInUse(links: Links, roles: Roles, stack: seq<nat>, p: nat)
    requires TreeInv(links, roles) && StackHoldsFree(stack, roles) && IsDir(RoleOf(roles, p))
    ensures InPool(p) && p !in stack
  {
  }

  /** What the roots translate does not depend on the page that is held. */
  lemma HeldSpaces(before: Links, after: Links, roles: Roles, q: nat)
    requires RoleOf(roles, q).Free? && SameSpaces(before, after, roles[q := Held])
    ensures SameSpaces(before, after, roles)
  {
    assert forall t: nat :: RoleOf(roles, t).Root? ==> RoleOf(roles[q := Held], t).Root?;
  }

  lemma HeldAdds(before: Links, after: Links, roles: Roles, q: nat, root: nat, x: Path, p: nat)
    requires RoleOf(roles, q).Free? && AddsPage(before, after, roles[q := Held], root, x, p)
    ensures AddsPage(before, after, roles, root, x, p)
  {
    assert forall t: nat :: RoleOf(roles, t).Root? ==> RoleOf(roles[q := Held], t).Root?;
  }

  lemma RootsStay(m: Mem, roles: Roles, m': Mem, roles': Roles)
    requires DirectoriesOnly(m, roles, m', roles')
    ensures forall t: nat :: RoleOf(roles, t).Root? ==> RoleOf(roles', t).Root?
  {
  }

  lemma BlankRest(links: Links, stack: seq<nat>, rest: seq<nat>, n: nat)
    requires BlankNext(links, stack, 1, n) && stack != [] && rest == stack[1..]
    ensures BlankNext(links, rest, 0, n)
  {
    forall k: nat | k < n && k < |rest| ensures Blank(links, rest[k]) {
      assert rest[k] == stack[k + 1];
    }
  }

  lemma BlankFewer(links: Links, stack: seq<nat>, from: nat, n: nat, m: nat)
    requires BlankNext(links, stack, from, n) && m <= n
    ensures BlankNext(links, stack, from, m)
  {
  }

  /** With the first missing directory made, the next page to be popped is
      blank if the second is missing too. */
  lemma BlankAfter(links: Links, mid: Links, roles: Roles, stack: seq<nat>, rest: seq<nat>, root: nat, x: Path, d1: nat)
    requires StackHoldsFree(stack, roles) && RoleOf(roles, root).Root?
    requires BlankNext(links, stack, 0, MissingDirs(links, root, x))
    requires if (root, x.i2) in links then mid == links && rest == stack && d1 == links[(root, x.i2)]
             else stack != [] && rest == stack[1..] && mid == links[(root, x.i2) := d1]
    ensures (d1, x.i1) !in mid ==> BlankNext(mid, rest, 0, 1)
  {
    if (root, x.i2) !in links && rest != [] {
      assert rest[0] == stack[1] && stack[1] in stack;
    }
  }

  /** The last entry on path x is e. */
  ghost predicate EntryAt(m: Mem, root: nat, x: Path, e: uint64) {
    var d := Level0Of(LinksOf(m), root, x);
    d.Some? && IsSlot(d.value, x.i0) && At(m, d.value, x.i0) == e
  }

  lemma PopStack(q: nat, rest: seq<nat>, roles: Roles)
    requires StackHoldsFree([q] + rest, roles)
    ensures RoleOf(roles, q).Free?
    ensures StackHoldsFree(rest, roles[q := Held])
  {
    var s := [q] + rest;
    assert s[0] == q;
    assert forall k :: 0 <= k < |rest| ==> rest[k] == s[k + 1];
    forall p: nat ensures p in rest <==> RoleOf(roles[q := Held], p).Free? {
      assert p in s <==> p == q || p in rest;
    }
  }

  lemma SameFree(stack: seq<nat>, roles: Roles, p: nat, r: Role)
    requires StackHoldsFree(stack, roles)
    requires !RoleOf(roles, p).Free? && !r.Free?
    ensures StackHoldsFree(stack, roles[p := r])
  {
    forall x: nat ensures x in stack <==> RoleOf(roles[p := r], x).Free? {
      assert x in stack <==> RoleOf(roles, x).Free?;
    }
  }

  /** q is the page that entry j of directory d refers to. */
  ghost predicate ChildAt(roles: Roles, q: nat, d: nat, j: nat) {
    IsChild(RoleOf(roles, q)) && RoleOf(roles, q).parent == d && RoleOf(roles, q).idx == j
  }

  lemma ChildIsTarget(links: Links, roles: Roles, d: nat, j: nat)
    requires TreeInv(links, roles) && IsDir(RoleOf(roles, d))
    ensures forall q: nat :: ChildAt(roles, q, d, j) <==> (d, j) in links && q == links[(d, j)]
    ensures !ChildAt(roles, d, d, j)
  {
    forall q: nat | ChildAt(roles, q, d, j) ensures Refers(links, roles, q) {
    }
  }

  lemma NotOwnChild(links: Links, roles: Roles, d: nat)
    requires TreeInv(links, roles) && IsDir(RoleOf(roles, d))
    ensures forall k: nat :: !ChildBefore(roles, d, d, k) && !ChildAt(roles, d, d, k)
  {
    assert IsChild(RoleOf(roles, d)) ==> Refers(links, roles, d);
  }

  /** q is a directory below entry j of root d. */
  ghost predicate DirectoryAt(roles: Roles, q: nat, d: nat, j: nat) {
    || ChildAt(roles, q, d, j)
    || (RoleOf(roles, q).Level0? && ChildAt(roles, RoleOf(roles, q).parent, d, j))
  }

  lemma FamilyIsTarget(links: Links, roles: Roles, d: nat, j: nat)
    requires TreeInv(links, roles) && RoleOf(roles, d).Root?
    ensures forall q: nat :: DirectoryAt(roles, q, d, j) <==> (d, j) in links && Family(roles, q, links[(d, j)])
    ensures !DirectoryAt(roles, d, d, j)
    ensures (d, j) in links ==> RoleOf(roles, links[(d, j)]).Level1?
  {
    ChildIsTarget(links, roles, d, j);
    forall q: nat | IsChild(RoleOf(roles, q)) ensures Refers(links, roles, q) {
    }
  }

  /** q is a directory below one of the first k entries of root d. */
  ghost predicate DirectoryBefore(roles: Roles, q: nat, d: nat, k: nat) {
    || ChildBefore(roles, q, d, k)
    || (RoleOf(roles, q).Level0? && ChildBefore(roles, RoleOf(roles, q).parent, d, k))
  }

  lemma DirectoryNext(roles: Roles, d: nat, k: nat)
    ensures forall q: nat ::
      DirectoryBefore(roles, q, d, k + 1) <==> DirectoryBefore(roles, q, d, k) || DirectoryAt(roles, q, d, k)
  {
  }

  /** c and the last-level directories it refers to. */
  ghost predicate Family(roles: Roles, q: nat, c: nat) {
    q == c || ChildBefore(roles, q, c, NUM_PTE)
  }

  ghost function FreedRoles(roles: Roles, root: nat): Roles {
    map p | p in roles :: if InTable(roles, p, root) then Free else roles[p]
  }

  lemma FreedDirectories(links: Links, roles: Roles, root: nat)
    requires TreeInv(links, roles) && RoleOf(roles, root).Root?
    ensures forall p: nat :: p == root || DirectoryBefore(roles, p, root, NUM_PTE) ==>
      IsDir(RoleOf(roles, p)) && RoleOf(FreedRoles(roles, root), p).Free?
  {
    forall p: nat | p == root || DirectoryBefore(roles, p, root, NUM_PTE)
      ensures IsDir(RoleOf(roles, p)) && InTable(roles, p, root)
    {
      assert IsChild(RoleOf(roles, p)) ==> Refers(links, roles, p);
    }
  }

  /** With the table's directories emptied and its pages free, what is left is
      a tree and the other tables translate as before. */
  lemma FreedTree(before: Links, after: Links, roles: Roles, root: nat)
    requires TreeInv(before, roles) && RoleOf(roles, root).Root?
    requires forall p: nat, i: nat :: (p, i) in after <==>
               (p, i) in before && p != root && !DirectoryBefore(roles, p, root, NUM_PTE)
    requires forall p: nat, i: nat :: (p, i) in after ==> after[(p, i)] == before[(p, i)]
    ensures TreeInv(after, FreedRoles(roles, root))
    ensures SameSpaces(before, after, FreedRoles(roles, root))
  {
    var r := FreedRoles(roles, root);
    forall q: nat | IsChild(RoleOf(r, q)) ensures Refers(after, r, q) {
      assert Refers(before, roles, q);
    }
    assert RolesTotal(r);
    forall t: nat, x: Path | RoleOf(r, t).Root? ensures Walk(after, t, x) == Walk(before, t, x) {
      OtherWalk(before, after, roles, root, t, x);
    }
  }

  lemma OtherWalk(before: Links, after: Links, roles: Roles, root: nat, t: nat, x: Path)
    requires TreeInv(before, roles) && RoleOf(roles, root).Root? && RoleOf(roles, t).Root? && t != root
    requires forall p: nat, i: nat :: (p, i) in after <==>
               (p, i) in before && p != root && !DirectoryBefore(roles, p, root, NUM_PTE)
    requires forall p: nat, i: nat :: (p, i) in after ==> after[(p, i)] == before[(p, i)]
    ensures Walk(after, t, x) == Walk(before, t, x)
  {
    WalkRoles(before, roles, t, x);
  }

  /** No data page of the table holds a word that looks like a valid entry. */
  ghost predicate CleanData(links: Links, roles: Roles, root: nat) {
    forall p: nat, i: nat :: (p, i) in links && InTable(roles, p, root) ==> IsDir(RoleOf(roles, p))
  }

  /** The pool stays clean exactly when the program left no such word behind. */
  lemma FreedClean(before: Links, after: Links, roles: Roles, root: nat)
    requires TreeInv(before, roles) && RoleOf(roles, root).Root?
    requires forall p: nat, i: nat :: (p, i) in after <==>
               (p, i) in before && p != root && !DirectoryBefore(roles, p, root, NUM_PTE)
    ensures CleanPages(after, FreedRoles(roles, root)) <==> CleanPages(before, roles) && CleanData(before, roles, root)
  {
    var r := FreedRoles(roles, root);
    forall p: nat ensures RoleOf(r, p).Free? <==> RoleOf(roles, p).Free? || (p in roles && InTable(roles, p, root)) {
    }
    forall p: nat, i: nat | (p, i) in before && InTable(roles, p, root) && !IsDir(RoleOf(roles, p))
      ensures (p, i) in after
    {
    }
    forall p: nat, i: nat | (p, i) in before && RoleOf(roles, p).Free? ensures (p, i) in after {
    }
  }

  /** An odd byte at the start of a word makes the word look valid. */
  lemma OddByteEntry(m: Mem, p: nat, o: nat)
    requires InPool(p) && o < PGSIZE && o % 8 == 0 && ByteAt(m, p, o) % 2 == 1
    ensures (p, o / 8) in LinksOf(m)
  {
    hide LinksOf, At, IsValidEntry;
    LinksSpec(m);
    assert IsSlot(p, o / 8);
    FlagsField(At(m, p, o / 8));
    LowByte(At(m, p, o / 8));
  }

  lemma LowByte(w: nat)
    ensures w % 256 % 2 == w % 2
  {
    var q: nat, r: nat := w / 256, w % 256;
    EvenPlus(128 * q, r);
    assert w == 2 * (128 * q) + r;
  }

  lemma EvenPlus(k: nat, r: nat)
    ensures (2 * k + r) % 2 == r % 2
  {
  }

  /** A program leaves such a word behind when it stores an odd byte at an
      address that is a multiple of 8: then no pool is clean after its table is freed. */
  lemma OddByteDirties(m: Mem, after: Links, roles: Roles, root: nat, a: nat)
    requires TreeInv(LinksOf(m), roles) && RoleOf(roles, root).Root?
    requires forall p: nat, i: nat :: (p, i) in after <==>
               (p, i) in LinksOf(m) && p != root && !DirectoryBefore(roles, p, root, NUM_PTE)
    requires a % 8 == 0 && VirtualMemory.VirtualByte(m, root, a).Some?
    requires VirtualMemory.VirtualByte(m, root, a).value % 2 == 1
    ensures !CleanPages(after, FreedRoles(roles, root))
  {
    hide PathOf, TreeInv;
    var x := PathOf(a / PGSIZE);
    var p := Walk(LinksOf(m), root, x).value;
    WalkRoles(LinksOf(m), roles, root, x);
    OffsetInWord(a);
    OddByteEntry(m, p, a % PGSIZE);
    FreedClean(LinksOf(m), after, roles, root);
    DataInTable(LinksOf(m), roles, root, x);
  }

  lemma OffsetInWord(a: nat)
    requires a % 8 == 0
    ensures a % PGSIZE % 8 == 0
  {
    var k: nat, q := a / 8, a / PGSIZE;
    assert a % PGSIZE == 8 * (k - 512 * q);
  }

  lemma DataInTable(links: Links, roles: Roles, root: nat, x: Path)
    requires TreeInv(links, roles) && RoleOf(roles, root).Root? && Walk(links, root, x).Some?
    ensures InTable(roles, Walk(links, root, x).value, root) && RoleOf(roles, Walk(links, root, x).value).Data?
  {
    WalkRoles(links, roles, root, x);
  }

  /** Three directories in a row and the data page at their end. */
  ghost function OneLeaf(p: nat): Roles {
    AllFree()[p := Root][p + 1 := Level1(p, 0)][p + 2 := Level0(p + 1, 0)][p + 3 := Data(p + 2, 0)]
  }

  lemma OneLeafTotal(p: nat)
    requires InPool(p) && InPool(p + 3)
    ensures RolesTotal(OneLeaf(p))
    ensures forall q: nat :: IsChild(RoleOf(OneLeaf(p), q)) || IsDir(RoleOf(OneLeaf(p), q)) ==> p <= q <= p + 3
  {
  }

  lemma OneLeafTree(p: nat, links: Links)
    requires InPool(p) && InPool(p + 3)
    requires links == map[(p, 0) := p + 1, (p + 1, 0) := p + 2, (p + 2, 0) := p + 3, (p + 3, 0) := 0]
    ensures TreeInv(links, OneLeaf(p))
  {
    hide AllFree, RolesTotal;
    var roles := OneLeaf(p);
    OneLeafTotal(p);
    forall q: nat | IsChild(RoleOf(roles, q)) ensures Refers(links, roles, q) {
      assert q == p + 1 || q == p + 2 || q == p + 3;
    }
  }

  /** One page with the word 1, mapped in a table of its own: with the pool clean
      to begin with, freeing the table puts a page on the stack that holds an entry. */
  lemma DirtyExample(p: nat, before: Links, after: Links)
    requires InPool(p) && InPool(p + 3)
    requires before == map[(p, 0) := p + 1, (p + 1, 0) := p + 2, (p + 2, 0) := p + 3, (p + 3, 0) := 0]
    requires after == map[(p + 3, 0) := 0]
    ensures TreeInv(before, OneLeaf(p)) && CleanPages(before, OneLeaf(p))
    ensures !CleanPages(after, FreedRoles(OneLeaf(p), p))
  {
    hide TreeInv;
    OneLeafTree(p, before);
    assert (p + 3, 0) in after && RoleOf(FreedRoles(OneLeaf(p), p), p + 3).Free?;
  }

  ghost function FreePages(roles: Roles): set<nat> {
    set p | p in roles && roles[p].Free?
  }

  ghost function HeldPages(roles: Roles): set<nat> {
    set p | p in roles && roles[p].Held?
  }

  /** Pages of the live tables. */
  ghost function TablePages(roles: Roles): set<nat> {
    set p | p in roles && (IsDir(roles[p]) || roles[p].Data?)
  }

  lemma PagesByUse(links: Links, roles: Roles)
    requires TreeInv(links, roles)
    ensures FreePages(roles) + HeldPages(roles) + TablePages(roles) == Range(START_PAGE, NUM_PAGES)
    ensures FreePages(roles) !! HeldPages(roles) && (FreePages(roles) + HeldPages(roles)) !! TablePages(roles)
  {
    forall p ensures p in Range(START_PAGE, NUM_PAGES)
      <==> p in FreePages(roles) + HeldPages(roles) + TablePages(roles) {
      assert p in Range(START_PAGE, NUM_PAGES) <==> p in roles;
    }
  }

  lemma StackIsFree(roles: Roles, stack: seq<nat>)
    requires StackHoldsFree(stack, roles)
    ensures Distinct(stack) && forall p :: p in stack <==> p in FreePages(roles)
  {
    forall p ensures p in stack <==> p in FreePages(roles) {
      assert p in stack <==> RoleOf(roles, p).Free?;
    }
  }

  /** The free stack, the held pages and the pages of the live tables always
      make up the pool; TableOfIs says that no page is in two tables. */
  lemma PagesPartition(links: Links, roles: Roles, stack: seq<nat>)
    requires TreeInv(links, roles) && StackHoldsFree(stack, roles)
    ensures |stack| + |HeldPages(roles)| + |TablePages(roles)| == NUM_PAGES
  {
    hide TreeInv, StackHoldsFree, FreePages, HeldPages, TablePages;
    var free, held, tables := FreePages(roles), HeldPages(roles), TablePages(roles);
    PagesByUse(links, roles);
    assert |free + held + tables| == |free| + |held| + |tables|;
    StackIsFree(roles, stack);
    DistinctCardinality(stack, free);
    SubsetCard(free, Elements(stack));
    ElementsCard(stack);
  }

  lemma TablePlan(links: Links, roles: Roles, root: nat, stack: seq<nat>)
    requires TreeInv(links, roles) && RoleOf(roles, root).Root? && StackHoldsFree(stack, roles)
    ensures Plan(PostOrder(links, root), stack)
    ensures StackHoldsFree(Reverse(PostOrder(links, root)) + stack, FreedRoles(roles, root))
  {
    var plan := PostOrder(links, root);
    PostOrderOnce(links, roles, root);
    forall x ensures x in Reverse(plan) <==> x in plan {
      ReverseContains(plan, x);
    }
    ReverseDistinct(plan);
    DistinctAppend(Reverse(plan), stack);
  }

  lemma LinkSlots(m: Mem)
    ensures SlotsOnly(LinksOf(m))
  {
    LinksSpec(m);
  }

  ghost function AllFree(): Roles {
    map p | p in Range(START_PAGE, NUM_PAGES) :: Free
  }

  ghost predicate SlotsOnly(links: Links) {
    forall p: nat, i: nat :: (p, i) in links ==> IsSlot(p, i)
  }

  lemma BootTree(links: Links)
    requires SlotsOnly(links)
    ensures TreeInv(links, AllFree())
    ensures CleanPages(links, AllFree()) <==> links == map[]
  {
    assert RolesTotal(AllFree());
    assert forall q: nat :: !IsChild(RoleOf(AllFree(), q)) && !IsDir(RoleOf(AllFree(), q));
    if links != map[] {
      var x :| x in links;
      assert (x.0, x.1) in links;
      assert RoleOf(AllFree(), x.0).Free?;
    }
  }

  lemma BootStack(stack: seq<nat>)
    requires |stack| == NUM_PAGES && forall i :: 0 <= i < NUM_PAGES ==> stack[i] == START_PAGE + i
    ensures StackHoldsFree(stack, AllFree())
  {
    forall p: nat | InPool(p) ensures p in stack {
      assert stack[p - START_PAGE] == p;
    }
  }

  class PageTables {
    const mem: array<uint64>
    const pool: PagePool
    ghost var roles: Roles

    ghost predicate Shape()
      reads this, pool
    {
      && mem.Length == MEM_WORDS
      && pool.Valid()
      && pool.pages as object != mem
    }

    ghost function M(): Mem
      reads mem
      requires mem.Length == MEM_WORDS
    {
      mem[..]
    }

    ghost function LinksNow(): Links
      reads mem
      requires mem.Length == MEM_WORDS
    {
      LinksOf(mem[..])
    }

    ghost predicate Valid()
      reads this, pool, pool.pages, mem
    {
      && Shape()
      && TreeInv(LinksNow(), roles)
      && StackHoldsFree(pool.Stack(), roles)
    }

    ghost predicate CleanPool()
      reads this, mem
      requires mem.Length == MEM_WORDS
    {
      CleanPages(LinksNow(), roles)
    }

    ghost predicate IsTable(p: nat)
      reads this
    {
      RoleOf(roles, p).Root?
    }

    /** Boot: every page is free and RAM holds whatever it holds. */
    constructor (ram: Mem)
      ensures Valid() && fresh(this) && fresh(mem) && fresh(pool) && fresh(pool.pages)
      ensures M() == ram
      ensures roles == AllFree()
      ensures CleanPool() <==> LinksOf(ram) == map[]
      ensures pool.Stack() == seq(NUM_PAGES, i => START_PAGE + i)
    {
      mem := new uint64[MEM_WORDS](i requires 0 <= i < MEM_WORDS => ram[i]);
      pool := new PagePool();
      roles := AllFree();
      new;
      assert mem[..] == ram;
      LinksSpec(ram);
      BootTree(LinksOf(ram));
      BootStack(pool.Stack());
    }

    /** Reads word i of a page that is not on the free stack. */
    method LoadEntry(p: nat, i: nat) returns (e: uint64)
      requires Shape() && IsSlot(p, i)
      requires p !in pool.Stack()
      ensures e == At(M(), p, i)
      ensures IsValidEntry(e) <==> (p, i) in LinksNow()
      ensures IsValidEntry(e) ==> GetPageNum(e) == LinksNow()[(p, i)]
    {
      e := mem[WordIndex(p, i)];
      LinksSpec(M());
    }

    /** Writes word i of a page that is not on the free stack. */
    method StoreEntry(p: nat, i: nat, e: uint64)
      requires Shape() && IsSlot(p, i)
      requires p !in pool.Stack()
      modifies mem
      ensures M() == Put(old(M()), p, i, e)
      ensures LinksNow() == if IsValidEntry(e) then old(LinksNow())[(p, i) := GetPageNum(e)]
                            else old(LinksNow()) - {(p, i)}
    {
      mem[WordIndex(p, i)] := e;
      assert M() == Put(old(M()), p, i, e);
      if IsValidEntry(e) {
        PutLink(old(M()), p, i, e);
      } else {
        PutUnlink(old(M()), p, i, e);
      }
    }

    method IsVirtualPageAllocated(pagetable: nat, virtualPageNum: nat) returns (b: bool)
      requires Valid() && IsTable(pagetable)
      ensures b <==> Translate(LinksNow(), pagetable, virtualPageNum).Some?
    {
      var virtualAddress := Shl(virtualPageNum, 12);
      ShiftedPageIndices(virtualPageNum);

      var pteL2 := GetL2(virtualAddress);
      var e2 := LoadEntry(pagetable, pteL2);
      if !IsValidEntry(e2) {
        return false;
      }
      var level1 := GetPageNum(e2);
      var pteL1 := GetL1(virtualAddress);
      var e1 := LoadEntry(level1, pteL1);
      if !IsValidEntry(e1) {
        return false;
      }
      var level0 := GetPageNum(e1);
      var pteL0 := GetL0(virtualAddress);
      var e0 := LoadEntry(level0, pteL0);
      return IsValidEntry(e0);
    }

    /** allocatePage, with the page accounted for as held by the caller. */
    method TakePage() returns (r: Result<nat>)
      requires Valid()
      modifies this, pool
      ensures Valid()
      ensures old(pool.numFreePages) == 0 ==>
                r == Halt(NoFreePage) && roles == old(roles) && pool.Stack() == old(pool.Stack())
      ensures old(pool.numFreePages) > 0 ==>
                && r == Ok(old(pool.Stack())[0])
                && pool.Stack() == old(pool.Stack())[1..]
                && InPool(r.value)
                && old(RoleOf(roles, r.value)).Free?
                && roles == old(roles)[r.value := Held]
    {
      r := pool.AllocatePage();
      if r.Ok? {
        PopStack(r.value, pool.Stack(), roles);
        HoldKeepsTree(LinksNow(), roles, r.value);
        roles := roles[r.value := Held];
      }
    }

    /** Clears the valid bit of every entry of a page that is not on the stack
        (kernel/paging.c:119-121). */
    method ClearEntries(p: nat)
      requires Shape() && InPool(p) && p !in pool.Stack()
      modifies mem
      ensures Removed(p, NUM_PTE)
      ensures forall i: nat :: i < NUM_PTE ==> At(M(), p, i) == At(old(M()), p, i) - At(old(M()), p, i) % 2
    {
      for i: nat := 0 to NUM_PTE
        invariant Removed(p, i)
        invariant forall j: nat :: j < NUM_PTE ==>
          At(M(), p, j) == if j < i then At(old(M()), p, j) - At(old(M()), p, j) % 2 else At(old(M()), p, j)
      {
        var e := LoadEntry(p, i);
        ValidBitCleared(e);
        StoreEntry(p, i, And(e, Not(PTE_V)));
      }
    }

    /** A page with no valid entry, held by the caller. */
    method AllocatePageDirectory() returns (r: Result<nat>)
      requires Valid()
      modifies this, mem, pool
      ensures pool.Valid() && StackHoldsFree(pool.Stack(), roles)
      ensures r == if old(pool.numFreePages) == 0 then Halt(NoFreePage) else Ok(old(pool.Stack())[0])
      ensures r.Halt? ==> M() == old(M()) && roles == old(roles) && pool.Stack() == old(pool.Stack())
      ensures r.Ok? ==>
                && pool.Stack() == old(pool.Stack())[1..]
                && old(RoleOf(roles, r.value)).Free? && roles == old(roles)[r.value := Held]
                && Removed(r.value, NUM_PTE)
                && Blank(LinksNow(), r.value)
                && InPool(r.value)
                && (forall i: nat :: i < NUM_PTE ==>
                      At(M(), r.value, i) == At(old(M()), r.value, i) - At(old(M()), r.value, i) % 2)
    {
      var pageNum :- TakePage();
      ClearEntries(pageNum);
      LinkSlots(M());
      return Ok(pageNum);
    }

    /** An empty table in a page of its own. */
    method AllocatePageTable() returns (r: Result<nat>)
      requires Valid()
      modifies this, mem, pool
      ensures Valid() && OnlyDirectoriesWritten() && EntriesStay()
      ensures r == if old(pool.numFreePages) == 0 then Halt(NoFreePage) else Ok(old(pool.Stack())[0])
      ensures r.Halt? ==> M() == old(M()) && roles == old(roles) && pool.Stack() == old(pool.Stack())
      ensures r.Ok? ==>
                && pool.Stack() == old(pool.Stack())[1..]
                && old(RoleOf(roles, r.value)).Free? && roles == old(roles)[r.value := Root]
                && Blank(LinksNow(), r.value)
                && SameSpaces(old(LinksNow()), LinksNow(), old(roles))
    {
      r := AllocatePageDirectory();
      if r.Ok? {
        SameFree(pool.Stack(), roles, r.value, Root);
        RootKeepsTree(old(LinksNow()), LinksNow(), old(roles), r.value);
        roles := roles[r.value := Root];
        assert roles == old(roles)[r.value := Root];
      } else {
        assert LinksNow() == old(LinksNow());
      }
    }

    twostate predicate EntriesStay()
      requires mem.Length == MEM_WORDS
      reads this, mem
    {
      KeepsEntries(old(M()), old(roles), M())
    }

    twostate predicate OnlyDirectoriesWritten()
      requires mem.Length == MEM_WORDS
      reads this, mem
    {
      DirectoriesOnly(old(M()), old(roles), M(), roles)
    }

    /** Free pages are left as they are, so a clean pool stays clean. */
    twostate lemma PoolStaysClean()
      requires old(Valid()) && Valid() && OnlyDirectoriesWritten()
      ensures forall p: nat :: RoleOf(roles, p).Free? ==> old(RoleOf(roles, p)).Free?
      ensures forall p: nat :: RoleOf(roles, p).Free? ==> (Blank(LinksNow(), p) <==> Blank(old(LinksNow()), p))
      ensures old(CleanPool()) ==> CleanPool()
    {
      LinksSpec(M());
      LinksSpec(old(M()));
      forall p: nat, i: nat | RoleOf(roles, p).Free?
        ensures old(RoleOf(roles, p)).Free? && ((p, i) in LinksNow() <==> (p, i) in old(LinksNow()))
      {
      }
    }

    /** Stores an entry for a held page, which becomes a child of `dir`. */
    method LinkPage(dir: nat, i: nat, pageNum: nat, read: bool, write: bool, exec: bool)
      requires Valid()
      requires IsDir(RoleOf(roles, dir)) && i < NUM_PTE && (dir, i) !in LinksNow()
      requires InPool(pageNum) && RoleOf(roles, pageNum).Held?
      requires !RoleOf(roles, dir).Level0? ==> Blank(LinksNow(), pageNum)
      modifies this, mem
      ensures Valid()
      ensures roles == old(roles)[pageNum := ChildRole(RoleOf(old(roles), dir), dir, i)]
      ensures LinksNow() == old(LinksNow())[(dir, i) := pageNum]
      ensures forall p: nat, j: nat :: IsSlot(p, j) && (p, j) != (dir, i) ==> At(M(), p, j) == At(old(M()), p, j)
      ensures InPool(dir) && At(M(), dir, i) == NewEntry(pageNum, read, write, exec)
    {
      NewEntryRoundTrip(pageNum, read, write, exec);
      LinkKeepsTree(LinksNow(), roles, dir, i, pageNum);
      var child := ChildRole(RoleOf(roles, dir), dir, i);
      SameFree(pool.Stack(), roles, pageNum, child);
      StoreEntry(dir, i, NewEntry(pageNum, read, write, exec));
      roles := roles[pageNum := child];
    }

    /** The directory that entry i of `dir` refers to, made and linked first
        if the entry is not valid (kernel/paging.c:174-184 and 187-197). It is
        used as it comes from the stack, so it must hold no word that looks valid. */
    method EnsureDirectory(dir: nat, i: nat) returns (r: Result<nat>)
      requires Valid()
      requires RoleOf(roles, dir).Root? || RoleOf(roles, dir).Level1?
      requires i < NUM_PTE
      requires (dir, i) !in LinksNow() ==> BlankNext(LinksNow(), pool.Stack(), 0, 1)
      modifies this, mem, pool
      ensures Valid()
      ensures (dir, i) in old(LinksNow()) ==>
                && r == Ok(old(LinksNow())[(dir, i)])
                && roles == old(roles) && M() == old(M()) && pool.Stack() == old(pool.Stack())
      ensures (dir, i) !in old(LinksNow()) && old(pool.numFreePages) == 0 ==>
                && r == Halt(NoFreePage)
                && roles == old(roles) && M() == old(M()) && pool.Stack() == old(pool.Stack())
      ensures (dir, i) !in old(LinksNow()) && old(pool.numFreePages) > 0 ==>
                && r == Ok(old(pool.Stack())[0])
                && pool.Stack() == old(pool.Stack())[1..]
                && old(RoleOf(roles, r.value)).Free?
                && roles == old(roles)[r.value := ChildRole(RoleOf(old(roles), dir), dir, i)]
                && LinksNow() == old(LinksNow())[(dir, i) := r.value]
                && Blank(LinksNow(), r.value)
                && InPool(dir) && At(M(), dir, i) == NewEntry(r.value, true, false, false)
      ensures SameSpaces(old(LinksNow()), LinksNow(), old(roles))
      ensures OnlyDirectoriesWritten() && EntriesStay()
    {
      hide TreeInv, StackHoldsFree, LinksOf, NewEntry, IsValidEntry, GetPageNum, SameSpaces, ChildRole;
      DirectoryInUse(LinksNow(), roles, pool.Stack(), dir);
      SameAsNow(LinksNow(), roles);
      var e := LoadEntry(dir, i);
      if !IsValidEntry(e) {
        var pageNum :- TakePage();
        LinkDirectory(LinksNow(), roles, dir, i, pageNum);
        HeldSpaces(LinksNow(), LinksNow()[(dir, i) := pageNum], old(roles), pageNum);
        LinkPage(dir, i, pageNum, true, false, false);
        e := LoadEntry(dir, i);
      }
      return Ok(GetPageNum(e));
    }

    /** Gives path x of the table a page of its own if it has none; `level0`
        is the last directory on the path (kernel/paging.c:198-212). */
    method EnsureLeaf(ghost root: nat, ghost x: Path, level0: nat, i: nat, read: bool, write: bool, exec: bool)
      returns (r: Result<()>)
      requires Valid() && IsTable(root)
      requires Level0Of(LinksNow(), root, x) == Some(level0) && i == x.i0 && i < NUM_PTE
      modifies this, mem, pool
      ensures Valid() && OnlyDirectoriesWritten() && EntriesStay()
      ensures Walk(old(LinksNow()), root, x).Some? ==>
                r == Ok(()) && M() == old(M()) && roles == old(roles) && pool.Stack() == old(pool.Stack())
      ensures Walk(old(LinksNow()), root, x).None? && old(pool.numFreePages) == 0 ==>
                r == Halt(NoFreePage) && M() == old(M()) && roles == old(roles) && pool.Stack() == old(pool.Stack())
      ensures Walk(old(LinksNow()), root, x).None? && old(pool.numFreePages) > 0 ==>
                && r == Ok(())
                && pool.Stack() == old(pool.Stack())[1..]
                && AddsPage(old(LinksNow()), LinksNow(), old(roles), root, x, old(pool.Stack())[0])
                && EntryAt(M(), root, x, NewEntry(old(pool.Stack())[0], read, write, exec))
      ensures SameDirectories(old(LinksNow()), LinksNow(), root)
    {
      hide TreeInv, StackHoldsFree, LinksOf, NewEntry, IsValidEntry, GetPageNum, AddsPage, SameDirectories;
      WalkRoles(LinksNow(), roles, root, x);
      DirectoryInUse(LinksNow(), roles, pool.Stack(), level0);
      DirectoriesStay(LinksNow(), root);
      var e := LoadEntry(level0, i);
      if !IsValidEntry(e) {
        var pageNum :- TakePage();
        LinkData(LinksNow(), old(roles), root, x, level0, pageNum);
        DataAddsNoDirectory(LinksNow(), old(roles), root, level0, i, pageNum);
        LinkPage(level0, i, pageNum, read, write, exec);
      }
      return Ok(());
    }

    /** The last directory on path x, with the missing ones made on the way. */
    method EnsurePath(root: nat, ghost x: Path, i2: nat, i1: nat) returns (r: Result<nat>)
      requires Valid() && IsTable(root)
      requires BlankNext(LinksNow(), pool.Stack(), 0, MissingDirs(LinksNow(), root, x))
      requires i2 == x.i2 < NUM_PTE && i1 == x.i1 < NUM_PTE
      modifies this, mem, pool
      ensures Valid() && OnlyDirectoriesWritten() && EntriesStay()
      ensures SameSpaces(old(LinksNow()), LinksNow(), old(roles))
      ensures MissingDirs(old(LinksNow()), root, x) == 0 ==>
                M() == old(M()) && roles == old(roles)
      ensures MissingDirs(old(LinksNow()), root, x) > old(pool.numFreePages) ==> r == Halt(NoFreePage)
      ensures MissingDirs(old(LinksNow()), root, x) <= old(pool.numFreePages) ==>
                && r.Ok?
                && Level0Of(LinksNow(), root, x) == Some(r.value)
                && pool.Stack() == old(pool.Stack())[MissingDirs(old(LinksNow()), root, x)..]
                && GrowsPath(old(LinksNow()), LinksNow(), root, x)
    {
      hide TreeInv, StackHoldsFree, GrowsPath, BlankNext, DirectoriesOnly, KeepsEntries, LinksOf, SameSpaces;
      ghost var x1 := Level1Of(LinksNow(), root, x);
      WalkRoles(LinksNow(), roles, root, x);
      if x1.None? {
        BlankFewer(LinksNow(), pool.Stack(), 0, 2, 1);
      }
      var level1 :- EnsureDirectory(root, i2);
      assert Level1Of(LinksNow(), root, x) == Some(level1);
      assert pool.Stack() == old(pool.Stack())[if x1.None? then 1 else 0..];
      assert Level0Of(LinksNow(), root, x).None? <==> Level0Of(old(LinksNow()), root, x).None?;
      ghost var mid, midRoles, m1 := LinksNow(), roles, M();
      InUseStays(old(M()), old(roles), m1, midRoles, root);
      BlankAfter(old(LinksNow()), mid, old(roles), old(pool.Stack()), pool.Stack(), root, x, level1);
      r := EnsureDirectory(level1, i1);
      RootsStay(old(M()), old(roles), m1, midRoles);
      SpacesTwice(old(LinksNow()), mid, LinksNow(), old(roles), midRoles);
      DirectoriesOnlyTwice(old(M()), old(roles), m1, midRoles, M(), roles);
      KeepsEntriesTwice(old(M()), old(roles), m1, midRoles, M());
      if r.Ok? {
        PathGrown(old(LinksNow()), mid, LinksNow(), midRoles, root, x, level1, r.value);
      }
    }

    /** The directories of path x, and a page at its end. */
    method MapPath(root: nat, ghost x: Path, i2: nat, i1: nat, i0: nat, read: bool, write: bool, exec: bool)
      returns (r: Result<()>)
      requires Valid() && IsTable(root)
      requires BlankNext(LinksNow(), pool.Stack(), 0, MissingDirs(LinksNow(), root, x))
      requires i2 == x.i2 < NUM_PTE && i1 == x.i1 < NUM_PTE && i0 == x.i0 < NUM_PTE
      modifies this, mem, pool
      ensures Valid() && OnlyDirectoriesWritten() && EntriesStay()
      ensures Walk(old(LinksNow()), root, x).Some? ==>
                r == Ok(()) && M() == old(M()) && roles == old(roles) && pool.Stack() == old(pool.Stack())
      ensures Walk(old(LinksNow()), root, x).None? ==>
                var n := MissingDirs(old(LinksNow()), root, x);
                if n < old(pool.numFreePages) then
                  && r == Ok(())
                  && pool.Stack() == old(pool.Stack())[n + 1..]
                  && AddsPage(old(LinksNow()), LinksNow(), old(roles), root, x, old(pool.Stack())[n])
                  && EntryAt(M(), root, x, NewEntry(old(pool.Stack())[n], read, write, exec))
                  && GrowsPath(old(LinksNow()), LinksNow(), root, x)
                else
                  && r == Halt(NoFreePage)
                  && SameSpaces(old(LinksNow()), LinksNow(), old(roles))
    {
      hide TreeInv, StackHoldsFree, LinksOf, GrowsPath, AddsPage, SameSpaces, EntryAt, DirectoriesOnly, BlankNext,
           KeepsEntries;
      ghost var m0, r0 := M(), roles;
      var level0 :- EnsurePath(root, x, i2, i1);
      ghost var m1 := M();
      InUseStays(m0, r0, m1, roles, root);
      RootsStay(m0, r0, m1, roles);
      SameWalk(old(LinksNow()), LinksNow(), r0, root, x);
      ghost var mid, midRoles := LinksNow(), roles;
      r := EnsureLeaf(root, x, level0, i0, read, write, exec);
      DirectoriesOnlyTwice(m0, r0, m1, midRoles, M(), roles);
      KeepsEntriesTwice(m0, r0, m1, midRoles, M());
      ghost var n := MissingDirs(old(LinksNow()), root, x);
      if Walk(old(LinksNow()), root, x).None? && r.Ok? {
        GrownThenAdded(old(LinksNow()), mid, LinksNow(), old(roles), midRoles, root, x, old(pool.Stack())[n]);
      }
    }

    /** Maps a virtual page to a page it takes from the pool itself; the
        physical page it is given is not used. A mapped page stays as it is. */
    method MapVirtualPage(pagetable: nat, virtualPageNum: nat, physicalPageNum: nat,
                          readPermission: bool, writePermission: bool, executePermission: bool)
      returns (r: Result<()>)
      requires Valid() && IsTable(pagetable)
      requires BlankNext(LinksNow(), pool.Stack(), 0, MissingDirs(LinksNow(), pagetable, PathOf(virtualPageNum)))
      modifies this, mem, pool
      ensures Valid() && OnlyDirectoriesWritten() && EntriesStay()
      ensures Translate(old(LinksNow()), pagetable, virtualPageNum).Some? ==>
                r == Ok(()) && M() == old(M()) && roles == old(roles) && pool.Stack() == old(pool.Stack())
      ensures Translate(old(LinksNow()), pagetable, virtualPageNum).None? ==>
                var n := MissingDirs(old(LinksNow()), pagetable, PathOf(virtualPageNum));
                if n < old(pool.numFreePages) then
                  && r == Ok(())
                  && pool.Stack() == old(pool.Stack())[n + 1..]
                  && AddsPage(old(LinksNow()), LinksNow(), old(roles), pagetable, PathOf(virtualPageNum),
                              old(pool.Stack())[n])
                  && EntryAt(M(), pagetable, PathOf(virtualPageNum),
                             NewEntry(old(pool.Stack())[n], readPermission, writePermission, executePermission))
                  && GrowsPath(old(LinksNow()), LinksNow(), pagetable, PathOf(virtualPageNum))
                else
                  && r == Halt(NoFreePage)
                  && SameSpaces(old(LinksNow()), LinksNow(), old(roles))
    {
      var virtualAddress := Shl(virtualPageNum, 12);
      ShiftedPageIndices(virtualPageNum);
      r := MapPath(pagetable, PathOf(virtualPageNum), GetL2(virtualAddress), GetL1(virtualAddress),
                   GetL0(virtualAddress), readPermission, writePermission, executePermission);
    }

    /** Maps a virtual page that has no physical page yet. The page popped first
        ends up in no table and on no stack. */
    method AllocateVirtualPage(pagetable: nat, virtualPageNum: nat,
                               readPermission: bool, writePermission: bool, executePermission: bool)
      returns (r: Result<()>)
      requires Valid() && IsTable(pagetable)
      requires BlankNext(LinksNow(), pool.Stack(), 1, MissingDirs(LinksNow(), pagetable, PathOf(virtualPageNum)))
      modifies this, mem, pool
      ensures Valid() && OnlyDirectoriesWritten() && EntriesStay()
      ensures Translate(old(LinksNow()), pagetable, virtualPageNum).Some? ==>
                r == Halt(PageAlreadyGiven) && M() == old(M()) && roles == old(roles)
                  && pool.Stack() == old(pool.Stack())
      ensures Translate(old(LinksNow()), pagetable, virtualPageNum).None? ==>
                var n := MissingDirs(old(LinksNow()), pagetable, PathOf(virtualPageNum));
                if n + 2 <= old(pool.numFreePages) then
                  && r == Ok(())
                  && pool.Stack() == old(pool.Stack())[n + 2..]
                  && RoleOf(roles, old(pool.Stack())[0]).Held?
                  && AddsPage(old(LinksNow()), LinksNow(), old(roles), pagetable, PathOf(virtualPageNum),
                              old(pool.Stack())[n + 1])
                  && EntryAt(M(), pagetable, PathOf(virtualPageNum),
                             NewEntry(old(pool.Stack())[n + 1], readPermission, writePermission, executePermission))
                  && GrowsPath(old(LinksNow()), LinksNow(), pagetable, PathOf(virtualPageNum))
                else
                  && r == Halt(NoFreePage)
                  && SameSpaces(old(LinksNow()), LinksNow(), old(roles))
    {
      hide TreeInv, StackHoldsFree, LinksOf, GrowsPath, AddsPage, SameSpaces, EntryAt, Blank, Translate, MissingDirs,
           KeepsEntries;
      NothingWritten(M(), roles);
      var mapped := IsVirtualPageAllocated(pagetable, virtualPageNum);
      if mapped {
        return Halt(PageAlreadyGiven);
      }
      SameAsNow(LinksNow(), roles);
      var pageNum :- TakePage();
      ghost var x, n := PathOf(virtualPageNum), MissingDirs(LinksNow(), pagetable, PathOf(virtualPageNum));
      BlankRest(LinksNow(), old(pool.Stack()), pool.Stack(), n);
      r := MapVirtualPage(pagetable, virtualPageNum, pageNum, readPermission, writePermission, executePermission);
      HeldKeeps(old(M()), old(roles), pageNum, M());
      if r.Ok? {
        HeldAdds(old(LinksNow()), LinksNow(), old(roles), pageNum, pagetable, x, old(pool.Stack())[n + 1]);
      } else {
        HeldSpaces(old(LinksNow()), LinksNow(), old(roles), pageNum);
      }
    }

    method VirtualToPhysical(pagetable: nat, virtualAddress: uint64) returns (r: Result<uint64>)
      requires Valid() && IsTable(pagetable)
      ensures var p := Translate(LinksNow(), pagetable, virtualAddress / PGSIZE);
        r == if p.None? then Halt(AddressNotValid)
             else Ok(PhysicalAddress(p.value, GetOffset(virtualAddress)))
    {
      ghost var x := PathOf(virtualAddress / PGSIZE);
      AddressPath(virtualAddress, x);
      WalkRoles(LinksNow(), roles, pagetable, x);

      var mapped := IsVirtualPageAllocated(pagetable, GetVirtPage(virtualAddress));
      if !mapped {
        return Halt(AddressNotValid);
      }
      var e2 := LoadEntry(pagetable, GetL2(virtualAddress));
      var level1 := GetPageNum(e2);
      var e1 := LoadEntry(level1, GetL1(virtualAddress));
      var level0 := GetPageNum(e1);
      var e0 := LoadEntry(level0, GetL0(virtualAddress));
      return Ok(PhysicalAddress(GetPageNum(e0), GetOffset(virtualAddress)));
    }

    /** Frees the page that entry i of `dir` refers to, which is next in the
        plan, and clears the entry (kernel/paging.c:285-286, 294-295, 303-304).
        The directory itself comes later in the plan. */
    method FreeChild(dir: nat, i: nat, pageNum: nat, ghost plan: seq<nat>, ghost n: nat, ghost m: nat,
                     ghost base: seq<nat>)
      requires Shape() && IsSlot(dir, i)
      requires Plan(plan, base) && n < m < |plan| && plan[n] == pageNum && plan[m] == dir
      requires pool.Stack() == Pushed(plan, n, base)
      modifies pool, pool.pages, mem
      ensures Shape()
      ensures pool.Stack() == Pushed(plan, n + 1, base)
      ensures LinksNow() == old(LinksNow()) - {(dir, i)}
      ensures M() == Put(old(M()), dir, i, 0)
    {
      NotPushed(plan, n, n, base);
      NotPushed(plan, n + 1, m, base);
      PushNext(plan, n, base);
      var freed := pool.FreePage(pageNum);
      assert freed.Ok?;
      assert M() == old(M());
      StoreEntry(dir, i, 0);
    }

    /** The links out of directory `dir` before index k are removed, no others. */
    twostate predicate Removed(dir: nat, k: nat)
      requires mem.Length == MEM_WORDS
      reads mem
    {
      && (forall p: nat, i: nat :: (p, i) in LinksNow() <==> (p, i) in old(LinksNow()) && !(p == dir && i < k))
      && (forall p: nat, i: nat :: (p, i) in LinksNow() ==> LinksNow()[(p, i)] == old(LinksNow())[(p, i)])
      && (forall p: nat, i: nat :: IsSlot(p, i) && p != dir ==> At(M(), p, i) == At(old(M()), p, i))
    }

    /** The same, with the links out of the children at those entries. */
    twostate predicate Removed1(dir: nat, k: nat)
      requires mem.Length == MEM_WORDS
      reads this, mem
    {
      && (forall p: nat, i: nat :: (p, i) in LinksNow() <==>
            (p, i) in old(LinksNow()) && !(p == dir && i < k) && !ChildBefore(roles, p, dir, k))
      && (forall p: nat, i: nat :: (p, i) in LinksNow() ==> LinksNow()[(p, i)] == old(LinksNow())[(p, i)])
      && (forall p: nat, i: nat :: IsSlot(p, i) && p != dir && !ChildBefore(roles, p, dir, k) ==>
            At(M(), p, i) == At(old(M()), p, i))
    }

    /** Entry k of a last-level directory: if it is valid, its page is freed and
        the entry cleared. */
    method LeafRound(level0: nat, k: nat, ghost links: Links, ghost plan: seq<nat>, ghost n: nat, ghost base: seq<nat>)
      requires Shape() && k < NUM_PTE
      requires (level0, k) in LinksNow() <==> (level0, k) in links
      requires (level0, k) in links ==> LinksNow()[(level0, k)] == links[(level0, k)]
      requires Plan(plan, base) && n <= |plan| && Leaves(links, level0, NUM_PTE) + [level0] <= plan[n..]
      requires n + |Leaves(links, level0, k)| <= |plan|
      requires pool.Stack() == Pushed(plan, n + |Leaves(links, level0, k)|, base)
      modifies pool, pool.pages, mem
      ensures Shape()
      ensures n + |Leaves(links, level0, k + 1)| <= |plan|
      ensures pool.Stack() == Pushed(plan, n + |Leaves(links, level0, k + 1)|, base)
      ensures LinksNow() == old(LinksNow()) - {(level0, k)}
      ensures forall p: nat, i: nat :: IsSlot(p, i) && p != level0 ==> At(M(), p, i) == At(old(M()), p, i)
    {
      ghost var m := n + |Leaves(links, level0, NUM_PTE)|;
      ghost var at := n + |Leaves(links, level0, k)|;
      LeafNext(links, level0, k, plan, n);
      NotPushed(plan, at, m, base);
      var e := LoadEntry(level0, k);
      if IsValidEntry(e) {
        FreeChild(level0, k, GetPageNum(e), plan, at, m, base);
      }
    }

    /** Frees the pages that a last-level directory refers to and clears its
        entries (kernel/paging.c:279-288). */
    method FreeLeaves(level0: nat, ghost links: Links, ghost plan: seq<nat>, ghost n: nat, ghost base: seq<nat>)
      requires Shape()
      requires forall i: nat :: (level0, i) in LinksNow() <==> (level0, i) in links
      requires forall i: nat :: (level0, i) in links ==> LinksNow()[(level0, i)] == links[(level0, i)]
      requires Plan(plan, base) && n <= |plan| && Leaves(links, level0, NUM_PTE) + [level0] <= plan[n..]
      requires pool.Stack() == Pushed(plan, n, base)
      modifies pool, pool.pages, mem
      ensures Shape()
      ensures pool.Stack() == Pushed(plan, n + |Leaves(links, level0, NUM_PTE)|, base)
      ensures Removed(level0, NUM_PTE)
    {
      hide Plan, LinksOf, At;
      for k := 0 to NUM_PTE
        invariant Shape()
        invariant n + |Leaves(links, level0, k)| <= |plan|
        invariant pool.Stack() == Pushed(plan, n + |Leaves(links, level0, k)|, base)
        invariant Removed(level0, k)
      {
        LeafRound(level0, k, links, plan, n, base);
      }
    }

    /** One round of the middle loop: the last-level directory's pages, the
        directory itself, and the entry that refers to it. */
    method FreeMiddleEntry(level1: nat, j: nat, level0: nat, ghost links: Links,
                           ghost plan: seq<nat>, ghost n: nat, ghost m: nat, ghost base: seq<nat>)
      requires Shape() && IsSlot(level1, j) && level0 != level1
      requires forall i: nat :: (level0, i) in LinksNow() <==> (level0, i) in links
      requires forall i: nat :: (level0, i) in links ==> LinksNow()[(level0, i)] == links[(level0, i)]
      requires Plan(plan, base) && n <= |plan| && Leaves(links, level0, NUM_PTE) + [level0] <= plan[n..]
      requires n + |Leaves(links, level0, NUM_PTE)| < m < |plan| && plan[m] == level1
      requires pool.Stack() == Pushed(plan, n, base)
      modifies pool, pool.pages, mem
      ensures Shape()
      ensures pool.Stack() == Pushed(plan, n + |Leaves(links, level0, NUM_PTE)| + 1, base)
      ensures forall p: nat, i: nat :: (p, i) in LinksNow() <==>
                (p, i) in old(LinksNow()) && p != level0 && !(p == level1 && i == j)
      ensures forall p: nat, i: nat :: (p, i) in LinksNow() ==> LinksNow()[(p, i)] == old(LinksNow())[(p, i)]
      ensures forall p: nat, i: nat :: IsSlot(p, i) && p != level0 && p != level1 ==>
        At(M(), p, i) == At(old(M()), p, i)
    {
      ghost var next := n + |Leaves(links, level0, NUM_PTE)|;
      assert plan[next] == plan[n..][next - n] == level0;
      LinkSlots(M());
      FreeLeaves(level0, links, plan, n, base);
      FreeChild(level1, j, level0, plan, next, m, base);
    }

    /** Entry j of a middle-level directory: if it is valid, what it refers to
        is freed and the entry cleared. */
    method MiddleRound(level1: nat, j: nat, ghost links: Links, ghost plan: seq<nat>, ghost n: nat,
                       ghost base: seq<nat>)
      requires Shape() && TreeInv(links, roles) && RoleOf(roles, level1).Level1? && j < NUM_PTE
      requires forall p: nat, i: nat :: (p == level1 && i == j) || ChildAt(roles, p, level1, j) ==>
                 ((p, i) in LinksNow() <==> (p, i) in links)
                 && ((p, i) in links ==> LinksNow()[(p, i)] == links[(p, i)])
      requires Plan(plan, base) && n <= |plan| && Subtrees1(links, level1, NUM_PTE) + [level1] <= plan[n..]
      requires n + |Subtrees1(links, level1, j)| <= |plan|
      requires pool.Stack() == Pushed(plan, n + |Subtrees1(links, level1, j)|, base)
      modifies pool, pool.pages, mem
      ensures Shape()
      ensures n + |Subtrees1(links, level1, j + 1)| <= |plan|
      ensures pool.Stack() == Pushed(plan, n + |Subtrees1(links, level1, j + 1)|, base)
      ensures forall p: nat, i: nat :: (p, i) in LinksNow() <==>
                (p, i) in old(LinksNow()) && !(p == level1 && i == j) && !ChildAt(roles, p, level1, j)
      ensures forall p: nat, i: nat :: (p, i) in LinksNow() ==> LinksNow()[(p, i)] == old(LinksNow())[(p, i)]
      ensures forall p: nat, i: nat :: IsSlot(p, i) && p != level1 && !ChildAt(roles, p, level1, j) ==>
                At(M(), p, i) == At(old(M()), p, i)
    {
      ghost var m := n + |Subtrees1(links, level1, NUM_PTE)|;
      ghost var at := n + |Subtrees1(links, level1, j)|;
      Subtree1Next(links, level1, j, plan, n);
      NotPushed(plan, at, m, base);
      ChildIsTarget(links, roles, level1, j);
      var e := LoadEntry(level1, j);
      if IsValidEntry(e) {
        FreeMiddleEntry(level1, j, GetPageNum(e), links, plan, at, m, base);
      }
    }

    /** Frees everything below a middle-level directory and clears its entries
        (kernel/paging.c:273-297). */
    method FreeMiddle(level1: nat, ghost links: Links, ghost plan: seq<nat>, ghost n: nat, ghost base: seq<nat>)
      requires Shape() && TreeInv(links, roles) && RoleOf(roles, level1).Level1?
      requires forall p: nat, i: nat :: Family(roles, p, level1) ==>
                 ((p, i) in LinksNow() <==> (p, i) in links)
                 && ((p, i) in links ==> LinksNow()[(p, i)] == links[(p, i)])
      requires Plan(plan, base) && n <= |plan| && Subtrees1(links, level1, NUM_PTE) + [level1] <= plan[n..]
      requires pool.Stack() == Pushed(plan, n, base)
      modifies pool, pool.pages, mem
      ensures Shape()
      ensures pool.Stack() == Pushed(plan, n + |Subtrees1(links, level1, NUM_PTE)|, base)
      ensures Removed1(level1, NUM_PTE)
    {
      hide TreeInv, Plan, Pushed, LinksOf, At;
      NotOwnChild(links, roles, level1);
      for j := 0 to NUM_PTE
        invariant Shape()
        invariant n + |Subtrees1(links, level1, j)| <= |plan|
        invariant pool.Stack() == Pushed(plan, n + |Subtrees1(links, level1, j)|, base)
        invariant Removed1(level1, j)
      {
        MiddleRound(level1, j, links, plan, n, base);
      }
    }

    /** The links out of the root before index k, and out of every directory
        below those entries, are removed, no others. */
    twostate predicate Removed2(root: nat, k: nat)
      requires mem.Length == MEM_WORDS
      reads this, mem
    {
      && (forall p: nat, i: nat :: (p, i) in LinksNow() <==>
            (p, i) in old(LinksNow()) && !(p == root && i < k) && !DirectoryBefore(roles, p, root, k))
      && (forall p: nat, i: nat :: (p, i) in LinksNow() ==> LinksNow()[(p, i)] == old(LinksNow())[(p, i)])
      && (forall p: nat, i: nat :: IsSlot(p, i) && p != root && !DirectoryBefore(roles, p, root, k) ==>
            At(M(), p, i) == At(old(M()), p, i))
    }

    /** One round of the outer loop: everything below a middle-level directory,
        the directory itself, and the entry that refers to it. */
    method FreeRootEntry(root: nat, i: nat, level1: nat, ghost links: Links,
                         ghost plan: seq<nat>, ghost n: nat, ghost m: nat, ghost base: seq<nat>)
      requires Shape() && TreeInv(links, roles) && RoleOf(roles, level1).Level1?
      requires IsSlot(root, i) && level1 != root
      requires forall p: nat, i: nat :: Family(roles, p, level1) ==>
                 ((p, i) in LinksNow() <==> (p, i) in links)
                 && ((p, i) in links ==> LinksNow()[(p, i)] == links[(p, i)])
      requires Plan(plan, base) && n <= |plan| && Subtrees1(links, level1, NUM_PTE) + [level1] <= plan[n..]
      requires n + |Subtrees1(links, level1, NUM_PTE)| < m < |plan| && plan[m] == root
      requires pool.Stack() == Pushed(plan, n, base)
      modifies pool, pool.pages, mem
      ensures Shape()
      ensures pool.Stack() == Pushed(plan, n + |Subtrees1(links, level1, NUM_PTE)| + 1, base)
      ensures forall p: nat, j: nat :: (p, j) in LinksNow() <==>
                (p, j) in old(LinksNow()) && !Family(roles, p, level1) && !(p == root && j == i)
      ensures forall p: nat, j: nat :: (p, j) in LinksNow() ==> LinksNow()[(p, j)] == old(LinksNow())[(p, j)]
      ensures forall p: nat, j: nat :: IsSlot(p, j) && !Family(roles, p, level1) && p != root ==>
                At(M(), p, j) == At(old(M()), p, j)
    {
      ghost var next := n + |Subtrees1(links, level1, NUM_PTE)|;
      assert plan[next] == plan[n..][next - n] == level1;
      LinkSlots(M());
      FreeMiddle(level1, links, plan, n, base);
      FreeChild(root, i, level1, plan, next, m, base);
    }

    /** Entry i of the root: if it is valid, what it refers to is freed and the
        entry cleared. */
    method RootRound(root: nat, i: nat, ghost links: Links, ghost plan: seq<nat>, ghost base: seq<nat>)
      requires Shape() && TreeInv(links, roles) && IsTable(root) && i < NUM_PTE
      requires forall p: nat, j: nat :: (p == root && j == i) || DirectoryAt(roles, p, root, i) ==>
                 ((p, j) in LinksNow() <==> (p, j) in links)
                 && ((p, j) in links ==> LinksNow()[(p, j)] == links[(p, j)])
      requires Plan(plan, base) && plan == PostOrder(links, root)
      requires |Subtrees2(links, root, i)| <= |plan|
      requires pool.Stack() == Pushed(plan, |Subtrees2(links, root, i)|, base)
      modifies pool, pool.pages, mem
      ensures Shape()
      ensures |Subtrees2(links, root, i + 1)| <= |plan|
      ensures pool.Stack() == Pushed(plan, |Subtrees2(links, root, i + 1)|, base)
      ensures forall p: nat, j: nat :: (p, j) in LinksNow() <==>
                (p, j) in old(LinksNow()) && !(p == root && j == i) && !DirectoryAt(roles, p, root, i)
      ensures forall p: nat, j: nat :: (p, j) in LinksNow() ==> LinksNow()[(p, j)] == old(LinksNow())[(p, j)]
      ensures forall p: nat, j: nat :: IsSlot(p, j) && p != root && !DirectoryAt(roles, p, root, i) ==>
                At(M(), p, j) == At(old(M()), p, j)
    {
      ghost var m := |plan| - 1;
      ghost var at := |Subtrees2(links, root, i)|;
      assert plan[0..] == plan;
      Subtree2Next(links, root, i, plan, 0);
      NotPushed(plan, at, m, base);
      FamilyIsTarget(links, roles, root, i);
      var e := LoadEntry(root, i);
      if IsValidEntry(e) {
        FreeRootEntry(root, i, GetPageNum(e), links, plan, at, m, base);
      }
    }

    /** The outer loop (kernel/paging.c:267-306). */
    method FreeBelowRoot(root: nat, ghost links: Links, ghost plan: seq<nat>, ghost base: seq<nat>)
      requires Shape() && links == LinksNow() && TreeInv(links, roles) && IsTable(root)
      requires Plan(plan, base) && plan == PostOrder(links, root)
      requires pool.Stack() == base
      modifies pool, pool.pages, mem
      ensures Shape()
      ensures pool.Stack() == Pushed(plan, |plan| - 1, base)
      ensures Removed2(root, NUM_PTE)
    {
      hide TreeInv, Plan, LinksOf, At;
      assert plan[..0] == [];
      for i := 0 to NUM_PTE
        invariant Shape()
        invariant |Subtrees2(links, root, i)| <= |plan|
        invariant pool.Stack() == Pushed(plan, |Subtrees2(links, root, i)|, base)
        invariant Removed2(root, i)
      {
        DirectoryNext(roles, root, i);
        RootRound(root, i, links, plan, base);
      }
    }

    /** Gives every page of a table back: each exactly once, children before the
        directory that refers to them, the root last. A page is not touched
        again once it is on the stack, and the error of freePage is not reached. */
    method DeallocatePageTable(pagetable: nat) returns (r: Result<()>)
      requires Valid() && IsTable(pagetable)
      modifies this, pool, pool.pages, mem
      ensures r == Ok(()) && Valid()
      ensures pool.Stack() == Reverse(PostOrder(old(LinksNow()), pagetable)) + old(pool.Stack())
      ensures roles == FreedRoles(old(roles), pagetable)
      ensures forall p: nat, i: nat :: (p, i) in LinksNow() <==>
                (p, i) in old(LinksNow()) && p != pagetable && !DirectoryBefore(old(roles), p, pagetable, NUM_PTE)
      ensures SameSpaces(old(LinksNow()), LinksNow(), roles)
      ensures CleanPool() <==> old(CleanPool()) && CleanData(old(LinksNow()), old(roles), pagetable)
      ensures forall p: nat, i: nat :: IsSlot(p, i) && !(IsDir(RoleOf(old(roles), p)) && RoleOf(roles, p).Free?) ==>
                At(M(), p, i) == At(old(M()), p, i)
    {
      hide TreeInv, LinksOf, At, CleanPages, CleanData, FreedRoles, DirectoryBefore, StackHoldsFree, SameSpaces,
           Reverse;
      ghost var links := LinksNow();
      ghost var base := pool.Stack();
      ghost var plan := PostOrder(links, pagetable);
      TablePlan(links, roles, pagetable, base);
      FreedDirectories(links, roles, pagetable);
      FreeBelowRoot(pagetable, links, plan, base);

      NotPushed(plan, |plan| - 1, |plan| - 1, base);
      PushNext(plan, |plan| - 1, base);
      assert plan[..|plan|] == plan;
      LinkSlots(old(M()));
      FreedTree(links, LinksNow(), roles, pagetable);
      FreedClean(links, LinksNow(), roles, pagetable);
      r := pool.FreePage(pagetable);
      roles := FreedRoles(roles, pagetable);
    }

    // Sealed
    // ------

    ghost predicate SaneAt(n: nat)
      reads this, pool, pool.pages, mem
    {
      if n == 0 then Valid() else SaneAt(n - 1)
    }

    lemma {:induction false} OpenSane(n: nat)
      ensures SaneAt(n) <==> Valid()
    {
      if n > 0 {
        OpenSane(n - 1);
      }
    }

    /** Valid(), sealed. */
    ghost predicate Sane()
      reads this, pool, pool.pages, mem
    {
      SaneAt(SEAL)
    }

    // Data pages
    // ----------

    /** Stores a byte at a physical address in a data page. */
    method StoreByte(pa: uint64, b: byte)
      requires Valid() && RoleOf(roles, GetPhyPage(pa)).Data?
      modifies mem
      ensures GetOffset(pa) < PGSIZE && InPool(GetPhyPage(pa))
      ensures M() == PutByte(old(M()), GetPhyPage(pa), GetOffset(pa), b)
    {
      OffsetField(pa);
      var p, o := GetPhyPage(pa), GetOffset(pa);
      var k := WordIndex(p, o / 8);
      mem[k] := SetByte(mem[k], o % 8, b);
      assert M() == PutByte(old(M()), p, o, b);
    }

    /** Reads a byte at a physical address in a data page. */
    method LoadByte(pa: uint64) returns (b: byte)
      requires Valid() && RoleOf(roles, GetPhyPage(pa)).Data?
      ensures GetOffset(pa) < PGSIZE && InPool(GetPhyPage(pa))
      ensures b == ByteAt(M(), GetPhyPage(pa), GetOffset(pa))
    {
      OffsetField(pa);
      var p, o := GetPhyPage(pa), GetOffset(pa);
      b := ByteOf(mem[WordIndex(p, o / 8)], o % 8);
    }

    /** Stores a byte through a table (kernel/buffer.c:176-179). */
    method StoreVirtual(pagetable: nat, virtualAddress: uint64, b: byte) returns (r: Result<()>)
      requires Sane() && IsTable(pagetable)
      modifies mem
      ensures Sane() && mem.Length == MEM_WORDS
      ensures VirtualMemory.IsMapped(old(M()), pagetable, virtualAddress) ==>
        var p := Translate(old(LinksNow()), pagetable, virtualAddress / PGSIZE).value;
        r == Ok(()) && InPool(p) && M() == PutByte(old(M()), p, virtualAddress % PGSIZE, b)
      ensures !VirtualMemory.IsMapped(old(M()), pagetable, virtualAddress) ==>
        r == Halt(AddressNotValid) && M() == old(M())
    {
      OpenSane(SEAL);
      var pa :- VirtualToPhysical(pagetable, virtualAddress);
      ghost var p := Translate(LinksNow(), pagetable, virtualAddress / PGSIZE).value;
      OffsetField(virtualAddress);
      VirtualMemory.MappedInPool(M(), roles, pagetable, virtualAddress / PGSIZE);
      PhysicalAddressRoundTrip(p, GetOffset(virtualAddress));
      StoreByte(pa, b);
      VirtualMemory.StoreKeepsTree(old(M()), roles, p, virtualAddress % PGSIZE, b);
      OpenSane(SEAL);
      return Ok(());
    }

    /** Reads a byte through a table (kernel/buffer.c:218-221). */
    method LoadVirtual(pagetable: nat, virtualAddress: uint64) returns (r: Result<byte>)
      requires Sane() && IsTable(pagetable)
      ensures mem.Length == MEM_WORDS
      ensures var x := VirtualMemory.VirtualByte(M(), pagetable, virtualAddress);
        r == if x.Some? then Ok(x.value) else Halt(AddressNotValid)
    {
      OpenSane(SEAL);
      var pa :- VirtualToPhysical(pagetable, virtualAddress);
      ghost var p := Translate(LinksNow(), pagetable, virtualAddress / PGSIZE).value;
      OffsetField(virtualAddress);
      VirtualMemory.MappedInPool(M(), roles, pagetable, virtualAddress / PGSIZE);
      PhysicalAddressRoundTrip(p, GetOffset(virtualAddress));
      var b := LoadByte(pa);
      return Ok(b);
    }
  }
}
