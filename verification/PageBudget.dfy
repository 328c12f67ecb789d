/** Which pages a range of addresses needs, and what a table with those pages
    costs the page pool. */
module PageBudget {
  import opened PageTree
  import opened Paging
  import opened PhysMem
  import opened Seqs
  import opened Sv39
  import opened VirtualMemory

  /** Virtual page of an address, as getVirtPage computes it. */
  function PageNo(a: nat): nat {
    a / PGSIZE % VPAGES
  }

  /** Virtual pages of the n addresses from vaddr on. */
  ghost function PagesOf(vaddr: nat, n: nat): set<nat> {
    if n == 0 then {} else PagesOf(vaddr, n - 1) + {PageNo(vaddr + (n - 1))}
  }

  lemma {:induction false} PagesOfHas(vaddr: nat, n: nat, j: nat)
    requires j < n
    ensures PageNo(vaddr + j) in PagesOf(vaddr, n)
  {
    if j < n - 1 {
      PagesOfHas(vaddr, n - 1, j);
    }
  }

  lemma {:induction false} PagesOfGrow(vaddr: nat, n: nat, m: nat)
    requires n <= m
    ensures PagesOf(vaddr, n) <= PagesOf(vaddr, m)
  {
    if n < m {
      PagesOfGrow(vaddr, n, m - 1);
    }
  }

  /** How many pages v lies above p0, round the end of the address space. */
  ghost function PagesAbove(v: int, p0: int): nat {
    (v - p0) % VPAGES
  }

  lemma NextPage(p0: nat, t: nat, v: nat)
    requires t < VPAGES && v < VPAGES
    ensures PagesAbove(v, p0) == t <==> v == (p0 + t) % VPAGES
  {
    var d := (v - p0) % VPAGES;
    var q := (v - p0) / VPAGES;
    assert v - p0 == q * VPAGES + d;
    var b := (p0 + t) % VPAGES;
    var s := (p0 + t) / VPAGES;
    assert p0 + t == s * VPAGES + b;
    assert v - b == (q + s) * VPAGES + (d - t);
  }

  /** Number of pages that hold n bytes from a page boundary on. */
  function PagesFor(n: nat): nat {
    (n + PGSIZE - 1) / PGSIZE
  }

  lemma LastByte(vaddr: nat, n: nat)
    requires vaddr % PGSIZE == 0 && 0 < n <= VSPACE
    ensures (vaddr + (n - 1)) / PGSIZE == vaddr / PGSIZE + (PagesFor(n) - 1)
    ensures 0 < PagesFor(n) <= VPAGES
    ensures PagesFor(n - 1) == PagesFor(n) || PagesFor(n - 1) == PagesFor(n) - 1
    ensures n > 1 && PagesFor(n - 1) == PagesFor(n) - 1 ==> (n - 1) % PGSIZE == 0
  {
  }

  /** From a page boundary on, n addresses (2^39 at most) lie in the next pages,
      as many as hold n bytes. */
  lemma {:induction false} PagesAligned(vaddr: nat, n: nat, v: nat)
    requires vaddr % PGSIZE == 0 && n <= VSPACE
    ensures v in PagesOf(vaddr, n) <==> v < VPAGES && PagesAbove(v, vaddr / PGSIZE) < PagesFor(n)
  {
    if n > 0 {
      PagesAligned(vaddr, n - 1, v);
      LastByte(vaddr, n);
      if v < VPAGES {
        NextPage(vaddr / PGSIZE, PagesFor(n) - 1, v);
      }
    }
  }

  /** The last of n addresses lies in a page of its own or in one seen before. */
  lemma NewPage(vaddr: nat, n: nat)
    requires vaddr % PGSIZE == 0 && 0 < n <= VSPACE
    ensures PagesFor(n) == PagesFor(n - 1) + (if PageNo(vaddr + (n - 1)) in PagesOf(vaddr, n - 1) then 0 else 1)
  {
    hide PagesFor, PagesAbove, PagesOf;
    LastByte(vaddr, n);
    var v := PageNo(vaddr + (n - 1));
    PagesAligned(vaddr, n - 1, v);
    NextPage(vaddr / PGSIZE, PagesFor(n) - 1, v);
  }

  lemma {:induction false} PagesCount(vaddr: nat, n: nat)
    requires vaddr % PGSIZE == 0 && n <= VSPACE
    ensures |PagesOf(vaddr, n)| == PagesFor(n)
  {
    if n > 0 {
      hide PagesFor, PageNo;
      PagesCount(vaddr, n - 1);
      NewPage(vaddr, n);
      OneMore(PagesOf(vaddr, n - 1), PageNo(vaddr + (n - 1)));
    }
  }

  lemma OneMore<T>(s: set<T>, x: T)
    ensures |s + {x}| == |s| + (if x in s then 0 else 1)
  {
    if x in s {
      assert s + {x} == s;
    }
  }

  // Cost
  // ----

  ghost function TopIndices(pages: set<nat>): set<nat> {
    set v | v in pages :: PathOf(v).i2
  }

  ghost function MiddleIndices(pages: set<nat>): set<(nat, nat)> {
    set v | v in pages :: (PathOf(v).i2, PathOf(v).i1)
  }

  /** Pages that a table for these virtual pages takes from the pool: the root,
      a directory for each index in the root and for each pair of indices, and
      for each virtual page the one it maps to and one more. */
  ghost function Cost(pages: set<nat>): nat {
    1 + |TopIndices(pages)| + |MiddleIndices(pages)| + 2 * |pages|
  }

  /** Directories that one path more needs. */
  ghost function NewDirs(pages: set<nat>, x: Path): nat {
    (if x.i2 in TopIndices(pages) then 0 else 1) + (if (x.i2, x.i1) in MiddleIndices(pages) then 0 else 1)
  }

  lemma CostNext(pages: set<nat>, v: nat)
    requires v !in pages
    ensures Cost(pages + {v}) == Cost(pages) + NewDirs(pages, PathOf(v)) + 2
  {
    hide PathOf;
    OneMore(TopIndices(pages), PathOf(v).i2);
    OneMore(MiddleIndices(pages), (PathOf(v).i2, PathOf(v).i1));
    assert TopIndices(pages + {v}) == TopIndices(pages) + {PathOf(v).i2};
    assert MiddleIndices(pages + {v}) == MiddleIndices(pages) + {(PathOf(v).i2, PathOf(v).i1)};
  }

  lemma CostGrows(a: set<nat>, b: set<nat>)
    requires a <= b
    ensures Cost(a) <= Cost(b)
  {
    SubsetCard(a, b);
    SubsetCard(TopIndices(a), TopIndices(b));
    SubsetCard(MiddleIndices(a), MiddleIndices(b));
  }

  /** The table maps exactly these virtual pages. */
  ghost predicate MapsExactly(links: Links, root: nat, pages: set<nat>) {
    forall v: nat :: Translate(links, root, v).Some? <==> v % VPAGES in pages
  }

  /** It has the directories that takes and no others. */
  ghost predicate Tight(links: Links, root: nat, pages: set<nat>) {
    && (forall v :: v in pages ==> v < VPAGES)
    && MapsExactly(links, root, pages)
    && (forall y: Path :: Level1Of(links, root, y).Some? <==> y.i2 in TopIndices(pages))
    && (forall y: Path :: Level0Of(links, root, y).Some? <==> (y.i2, y.i1) in MiddleIndices(pages))
  }

  lemma TightEmpty(links: Links, root: nat)
    requires forall j: nat :: (root, j) !in links
    ensures Tight(links, root, {})
  {
  }

  /** A page more, with the directories on the way to it. */
  lemma TightNext(before: Links, after: Links, roles: Roles, root: nat, pages: set<nat>, v: nat, q: nat)
    requires Tight(before, root, pages) && RoleOf(roles, root).Root?
    requires AddsPage(before, after, roles, root, PathOf(v), q) && GrowsPath(before, after, root, PathOf(v))
    ensures Tight(after, root, pages + {v % VPAGES})
  {
    hide PathOf;
    var w := v % VPAGES;
    SamePath(v);
    assert TopIndices(pages + {w}) == TopIndices(pages) + {PathOf(w).i2};
    assert MiddleIndices(pages + {w}) == MiddleIndices(pages) + {(PathOf(w).i2, PathOf(w).i1)};
    forall u: nat ensures Translate(after, root, u).Some? <==> u % VPAGES in pages + {w} {
      PathDetermines(u, v);
      assert Translate(before, root, u).Some? <==> u % VPAGES in pages;
    }
  }

  lemma MiddleHasTop(pages: set<nat>, x: Path)
    ensures (x.i2, x.i1) in MiddleIndices(pages) ==> x.i2 in TopIndices(pages)
  {
  }

  lemma MissingIs(links: Links, root: nat, pages: set<nat>, x: Path)
    requires Tight(links, root, pages)
    ensures MissingDirs(links, root, x) == NewDirs(pages, x)
  {
    MiddleHasTop(pages, x);
  }

  lemma MissingCost(links: Links, root: nat, pages: set<nat>, w: nat, x: Path)
    requires Tight(links, root, pages) && w !in pages && x == PathOf(w)
    ensures Cost(pages + {w}) == Cost(pages) + MissingDirs(links, root, x) + 2
  {
    MissingIs(links, root, pages, x);
    CostNext(pages, w);
  }

  lemma SamePath(v: nat)
    ensures PathOf(v) == PathOf(v % VPAGES)
  {
    hide PathOf;
    SameRemainder(v);
    PathDetermines(v, v % VPAGES);
  }

  /** What the next page takes is what it adds to the cost. */
  lemma TightMissing(links: Links, root: nat, pages: set<nat>, v: nat, w: nat)
    requires Tight(links, root, pages) && w == v % VPAGES && w !in pages
    ensures Cost(pages + {w}) == Cost(pages) + MissingDirs(links, root, PathOf(v)) + 2
  {
    SamePath(v);
    MissingCost(links, root, pages, w, PathOf(v));
  }

  /** The roles of the pages say what every table translates. */
  lemma RolesDetermine(before: Links, after: Links, roles: Roles)
    requires TreeInv(before, roles) && TreeInv(after, roles)
    ensures forall p: nat, i: nat :: IsDir(RoleOf(roles, p)) ==>
              ((p, i) in after <==> (p, i) in before) && ((p, i) in before ==> after[(p, i)] == before[(p, i)])
  {
    forall p: nat, i: nat | IsDir(RoleOf(roles, p))
      ensures (p, i) in before ==> (p, i) in after && after[(p, i)] == before[(p, i)]
      ensures (p, i) in after ==> (p, i) in before
    {
      if (p, i) in before {
        assert Refers(after, roles, before[(p, i)]);
      }
      if (p, i) in after {
        assert Refers(before, roles, after[(p, i)]);
      }
    }
  }

  lemma TightSame(before: Links, after: Links, roles: Roles, root: nat, pages: set<nat>)
    requires TreeInv(before, roles) && TreeInv(after, roles) && RoleOf(roles, root).Root?
    requires Tight(before, root, pages)
    ensures Tight(after, root, pages)
  {
    RolesDetermine(before, after, roles);
    WalkReadsDirectories(before, after, roles);
    forall y: Path
      ensures Level1Of(after, root, y) == Level1Of(before, root, y)
      ensures Level0Of(after, root, y) == Level0Of(before, root, y)
    {
      WalkRoles(before, roles, root, y);
    }
    forall v: nat ensures Translate(after, root, v) == Translate(before, root, v) {
    }
  }
}
