/**
 Page tables as linked directories. Every page of the pool has one role, and
 the links between directories agree with the roles; what follows from that
 agreement is the isolation of address spaces.
 */
module PageTree {
  import opened Halting
  import opened Sv39
  import opened PhysMem

  /** What a page is used for. A child knows the directory and the index of
      the one entry that refers to it. Held pages are neither free nor in a table. */
  datatype Role =
    | Free
    | Held
    | Root
    | Level1(parent: nat, idx: nat)
    | Level0(parent: nat, idx: nat)
    | Data(parent: nat, idx: nat)

  type Roles = map<nat, Role>

  ghost function RoleOf(roles: Roles, p: nat): Role {
    if p in roles then roles[p] else Held
  }

  ghost predicate IsDir(r: Role) {
    r.Root? || r.Level1? || r.Level0?
  }

  ghost predicate IsChild(r: Role) {
    r.Level1? || r.Level0? || r.Data?
  }

  /** The role of the page that entry i of directory p refers to. */
  ghost function ChildRole(r: Role, p: nat, i: nat): Role
    requires IsDir(r)
  {
    if r.Root? then Level1(p, i) else if r.Level1? then Level0(p, i) else Data(p, i)
  }

  ghost predicate Refers(links: Links, roles: Roles, q: nat)
    requires IsChild(RoleOf(roles, q))
  {
    var r := RoleOf(roles, q);
    && (r.parent, r.idx) in links
    && links[(r.parent, r.idx)] == q
    && IsDir(RoleOf(roles, r.parent))
    && r == ChildRole(RoleOf(roles, r.parent), r.parent, r.idx)
  }

  ghost predicate RolesTotal(roles: Roles) {
    forall p: nat :: p in roles <==> InPool(p)
  }

  ghost predicate TreeInv(links: Links, roles: Roles) {
    && RolesTotal(roles)
    && (forall p: nat, i: nat :: (p, i) in links ==> i < NUM_PTE)
    && (forall p: nat, i: nat :: (p, i) in links && IsDir(RoleOf(roles, p)) ==>
          RoleOf(roles, links[(p, i)]) == ChildRole(RoleOf(roles, p), p, i))
    && (forall q: nat :: IsChild(RoleOf(roles, q)) ==> Refers(links, roles, q))
  }

  /** Page p holds no word that looks like a valid entry. */
  ghost predicate Blank(links: Links, p: nat) {
    forall i: nat :: (p, i) !in links
  }

  /** No free page holds a word that looks like a valid entry. */
  ghost predicate CleanPages(links: Links, roles: Roles) {
    forall p: nat, i: nat :: (p, i) in links ==> !RoleOf(roles, p).Free?
  }

  // The walk
  // --------

  ghost function Step(links: Links, dir: Option<nat>, i: nat): Option<nat> {
    if dir.Some? && (dir.value, i) in links then Some(links[(dir.value, i)]) else None
  }

  /** Page reached from `root` along path x. */
  ghost function Walk(links: Links, root: nat, x: Path): Option<nat> {
    Step(links, Level0Of(links, root, x), x.i0)
  }

  /** Directories passed on the way. */
  ghost function Level1Of(links: Links, root: nat, x: Path): Option<nat> {
    Step(links, Some(root), x.i2)
  }

  ghost function Level0Of(links: Links, root: nat, x: Path): Option<nat> {
    Step(links, Level1Of(links, root, x), x.i1)
  }

  /** Physical page of virtual page v; only the 27 index bits of v matter. */
  ghost function Translate(links: Links, root: nat, v: nat): Option<nat> {
    Walk(links, root, PathOf(v))
  }

  /** The address space of a table, as a finite map of page numbers. */
  ghost function Space(links: Links, root: nat): map<nat, nat> {
    map v: nat | v < VPAGES && Translate(links, root, v).Some? :: Translate(links, root, v).value
  }

  /** A successful walk passes one directory of each level and ends on a data page. */
  lemma WalkRoles(links: Links, roles: Roles, root: nat, x: Path)
    requires TreeInv(links, roles) && RoleOf(roles, root).Root?
    ensures var d1 := Level1Of(links, root, x);
      d1.Some? ==> RoleOf(roles, d1.value) == Level1(root, x.i2)
    ensures var d0 := Level0Of(links, root, x);
      d0.Some? ==> RoleOf(roles, d0.value) == Level0(Level1Of(links, root, x).value, x.i1)
    ensures var p := Walk(links, root, x);
      p.Some? ==> RoleOf(roles, p.value) == Data(Level0Of(links, root, x).value, x.i0)
  {
  }

  /** No physical page serves two paths, of one table or of two. */
  lemma WalkInjective(links: Links, roles: Roles, t: nat, x: Path, u: nat, y: Path)
    requires TreeInv(links, roles)
    requires RoleOf(roles, t).Root? && RoleOf(roles, u).Root?
    requires Walk(links, t, x).Some? && Walk(links, t, x) == Walk(links, u, y)
    ensures t == u && x == y
  {
    WalkRoles(links, roles, t, x);
    WalkRoles(links, roles, u, y);
  }

  /** The same for virtual page numbers. */
  lemma TranslateInjective(links: Links, roles: Roles, t: nat, v: nat, u: nat, w: nat)
    requires TreeInv(links, roles)
    requires RoleOf(roles, t).Root? && RoleOf(roles, u).Root?
    requires Translate(links, t, v).Some? && Translate(links, t, v) == Translate(links, u, w)
    ensures t == u && v % VPAGES == w % VPAGES
  {
    WalkInjective(links, roles, t, PathOf(v), u, PathOf(w));
    PathDetermines(v, w);
  }

  /** Moving a page between free and held disturbs nothing. */
  lemma HoldKeepsTree(links: Links, roles: Roles, q: nat)
    requires TreeInv(links, roles) && RoleOf(roles, q).Free?
    ensures TreeInv(links, roles[q := Held])
  {
    var r := roles[q := Held];
    forall x: nat | IsChild(RoleOf(r, x)) ensures Refers(links, r, x) {
      assert Refers(links, roles, x);
    }
  }

  /** A free page whose links have been removed becomes an empty table. */
  lemma RootKeepsTree(before: Links, after: Links, roles: Roles, q: nat)
    requires TreeInv(before, roles) && RoleOf(roles, q).Free?
    requires forall p: nat, i: nat :: (p, i) in after <==> (p, i) in before && p != q
    requires forall p: nat, i: nat :: (p, i) in after ==> after[(p, i)] == before[(p, i)]
    ensures TreeInv(after, roles[q := Root])
    ensures SameSpaces(before, after, roles)
  {
    var r := roles[q := Root];
    forall x: nat | IsChild(RoleOf(r, x)) ensures Refers(after, r, x) {
      assert Refers(before, roles, x);
    }
    WalkReadsDirectories(before, after, roles);
  }

  // Adding a link
  // -------------

  /** A held page becomes the child of an empty entry. A new directory must
      bring no links of its own. */
  lemma LinkKeepsTree(links: Links, roles: Roles, p: nat, i: nat, q: nat)
    requires TreeInv(links, roles)
    requires IsDir(RoleOf(roles, p)) && (p, i) !in links && i < NUM_PTE
    requires InPool(q) && RoleOf(roles, q).Held?
    requires !RoleOf(roles, p).Level0? ==> forall j: nat :: (q, j) !in links
    ensures TreeInv(links[(p, i) := q], roles[q := ChildRole(RoleOf(roles, p), p, i)])
  {
    var l := links[(p, i) := q];
    var r := roles[q := ChildRole(RoleOf(roles, p), p, i)];
    forall x: nat | IsChild(RoleOf(r, x)) ensures Refers(l, r, x) {
      if x != q {
        assert Refers(links, roles, x);
      }
    }
  }

  /** That condition is exact: words left in a page by an earlier use would be
      taken for the entries of the new directory. */
  lemma LinkKeepsTreeIff(links: Links, roles: Roles, p: nat, i: nat, q: nat)
    requires TreeInv(links, roles)
    requires RoleOf(roles, p).Root? || RoleOf(roles, p).Level1?
    requires (p, i) !in links && i < NUM_PTE && InPool(q) && RoleOf(roles, q).Held?
    ensures TreeInv(links[(p, i) := q], roles[q := ChildRole(RoleOf(roles, p), p, i)])
            <==> forall j: nat :: (q, j) !in links
  {
    var l := links[(p, i) := q];
    var r := roles[q := ChildRole(RoleOf(roles, p), p, i)];
    if forall j: nat :: (q, j) !in links {
      LinkKeepsTree(links, roles, p, i, q);
    } else {
      var j: nat :| (q, j) in links;
      var t := links[(q, j)];
      assert (q, j) in l && l[(q, j)] == t;
      assert IsChild(RoleOf(roles, t)) ==> Refers(links, roles, t);
    }
  }

  /** Every table translates as before. */
  ghost predicate SameSpaces(before: Links, after: Links, roles: Roles) {
    forall t: nat, x: Path :: RoleOf(roles, t).Root? ==> Walk(after, t, x) == Walk(before, t, x)
  }

  lemma SameAsNow(links: Links, roles: Roles)
    ensures SameSpaces(links, links, roles)
  {
  }

  lemma SpacesTwice(a: Links, b: Links, c: Links, roles: Roles, roles': Roles)
    requires SameSpaces(a, b, roles) && SameSpaces(b, c, roles')
    requires forall t: nat :: RoleOf(roles, t).Root? ==> RoleOf(roles', t).Root?
    ensures SameSpaces(a, c, roles)
  {
  }

  lemma SameWalk(before: Links, after: Links, roles: Roles, t: nat, x: Path)
    requires SameSpaces(before, after, roles) && RoleOf(roles, t).Root?
    ensures Walk(after, t, x) == Walk(before, t, x)
  {
  }

  /** Path x of table `root` now leads to q; every other path is as before. */
  ghost predicate AddsPage(before: Links, after: Links, roles: Roles, root: nat, x: Path, q: nat) {
    forall t: nat, y: Path :: RoleOf(roles, t).Root? ==>
      Walk(after, t, y) == if t == root && y == x then Some(q) else Walk(before, t, y)
  }

  /** Linking a directory that is empty changes no translation. */
  lemma LinkDirectory(links: Links, roles: Roles, p: nat, i: nat, q: nat)
    requires TreeInv(links, roles)
    requires RoleOf(roles, p).Root? || RoleOf(roles, p).Level1?
    requires (p, i) !in links && RoleOf(roles, q).Held?
    requires forall j: nat :: (q, j) !in links
    ensures SameSpaces(links, links[(p, i) := q], roles)
  {
    forall t: nat, x: Path | RoleOf(roles, t).Root?
      ensures Walk(links[(p, i) := q], t, x) == Walk(links, t, x)
    {
      WalkRoles(links, roles, t, x);
    }
  }

  /** Linking a data page adds one translation and changes no other. */
  lemma LinkData(links: Links, roles: Roles, root: nat, x: Path, p: nat, q: nat)
    requires TreeInv(links, roles) && RoleOf(roles, root).Root?
    requires Level0Of(links, root, x) == Some(p) && (p, x.i0) !in links
    ensures AddsPage(links, links[(p, x.i0) := q], roles, root, x, q)
  {
    WalkRoles(links, roles, root, x);
    forall t: nat, y: Path | RoleOf(roles, t).Root?
      ensures Walk(links[(p, x.i0) := q], t, y) ==
              if t == root && y == x then Some(q) else Walk(links, t, y)
    {
      WalkRoles(links, roles, t, y);
    }
  }

  /** Table `root` has the directories of path x, and else those it had. */
  ghost predicate GrowsPath(before: Links, after: Links, root: nat, x: Path) {
    forall y: Path ::
      && (Level1Of(after, root, y).Some? <==> Level1Of(before, root, y).Some? || y.i2 == x.i2)
      && (Level0Of(after, root, y).Some? <==> Level0Of(before, root, y).Some? || (y.i2 == x.i2 && y.i1 == x.i1))
  }

  ghost predicate SameDirectories(before: Links, after: Links, root: nat) {
    forall y: Path ::
      && Level1Of(after, root, y) == Level1Of(before, root, y)
      && Level0Of(after, root, y) == Level0Of(before, root, y)
  }

  lemma DirectoriesStay(links: Links, root: nat)
    ensures SameDirectories(links, links, root)
  {
  }

  /** The two links that complete a path: one into the root, where there was
      none, and one into the middle-level directory. */
  lemma PathGrown(links: Links, mid: Links, after: Links, roles: Roles, root: nat, x: Path, d1: nat, d0: nat)
    requires TreeInv(mid, roles) && RoleOf(roles, root).Root?
    requires Level1Of(mid, root, x) == Some(d1)
    requires mid == links || ((root, x.i2) !in links && mid == links[(root, x.i2) := d1]
                              && forall j: nat :: (d1, j) !in mid)
    requires if (d1, x.i1) in mid then after == mid else after == mid[(d1, x.i1) := d0]
    ensures GrowsPath(links, after, root, x)
  {
    forall y: Path
      ensures Level1Of(after, root, y).Some? <==> Level1Of(links, root, y).Some? || y.i2 == x.i2
      ensures Level0Of(after, root, y).Some? <==> Level0Of(links, root, y).Some? || (y.i2 == x.i2 && y.i1 == x.i1)
    {
      WalkRoles(mid, roles, root, x);
      WalkRoles(mid, roles, root, y);
    }
  }

  /** A link into a last-level directory adds no directory. */
  lemma DataAddsNoDirectory(links: Links, roles: Roles, root: nat, p: nat, i: nat, q: nat)
    requires TreeInv(links, roles) && RoleOf(roles, root).Root? && RoleOf(roles, p).Level0?
    ensures SameDirectories(links, links[(p, i) := q], root)
  {
    forall y: Path
      ensures Level1Of(links[(p, i) := q], root, y) == Level1Of(links, root, y)
      ensures Level0Of(links[(p, i) := q], root, y) == Level0Of(links, root, y)
    {
      WalkRoles(links, roles, root, y);
    }
  }

  /** Directories first, then the page. */
  lemma GrownThenAdded(before: Links, mid: Links, after: Links, roles: Roles, roles': Roles, root: nat, x: Path, q: nat)
    requires SameSpaces(before, mid, roles) && AddsPage(mid, after, roles', root, x, q)
    requires forall t: nat :: RoleOf(roles, t).Root? ==> RoleOf(roles', t).Root?
    requires GrowsPath(before, mid, root, x) && SameDirectories(mid, after, root)
    ensures AddsPage(before, after, roles, root, x, q) && GrowsPath(before, after, root, x)
  {
  }

  /** In terms of the address spaces as maps: exactly one key more. */
  lemma AddsPageSpace(before: Links, after: Links, roles: Roles, root: nat, v: nat, q: nat)
    requires AddsPage(before, after, roles, root, PathOf(v), q) && RoleOf(roles, root).Root?
    ensures Space(after, root) == Space(before, root)[v % VPAGES := q]
    ensures forall t: nat :: RoleOf(roles, t).Root? && t != root ==> Space(after, t) == Space(before, t)
  {
    hide PathOf, Walk;
    forall w: nat | w < VPAGES
      ensures Translate(after, root, w) ==
              if w == v % VPAGES then Some(q) else Translate(before, root, w)
    {
      PathDetermines(v, w);
    }
    forall t: nat | RoleOf(roles, t).Root? && t != root ensures Space(after, t) == Space(before, t) {
      assert forall w: nat :: Translate(after, t, w) == Translate(before, t, w);
    }
  }

  /** Walks only read directories. */
  lemma WalkReadsDirectories(before: Links, after: Links, roles: Roles)
    requires TreeInv(before, roles)
    requires forall p: nat, i: nat :: IsDir(RoleOf(roles, p)) ==>
               ((p, i) in after <==> (p, i) in before) && ((p, i) in before ==> after[(p, i)] == before[(p, i)])
    ensures SameSpaces(before, after, roles)
  {
    forall t: nat, x: Path | RoleOf(roles, t).Root? ensures Walk(after, t, x) == Walk(before, t, x) {
      WalkRoles(before, roles, t, x);
    }
  }

  /** Changing words of pages that are not directories keeps the tree. */
  lemma TreeReadsDirectories(before: Links, after: Links, roles: Roles)
    requires TreeInv(before, roles)
    requires forall p: nat, i: nat :: (p, i) in after ==> i < NUM_PTE
    requires forall p: nat, i: nat :: IsDir(RoleOf(roles, p)) ==>
               ((p, i) in after <==> (p, i) in before) && ((p, i) in before ==> after[(p, i)] == before[(p, i)])
    ensures TreeInv(after, roles)
  {
    forall q: nat | IsChild(RoleOf(roles, q)) ensures Refers(after, roles, q) {
      assert Refers(before, roles, q);
    }
  }
}
