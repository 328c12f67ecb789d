/** The order in which a page table is taken apart: children before parents. */
module TableOrder {
  import opened PageTree
  import opened PhysMem
  import opened Seqs
  import opened Sv39

  /** Pages the first k entries of a last-level directory refer to. */
  ghost function Leaves(links: Links, d: nat, k: nat): seq<nat> {
    if k == 0 then []
    else if (d, k - 1) in links then Leaves(links, d, k - 1) + [links[(d, k - 1)]]
    else Leaves(links, d, k - 1)
  }

  /** The subtrees below the first k entries of a middle-level directory. */
  ghost function Subtrees1(links: Links, d: nat, k: nat): seq<nat> {
    if k == 0 then []
    else if (d, k - 1) in links then Subtrees1(links, d, k - 1) + Subtree1(links, d, k - 1)
    else Subtrees1(links, d, k - 1)
  }

  ghost function Subtree1(links: Links, d: nat, i: nat): seq<nat>
    requires (d, i) in links
  {
    Leaves(links, links[(d, i)], NUM_PTE) + [links[(d, i)]]
  }

  /** The subtrees below the first k entries of a root. */
  ghost function Subtrees2(links: Links, d: nat, k: nat): seq<nat> {
    if k == 0 then []
    else if (d, k - 1) in links then Subtrees2(links, d, k - 1) + Subtree2(links, d, k - 1)
    else Subtrees2(links, d, k - 1)
  }

  ghost function Subtree2(links: Links, d: nat, i: nat): seq<nat>
    requires (d, i) in links
  {
    Subtrees1(links, links[(d, i)], NUM_PTE) + [links[(d, i)]]
  }

  /** Every page of the table, each directory after all it refers to. */
  ghost function PostOrder(links: Links, root: nat): seq<nat> {
    Subtrees2(links, root, NUM_PTE) + [root]
  }

  /** q is a page that one of the first k entries of directory d refers to. */
  ghost predicate ChildBefore(roles: Roles, q: nat, d: nat, k: nat) {
    IsChild(RoleOf(roles, q)) && RoleOf(roles, q).parent == d && RoleOf(roles, q).idx < k
  }

  /** q hangs below one of the first k entries of middle-level directory d. */
  ghost predicate Below1(roles: Roles, q: nat, d: nat, k: nat) {
    || ChildBefore(roles, q, d, k)
    || (RoleOf(roles, q).Data? && ChildBefore(roles, RoleOf(roles, q).parent, d, k))
  }

  /** q hangs below one of the first k entries of root d. */
  ghost predicate Below2(roles: Roles, q: nat, d: nat, k: nat) {
    || ChildBefore(roles, q, d, k)
    || (RoleOf(roles, q).Level0? && ChildBefore(roles, RoleOf(roles, q).parent, d, k))
    || (RoleOf(roles, q).Data? && IsChild(RoleOf(roles, RoleOf(roles, q).parent))
        && ChildBefore(roles, RoleOf(roles, RoleOf(roles, q).parent).parent, d, k))
  }

  ghost predicate InTable(roles: Roles, q: nat, root: nat) {
    q == root || Below2(roles, q, root, NUM_PTE)
  }

  /** The root of the table that page q is in. */
  ghost function TableOf(roles: Roles, q: nat): nat {
    var r := RoleOf(roles, q);
    if r.Level1? then r.parent
    else if r.Level0? && IsChild(RoleOf(roles, r.parent)) then RoleOf(roles, r.parent).parent
    else if r.Data? && IsChild(RoleOf(roles, r.parent)) && IsChild(RoleOf(roles, RoleOf(roles, r.parent).parent))
      then RoleOf(roles, RoleOf(roles, r.parent).parent).parent
    else q
  }

  /** Every page that is neither free nor held is in one table, and only one. */
  lemma TableOfIs(links: Links, roles: Roles, q: nat, t: nat)
    requires TreeInv(links, roles) && (IsDir(RoleOf(roles, q)) || RoleOf(roles, q).Data?)
    requires RoleOf(roles, t).Root?
    ensures RoleOf(roles, TableOf(roles, q)).Root?
    ensures InTable(roles, q, t) <==> t == TableOf(roles, q)
  {
    if IsChild(RoleOf(roles, q)) {
      assert Refers(links, roles, q);
      var p := RoleOf(roles, q).parent;
      if IsChild(RoleOf(roles, p)) {
        assert Refers(links, roles, p);
        var g := RoleOf(roles, p).parent;
        if IsChild(RoleOf(roles, g)) {
          assert Refers(links, roles, g);
        }
      }
    }
  }

  lemma {:induction false} LeavesOnce(links: Links, roles: Roles, d: nat, k: nat)
    requires TreeInv(links, roles) && RoleOf(roles, d).Level0?
    ensures Distinct(Leaves(links, d, k))
    ensures forall q: nat :: q in Leaves(links, d, k) <==> ChildBefore(roles, q, d, k)
  {
    if k > 0 {
      LeavesOnce(links, roles, d, k - 1);
      if (d, k - 1) in links {
        DistinctAppend(Leaves(links, d, k - 1), [links[(d, k - 1)]]);
      }
      forall q: nat ensures q in Leaves(links, d, k) <==> ChildBefore(roles, q, d, k) {
        if ChildBefore(roles, q, d, k) {
          assert Refers(links, roles, q);
        }
      }
    }
  }

  lemma {:induction false} Subtrees1Once(links: Links, roles: Roles, d: nat, k: nat)
    requires TreeInv(links, roles) && RoleOf(roles, d).Level1?
    ensures Distinct(Subtrees1(links, d, k))
    ensures forall q: nat :: q in Subtrees1(links, d, k) <==> Below1(roles, q, d, k)
  {
    if k > 0 {
      Subtrees1Once(links, roles, d, k - 1);
      if (d, k - 1) in links {
        Subtree1Once(links, roles, d, k - 1);
        DistinctAppend(Subtrees1(links, d, k - 1), Subtree1(links, d, k - 1));
      } else {
        NothingUnder1(links, roles, d, k - 1);
      }
    }
  }

  // The part that entry i adds.
  ghost predicate Under1(roles: Roles, q: nat, d: nat, i: nat) {
    Below1(roles, q, d, i + 1) && !Below1(roles, q, d, i)
  }

  lemma NothingUnder1(links: Links, roles: Roles, d: nat, i: nat)
    requires TreeInv(links, roles) && (d, i) !in links
    ensures forall q: nat :: !Under1(roles, q, d, i)
  {
    forall q: nat ensures !Under1(roles, q, d, i) {
      if IsChild(RoleOf(roles, q)) {
        assert Refers(links, roles, q);
        var p := RoleOf(roles, q).parent;
        if IsChild(RoleOf(roles, p)) {
          assert Refers(links, roles, p);
        }
      }
    }
  }

  lemma Subtree1Once(links: Links, roles: Roles, d: nat, i: nat)
    requires TreeInv(links, roles) && RoleOf(roles, d).Level1? && (d, i) in links
    ensures Distinct(Subtree1(links, d, i))
    ensures forall q: nat :: q in Subtree1(links, d, i) <==> Under1(roles, q, d, i)
  {
    var c := links[(d, i)];
    LeavesOnce(links, roles, c, NUM_PTE);
    DistinctAppend(Leaves(links, c, NUM_PTE), [c]);
    forall q: nat ensures q in Subtree1(links, d, i) <==> Under1(roles, q, d, i) {
      if IsChild(RoleOf(roles, q)) {
        assert Refers(links, roles, q);
        var p := RoleOf(roles, q).parent;
        if IsChild(RoleOf(roles, p)) {
          assert Refers(links, roles, p);
        }
      }
    }
  }

  lemma {:induction false} Subtrees2Once(links: Links, roles: Roles, d: nat, k: nat)
    requires TreeInv(links, roles) && RoleOf(roles, d).Root?
    ensures Distinct(Subtrees2(links, d, k))
    ensures forall q: nat :: q in Subtrees2(links, d, k) <==> Below2(roles, q, d, k)
  {
    if k > 0 {
      Subtrees2Once(links, roles, d, k - 1);
      if (d, k - 1) in links {
        Subtree2Once(links, roles, d, k - 1);
        DistinctAppend(Subtrees2(links, d, k - 1), Subtree2(links, d, k - 1));
      } else {
        NothingUnder2(links, roles, d, k - 1);
      }
    }
  }

  ghost predicate Under2(roles: Roles, q: nat, d: nat, i: nat) {
    Below2(roles, q, d, i + 1) && !Below2(roles, q, d, i)
  }

  lemma NothingUnder2(links: Links, roles: Roles, d: nat, i: nat)
    requires TreeInv(links, roles) && (d, i) !in links
    ensures forall q: nat :: !Under2(roles, q, d, i)
  {
    forall q: nat ensures !Under2(roles, q, d, i) {
      if IsChild(RoleOf(roles, q)) {
        assert Refers(links, roles, q);
        var p := RoleOf(roles, q).parent;
        if IsChild(RoleOf(roles, p)) {
          assert Refers(links, roles, p);
          var g := RoleOf(roles, p).parent;
          if IsChild(RoleOf(roles, g)) {
            assert Refers(links, roles, g);
          }
        }
      }
    }
  }

  lemma Subtree2Once(links: Links, roles: Roles, d: nat, i: nat)
    requires TreeInv(links, roles) && RoleOf(roles, d).Root? && (d, i) in links
    ensures Distinct(Subtree2(links, d, i))
    ensures forall q: nat :: q in Subtree2(links, d, i) <==> Under2(roles, q, d, i)
  {
    var c := links[(d, i)];
    Subtrees1Once(links, roles, c, NUM_PTE);
    DistinctAppend(Subtrees1(links, c, NUM_PTE), [c]);
    forall q: nat ensures q in Subtree2(links, d, i) <==> Under2(roles, q, d, i) {
      if IsChild(RoleOf(roles, q)) {
        assert Refers(links, roles, q);
        var p := RoleOf(roles, q).parent;
        if IsChild(RoleOf(roles, p)) {
          assert Refers(links, roles, p);
          var g := RoleOf(roles, p).parent;
          if IsChild(RoleOf(roles, g)) {
            assert Refers(links, roles, g);
          }
        }
      }
    }
  }

  /** The order lists every page of the table exactly once, and no other page. */
  lemma PostOrderOnce(links: Links, roles: Roles, root: nat)
    requires TreeInv(links, roles) && RoleOf(roles, root).Root?
    ensures Distinct(PostOrder(links, root))
    ensures forall q: nat :: q in PostOrder(links, root) <==> InTable(roles, q, root)
  {
    Subtrees2Once(links, roles, root, NUM_PTE);
    DistinctAppend(Subtrees2(links, root, NUM_PTE), [root]);
  }

  lemma {:induction false} LeavesPrefix(links: Links, d: nat, k: nat, n: nat)
    requires k <= n
    ensures Leaves(links, d, k) <= Leaves(links, d, n)
  {
    if k < n {
      LeavesPrefix(links, d, k, n - 1);
    }
  }

  lemma {:induction false} Subtrees1Prefix(links: Links, d: nat, k: nat, n: nat)
    requires k <= n
    ensures Subtrees1(links, d, k) <= Subtrees1(links, d, n)
  {
    if k < n {
      Subtrees1Prefix(links, d, k, n - 1);
    }
  }

  lemma {:induction false} Subtrees2Prefix(links: Links, d: nat, k: nat, n: nat)
    requires k <= n
    ensures Subtrees2(links, d, k) <= Subtrees2(links, d, n)
  {
    if k < n {
      Subtrees2Prefix(links, d, k, n - 1);
    }
  }

  // Following the order
  // -------------------

  /** A list of distinct pages, none of them on the stack `base`. */
  ghost predicate Plan(plan: seq<nat>, base: seq<nat>) {
    && Distinct(plan) && Distinct(base)
    && (forall x :: x in plan ==> InPool(x) && x !in base)
    && (forall x :: x in base ==> InPool(x))
  }

  /** The stack after the first n pages of the plan have been pushed. */
  ghost function Pushed(plan: seq<nat>, n: nat, base: seq<nat>): seq<nat>
    requires n <= |plan|
  {
    Reverse(plan[..n]) + base
  }

  /** What is still to come in the plan is not on the stack, and fits. */
  lemma NotPushed(plan: seq<nat>, n: nat, m: nat, base: seq<nat>)
    requires Plan(plan, base) && n <= m < |plan|
    ensures plan[m] !in Pushed(plan, n, base)
    ensures |Pushed(plan, n, base)| < NUM_PAGES
    ensures InPool(plan[m])
  {
    var done := plan[..n];
    forall x ensures x in Pushed(plan, n, base) <==> x in done || x in base {
      ReverseContains(done, x);
    }
    ReverseDistinct(done);
    forall x | x in Reverse(done) ensures x !in base {
      ReverseContains(done, x);
      assert x in plan;
    }
    DistinctAppend(Reverse(done), base);
    assert plan[m] in plan;
    RoomLeft(Pushed(plan, n, base), START_PAGE, NUM_PAGES, plan[m]);
  }

  lemma PushNext(plan: seq<nat>, n: nat, base: seq<nat>)
    requires n < |plan|
    ensures [plan[n]] + Pushed(plan, n, base) == Pushed(plan, n + 1, base)
  {
    assert plan[..n + 1] == plan[..n] + [plan[n]];
    ReversePush(plan[..n], plan[n], base);
  }

  /** Where a last-level directory's entries stand in the plan. */
  lemma LeafNext(links: Links, d: nat, k: nat, plan: seq<nat>, n: nat)
    requires n <= |plan| && Leaves(links, d, NUM_PTE) + [d] <= plan[n..] && k < NUM_PTE
    ensures var at := n + |Leaves(links, d, k)|;
      var m := n + |Leaves(links, d, NUM_PTE)|;
      && at <= m < |plan| && plan[m] == d
      && ((d, k) in links ==> at < m && plan[at] == links[(d, k)])
  {
    var all := Leaves(links, d, NUM_PTE);
    LeavesPrefix(links, d, k, NUM_PTE);
    LeavesPrefix(links, d, k + 1, NUM_PTE);
    assert plan[n + |all|] == plan[n..][|all|] == (all + [d])[|all|];
    if (d, k) in links {
      var j := |Leaves(links, d, k)|;
      assert plan[n + j] == plan[n..][j] == (all + [d])[j] == all[j] == Leaves(links, d, k + 1)[j];
    }
  }

  // A list inside a list inside the plan.
  lemma Nested(plan: seq<nat>, n: nat, all: seq<nat>, d: nat, before: seq<nat>, part: seq<nat>)
    requires n <= |plan| && all + [d] <= plan[n..] && before + part <= all
    ensures n + |before| + |part| <= n + |all| < |plan| && plan[n + |all|] == d
    ensures part <= plan[n + |before|..]
  {
    assert plan[n + |all|] == plan[n..][|all|] == (all + [d])[|all|];
    forall j | 0 <= j < |part| ensures plan[n + |before|..][j] == part[j] {
      var k := |before| + j;
      assert plan[n + k] == plan[n..][k] == (all + [d])[k] == all[k] == (before + part)[k];
    }
  }

  /** Where a middle-level directory's subtrees stand in the plan. */
  lemma Subtree1Next(links: Links, d: nat, k: nat, plan: seq<nat>, n: nat)
    requires n <= |plan| && Subtrees1(links, d, NUM_PTE) + [d] <= plan[n..] && k < NUM_PTE
    ensures var at := n + |Subtrees1(links, d, k)|;
      var m := n + |Subtrees1(links, d, NUM_PTE)|;
      && at <= m < |plan| && plan[m] == d
      && ((d, k) in links ==> at + |Subtree1(links, d, k)| <= m && Subtree1(links, d, k) <= plan[at..])
  {
    Subtrees1Prefix(links, d, k, NUM_PTE);
    Subtrees1Prefix(links, d, k + 1, NUM_PTE);
    var all := Subtrees1(links, d, NUM_PTE);
    Nested(plan, n, all, d, Subtrees1(links, d, k), []);
    if (d, k) in links {
      Nested(plan, n, all, d, Subtrees1(links, d, k), Subtree1(links, d, k));
    }
  }

  /** Where a root's subtrees stand in the plan. */
  lemma Subtree2Next(links: Links, d: nat, k: nat, plan: seq<nat>, n: nat)
    requires n <= |plan| && Subtrees2(links, d, NUM_PTE) + [d] <= plan[n..] && k < NUM_PTE
    ensures var at := n + |Subtrees2(links, d, k)|;
      var m := n + |Subtrees2(links, d, NUM_PTE)|;
      && at <= m < |plan| && plan[m] == d
      && ((d, k) in links ==> at + |Subtree2(links, d, k)| <= m && Subtree2(links, d, k) <= plan[at..])
  {
    Subtrees2Prefix(links, d, k, NUM_PTE);
    Subtrees2Prefix(links, d, k + 1, NUM_PTE);
    var all := Subtrees2(links, d, NUM_PTE);
    Nested(plan, n, all, d, Subtrees2(links, d, k), []);
    if (d, k) in links {
      Nested(plan, n, all, d, Subtrees2(links, d, k), Subtree2(links, d, k));
    }
  }

  /** A block inside a list: its last element comes after the others. */
  lemma InBlock(plan: seq<nat>, at: nat, block: seq<nat>, d: nat, q: nat) returns (i: nat, j: nat)
    requires at <= |plan| && block + [d] <= plan[at..] && q in block
    ensures i < j < |plan| && plan[i] == q && plan[j] == d
  {
    var k :| 0 <= k < |block| && block[k] == q;
    i, j := at + k, at + |block|;
    assert plan[i] == plan[at..][k] == (block + [d])[k];
    assert plan[j] == plan[at..][|block|] == (block + [d])[|block|];
  }

  /** Where the part of directory d stands in the order. */
  lemma DirectoryBlock(links: Links, roles: Roles, root: nat, d: nat) returns (at: nat)
    requires TreeInv(links, roles) && RoleOf(roles, root).Root? && InTable(roles, d, root)
    ensures var plan := PostOrder(links, root);
      && at <= |plan|
      && (RoleOf(roles, d).Root? ==> d == root && Subtrees2(links, d, NUM_PTE) + [d] <= plan[at..])
      && (RoleOf(roles, d).Level1? ==> Subtrees1(links, d, NUM_PTE) + [d] <= plan[at..])
      && (RoleOf(roles, d).Level0? ==> Leaves(links, d, NUM_PTE) + [d] <= plan[at..])
  {
    var plan := PostOrder(links, root);
    assert plan[0..] == plan;
    at := 0;
    if RoleOf(roles, d).Level1? || RoleOf(roles, d).Level0? {
      assert Refers(links, roles, d);
      var d1 := if RoleOf(roles, d).Level1? then d else RoleOf(roles, d).parent;
      assert Refers(links, roles, d1);
      var k := RoleOf(roles, d1).idx;
      Subtree2Next(links, root, k, plan, 0);
      at := |Subtrees2(links, root, k)|;
      if RoleOf(roles, d).Level0? {
        var n := RoleOf(roles, d).idx;
        Subtree1Next(links, d1, n, plan, at);
        at := at + |Subtrees1(links, d1, n)|;
      }
    }
  }

  /** Every page of the table other than the root comes before its parent. */
  lemma ChildrenFirst(links: Links, roles: Roles, root: nat, q: nat) returns (i: nat, j: nat)
    requires TreeInv(links, roles) && RoleOf(roles, root).Root? && InTable(roles, q, root) && q != root
    ensures i < j < |PostOrder(links, root)|
    ensures PostOrder(links, root)[i] == q && PostOrder(links, root)[j] == RoleOf(roles, q).parent
  {
    var p := RoleOf(roles, q).parent;
    assert Refers(links, roles, q);
    if IsChild(RoleOf(roles, p)) {
      assert Refers(links, roles, p);
    }
    var at := DirectoryBlock(links, roles, root, p);
    var block := if RoleOf(roles, p).Root? then Subtrees2(links, p, NUM_PTE)
                 else if RoleOf(roles, p).Level1? then Subtrees1(links, p, NUM_PTE) else Leaves(links, p, NUM_PTE);
    if RoleOf(roles, p).Root? {
      Subtrees2Once(links, roles, p, NUM_PTE);
    } else if RoleOf(roles, p).Level1? {
      Subtrees1Once(links, roles, p, NUM_PTE);
    } else {
      LeavesOnce(links, roles, p, NUM_PTE);
    }
    i, j := InBlock(PostOrder(links, root), at, block, p, q);
  }

  ghost predicate ChildOf(roles: Roles, q: nat, d: nat, i: nat) {
    IsChild(RoleOf(roles, q)) && RoleOf(roles, q).parent == d && RoleOf(roles, q).idx == i
  }

  /** q is the page that entry i of directory d refers to, or hangs below it. */
  ghost predicate UnderEntry(roles: Roles, q: nat, d: nat, i: nat) {
    || ChildOf(roles, q, d, i)
    || (IsChild(RoleOf(roles, q)) &&
          var p := RoleOf(roles, q).parent;
          || ChildOf(roles, p, d, i)
          || (IsChild(RoleOf(roles, p)) && ChildOf(roles, RoleOf(roles, p).parent, d, i)))
  }

  lemma EntryIsBelow(links: Links, roles: Roles, d: nat, i: nat, q: nat, k: nat)
    requires TreeInv(links, roles) && UnderEntry(roles, q, d, i)
    ensures i < NUM_PTE && IsDir(RoleOf(roles, d))
    ensures RoleOf(roles, d).Root? ==> (Below2(roles, q, d, k) <==> i < k)
    ensures RoleOf(roles, d).Level1? ==> (Below1(roles, q, d, k) <==> i < k)
    ensures RoleOf(roles, d).Level0? ==> (ChildBefore(roles, q, d, k) <==> i < k)
  {
    assert Refers(links, roles, q);
    var p := RoleOf(roles, q).parent;
    if IsChild(RoleOf(roles, p)) {
      assert Refers(links, roles, p);
      if IsChild(RoleOf(roles, RoleOf(roles, p).parent)) {
        assert Refers(links, roles, RoleOf(roles, p).parent);
      }
    }
  }

  lemma BeforeIn(plan: seq<nat>, at: nat, all: seq<nat>, d: nat, pre: seq<nat>, x: nat, y: nat)
    returns (i: nat, j: nat)
    requires at <= |plan| && all + [d] <= plan[at..] && pre <= all
    requires x in pre && y in all && y !in pre
    ensures i < j < |plan| && plan[i] == x && plan[j] == y
  {
    var k :| 0 <= k < |pre| && pre[k] == x;
    var l :| 0 <= l < |all| && all[l] == y;
    assert all[k] == pre[k] && l >= |pre|;
    i, j := at + k, at + l;
    assert plan[i] == plan[at..][k] == (all + [d])[k] && plan[j] == plan[at..][l] == (all + [d])[l];
  }

  /** Entries are followed in ascending order: everything below one comes
      before everything below a later one of the same directory. */
  lemma EntriesAscend(links: Links, roles: Roles, root: nat, d: nat, a: nat, b: nat, x: nat, y: nat)
    returns (i: nat, j: nat)
    requires TreeInv(links, roles) && RoleOf(roles, root).Root? && InTable(roles, d, root)
    requires a < b && UnderEntry(roles, x, d, a) && UnderEntry(roles, y, d, b)
    ensures i < j < |PostOrder(links, root)|
    ensures PostOrder(links, root)[i] == x && PostOrder(links, root)[j] == y
  {
    hide UnderEntry, Below1, Below2, ChildBefore;
    var plan := PostOrder(links, root);
    assert plan[0..] == plan;
    EntryIsBelow(links, roles, d, a, x, b);
    EntryIsBelow(links, roles, d, b, y, b);
    EntryIsBelow(links, roles, d, b, y, NUM_PTE);
    var at := DirectoryBlock(links, roles, root, d);
    if RoleOf(roles, d).Root? {
      Subtrees2Once(links, roles, d, b);
      Subtrees2Once(links, roles, d, NUM_PTE);
      Subtrees2Prefix(links, d, b, NUM_PTE);
      i, j := BeforeIn(plan, at, Subtrees2(links, d, NUM_PTE), d, Subtrees2(links, d, b), x, y);
    } else if RoleOf(roles, d).Level1? {
      Subtrees1Once(links, roles, d, b);
      Subtrees1Once(links, roles, d, NUM_PTE);
      Subtrees1Prefix(links, d, b, NUM_PTE);
      i, j := BeforeIn(plan, at, Subtrees1(links, d, NUM_PTE), d, Subtrees1(links, d, b), x, y);
    } else {
      LeavesOnce(links, roles, d, b);
      LeavesOnce(links, roles, d, NUM_PTE);
      LeavesPrefix(links, d, b, NUM_PTE);
      i, j := BeforeIn(plan, at, Leaves(links, d, NUM_PTE), d, Leaves(links, d, b), x, y);
    }
  }
}
