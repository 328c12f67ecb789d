/** The stack of free physical pages (kernel/memoryAllocator.c). */
module PageAllocator {
  import opened Halting
  import opened PhysMem
  import opened Seqs

  lemma Regroup(x: nat, a: seq<nat>, b: seq<nat>)
    ensures [x] + a + b == [x] + (a + b)
  {
  }

  lemma FreedNext(s: seq<nat>, i: nat, rest: seq<nat>)
    requires |s| == i + 1
    ensures Reverse(s) + rest == [s[i]] + (Reverse(s[..i]) + rest)
  {
    hide Reverse;
    ReverseLast(s, i);
    Regroup(s[i], Reverse(s[..i]), rest);
  }

  class PagePool {
    const pages: array<nat>
    var currFreePageNode: nat
    var numFreePages: nat

    ghost predicate Valid()
      reads this
    {
      pages.Length == NUM_PAGES && currFreePageNode + numFreePages == NUM_PAGES
    }

    /** The free pages, next to be handed out first. */
    ghost function Stack(): (s: seq<nat>)
      reads this, pages
      requires Valid()
      ensures |s| == numFreePages
    {
      pages[currFreePageNode..]
    }

    /** pageAllocInit: every page of the pool is free. */
    constructor ()
      ensures Valid() && fresh(this) && fresh(pages)
      ensures Stack() == seq(NUM_PAGES, i => START_PAGE + i)
    {
      pages := new nat[NUM_PAGES];
      currFreePageNode := 0;
      numFreePages := NUM_PAGES;
      new;
      for i := 0 to NUM_PAGES
        invariant Valid() && currFreePageNode == 0
        invariant forall k :: 0 <= k < i ==> pages[k] == START_PAGE + k
      {
        pages[i] := START_PAGE + i;
      }
    }

    method AllocatePage() returns (r: Result<nat>)
      requires Valid()
      modifies this
      ensures Valid()
      ensures old(numFreePages) == 0 ==> r == Halt(NoFreePage) && Stack() == old(Stack())
      ensures old(numFreePages) > 0 ==> r.Ok? && old(Stack()) == [r.value] + Stack()
    {
      if numFreePages == 0 {
        return Halt(NoFreePage);
      }
      var pageNum := pages[currFreePageNode];
      currFreePageNode := currFreePageNode + 1;
      numFreePages := numFreePages - 1;
      return Ok(pageNum);
    }

    method AllocatePages(n: nat, allocatedPages: array<nat>) returns (r: Result<()>)
      requires Valid() && allocatedPages != pages && allocatedPages.Length >= n
      modifies this, allocatedPages
      ensures Valid()
      ensures n == 0 ==> r == Halt(InvalidCount)
      ensures n > old(numFreePages) ==> r == Halt(TooFewPages)
      ensures r.Ok? <==> 0 < n <= old(numFreePages)
      ensures r.Ok? ==> old(Stack()) == allocatedPages[..n] + Stack()
      ensures r.Halt? ==> Stack() == old(Stack())
    {
      if n <= 0 {
        return Halt(InvalidCount);
      }
      if n > numFreePages {
        return Halt(TooFewPages);
      }
      for i := 0 to n
        invariant Valid() && numFreePages == old(numFreePages) - i
        invariant old(Stack()) == allocatedPages[..i] + Stack()
      {
        ghost var before := Stack();
        var page := AllocatePage();
        assert before == [page.value] + Stack();
        allocatedPages[i] := page.value;
        assert allocatedPages[..i + 1] == allocatedPages[..i] + [page.value];
      }
      return Ok(());
    }

    /** Pushes a page. Nothing checks that it was ever handed out. */
    method FreePage(pageNum: nat) returns (r: Result<()>)
      requires Valid()
      modifies this, pages
      ensures Valid()
      ensures old(numFreePages) == NUM_PAGES ==> r == Halt(AllPagesReturned) && Stack() == old(Stack())
      ensures old(numFreePages) < NUM_PAGES ==> r == Ok(()) && Stack() == [pageNum] + old(Stack())
    {
      if numFreePages == NUM_PAGES {
        return Halt(AllPagesReturned);
      }
      currFreePageNode := currFreePageNode - 1;
      pages[currFreePageNode] := pageNum;
      numFreePages := numFreePages + 1;
      assert Stack()[1..] == old(Stack());
      return Ok(());
    }

    /** Pushes the first n listed pages in turn, so the last one ends on top. */
    method FreePages(n: nat, pagesToFree: array<nat>) returns (r: Result<()>)
      requires Valid() && pagesToFree != pages && pagesToFree.Length >= n
      modifies this, pages
      ensures Valid()
      ensures n == 0 ==> r == Halt(InvalidCount)
      ensures n > 0 && n + old(numFreePages) > NUM_PAGES ==>
                r == Halt(AllPagesReturned)
                && Stack() == Reverse(pagesToFree[..NUM_PAGES - old(numFreePages)]) + old(Stack())
      ensures 0 < n <= NUM_PAGES - old(numFreePages) ==>
                r == Ok(()) && Stack() == Reverse(pagesToFree[..n]) + old(Stack())
    {
      hide Reverse;
      if n <= 0 {
        return Halt(InvalidCount);
      }
      ReverseNone<nat>();
      for i := 0 to n
        invariant Valid() && numFreePages == old(numFreePages) + i
        invariant Stack() == Reverse(pagesToFree[..i]) + old(Stack())
      {
        FreedNext(pagesToFree[..i + 1], i, old(Stack()));
        assert pagesToFree[..i + 1][..i] == pagesToFree[..i];
        var _ :- FreePage(pagesToFree[i]);
      }
      return Ok(());
    }
  }
}
