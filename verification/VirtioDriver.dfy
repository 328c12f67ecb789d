/** The disk driver's queue operations (kernel/disk.c:59-180). */
module VirtioDriver {
  import opened Halting
  import CacheSpec
  import Q = VirtioQueue

  class Disk {
    const desc: array<Q.Desc>
    const free: array<bool>
    const info: array<Q.Info>
    const ring: array<nat>
    const elems: array<nat>
    var availIdx: nat
    var usedId: nat
    var usedIdx: nat
    /** Buffers whose `disk` field is set. */
    var owned: set<nat>

    ghost predicate Shape() {
      && desc.Length == Q.NUM && free.Length == Q.NUM && info.Length == Q.NUM
      && ring.Length == Q.NUM && elems.Length == Q.NUM && ring != elems
      && (desc as object) !in {free as object, info, ring, elems}
      && (free as object) !in {info as object, ring, elems}
      && (info as object) !in {ring as object, elems}
    }

    ghost function Now(): Q.Queue
      reads this, desc, free, info, ring, elems
    {
      Q.Queue(desc[..], free[..], info[..], availIdx, ring[..], usedId, elems[..], usedIdx, owned)
    }

    ghost predicate Valid()
      reads this, desc, free, info, ring, elems
    {
      Shape() && Now().Valid()
    }

    /** The queue as diskInit sets it up. */
    constructor ()
      ensures Valid() && Now() == Q.Initial()
      ensures fresh(desc) && fresh(free) && fresh(info) && fresh(ring) && fresh(elems)
    {
      desc := new Q.Desc[Q.NUM](_ => Q.Desc(Q.Null, 0, 0, 0));
      free := new bool[Q.NUM](_ => true);
      info := new Q.Info[Q.NUM](_ => Q.Info(None, 0));
      ring := new nat[Q.NUM](_ => 0);
      elems := new nat[Q.NUM](_ => 0);
      availIdx, usedId, usedIdx, owned := 0, 0, 0, {};
    }

    /** alloc_desc: the lowest free descriptor, or -1. */
    method AllocDesc() returns (d: int)
      requires Valid()
      modifies free
      ensures Valid()
      ensures Q.FreeList(old(free[..])) == [] ==> d == -1 && free[..] == old(free[..])
      ensures Q.FreeList(old(free[..])) != [] ==>
        && d == Q.FreeList(old(free[..]))[0]
        && free[..] == old(free[..])[d := false]
        && Q.FreeList(free[..]) == Q.FreeList(old(free[..]))[1..]
    {
      for i: nat := 0 to Q.NUM
        invariant forall k :: 0 <= k < i ==> !free[k]
        invariant free[..] == old(free[..])
      {
        if free[i] {
          Q.TakeLowest(free[..], i);
          free[i] := false;
          assert free[..] == old(free[..])[i := false];
          return i;
        }
      }
      Q.NoneFreeBefore(free[..], 0, Q.NUM);
      return -1;
    }

    /** free_desc. */
    method FreeDesc(i: nat) returns (r: Result<()>)
      requires Valid()
      modifies desc, free
      ensures Valid()
      ensures var f := Q.FreeDesc(old(Now()), i);
        if f.Ok? then r == Ok(()) && Now() == f.value else r == Halt(f.fault) && Now() == old(Now())
    {
      if i >= Q.NUM {
        return Halt(DescriptorOutOfRange);
      }
      if free[i] {
        return Halt(DescriptorAlreadyFree);
      }
      desc[i] := desc[i].(addr := Q.Null);
      free[i] := true;
      assert desc[..] == old(desc[..])[i := old(desc[i]).(addr := Q.Null)];
      assert free[..] == old(free[..])[i := true];
      return Ok(());
    }

    /** free_chain. */
    method FreeChain(head: nat) returns (r: Result<()>)
      requires Valid()
      modifies desc, free
      ensures Valid()
      ensures var f := Q.FreeChain(old(Now()), head);
        if f.Ok? then r == Ok(()) && Now() == f.value else r == Halt(f.fault)
    {
      var i: nat := head;
      while true
        invariant Valid() && Q.FreeChain(Now(), i) == Q.FreeChain(old(Now()), head)
        decreases Q.InUse(free[..])
      {
        assert free[..] == Now().free;
        if i < Q.NUM && !Now().free[i] {
          Q.InUseDrops(Now().free, i);
        }
        var _ :- FreeDesc(i);
        if desc[i].HasNext() {
          i := desc[i].next;
        } else {
          break;
        }
      }
      return Ok(());
    }

    /** Gives back what alloc3_desc has taken so far (kernel/disk.c:96-98). */
    method GiveBack(idx: array<int>, n: nat, ghost q0: Q.Queue)
      requires Valid() && idx.Length == 3 && (idx as object) !in {desc as object, free, info, ring, elems}
      requires q0.Valid() && n == |Q.FreeList(q0.free)| <= 3
      requires forall k :: 0 <= k < n ==> idx[k] == Q.FreeList(q0.free)[k]
      requires Now() == Q.OnlyFirst(q0, 0)
      modifies desc, free
      ensures Valid() && Now() == q0
    {
      for j: nat := 0 to n
        invariant Valid() && Now() == Q.OnlyFirst(q0, j)
        invariant forall k :: 0 <= k < n ==> idx[k] == Q.FreeList(q0.free)[k]
      {
        Q.OneBack(q0, j);
        var freed := FreeDesc(idx[j]);
      }
      Q.AllBack(q0, n);
    }

    /** The i lowest free descriptors of q0 are taken and noted, nothing else has changed. */
    ghost predicate Took(q0: Q.Queue, idx: array<int>, i: nat)
      reads this, desc, free, info, ring, elems, idx
    {
      && Valid() && q0.Valid() && idx.Length == 3 && (idx as object) !in {desc as object, free, info, ring, elems}
      && i <= |Q.FreeList(q0.free)| && i <= 3
      && Now() == q0.(free := Q.TakeFirst(q0.free, i))
      && Q.FreeList(Q.TakeFirst(q0.free, i)) == Q.FreeList(q0.free)[i..]
      && forall k :: 0 <= k < i ==> idx[k] == Q.FreeList(q0.free)[k]
    }

    /** One round of the loop: alloc_desc, and giving everything back if it finds none. */
    method AllocNext(idx: array<int>, i: nat, ghost q0: Q.Queue) returns (ok: bool)
      requires Took(q0, idx, i) && i < 3
      modifies desc, free, idx
      ensures ok <==> i < |Q.FreeList(q0.free)|
      ensures ok ==> Took(q0, idx, i + 1)
      ensures !ok ==> Valid() && Now() == q0
    {
      assert free[..] == Now().free;
      idx[i] := AllocDesc();
      ok := idx[i] >= 0;
      if !ok {
        Q.NoneLeft(q0, i);
        GiveBack(idx, i, q0);
      }
    }

    /** alloc3_desc: the three lowest free descriptors, or none at all. */
    method Alloc3Desc(idx: array<int>) returns (r: int)
      requires Valid() && idx.Length == 3 && (idx as object) !in {desc as object, free, info, ring, elems}
      modifies desc, free, idx
      ensures Valid()
      ensures var l := Q.FreeList(old(free[..]));
        if |l| >= 3 then
          && r == 0 && idx[0] == l[0] && idx[1] == l[1] && idx[2] == l[2]
          && Now() == old(Now()).(free := Q.TakeFirst(old(free[..]), 3))
        else r == -1 && Now() == old(Now())
    {
      hide Q.FreeList;
      ghost var q0 := Now();
      for i: nat := 0 to 3
        invariant Took(q0, idx, i)
      {
        var ok := AllocNext(idx, i, q0);
        if !ok {
          return -1;
        }
      }
      return 0;
    }

    /** The three descriptors, and the status for the device to overwrite
        (kernel/disk.c:125-150). */
    method BuildChain(b: nat, blockno: nat, write: bool, d0: nat, d1: nat, d2: nat)
      requires Shape() && d0 < d1 < d2 < Q.NUM
      requires blockno < CacheSpec.DISKSIZE
      modifies desc, info
      ensures desc[..] == old(desc[..])[d0 := Q.HeadDesc(blockno, write, d1)]
                                       [d1 := Q.DataDesc(b, write, d2)][d2 := Q.StatusDesc(d0)]
      ensures info[..] == old(info[..])[d0 := old(info[d0]).(status := 0)]
    {
      SmallSector(blockno);
      var sector := blockno * (CacheSpec.BSIZE / 512) % Q.UINT_LIMIT;
      var kind := if write then Q.T_OUT else Q.T_IN;
      desc[d0] := Q.Desc(Q.Header(kind, sector), 16, Q.F_NEXT, d1);
      desc[d1] := Q.Desc(Q.BufferData(b), CacheSpec.BSIZE, if write then 0 else Q.F_WRITE, desc[d1].next);
      desc[d1] := desc[d1].(flags := desc[d1].flags + Q.F_NEXT, next := d2);
      info[d0] := info[d0].(status := 0);
      desc[d2] := Q.Desc(Q.StatusByte(d0), 1, Q.F_WRITE, 0);
    }

    static lemma SmallSector(blockno: nat)
      requires blockno < CacheSpec.DISKSIZE
      ensures blockno * (CacheSpec.BSIZE / 512) % Q.UINT_LIMIT == blockno * (CacheSpec.BSIZE / 512)
    {
    }

    /** The buffer to wait for, and the chain in the available ring
        (kernel/disk.c:152-156). */
    method Publish(b: nat, d0: nat)
      requires Shape() && d0 < Q.NUM
      modifies this`owned, this`availIdx, info, ring
      ensures owned == old(owned) + {b} && availIdx == (old(availIdx) + 1) % Q.IDX_LIMIT
      ensures info[..] == old(info[..])[d0 := old(info[d0]).(b := Some(b))]
      ensures ring[..] == old(ring[..])[old(availIdx) % Q.NUM := d0]
    {
      owned := owned + {b};
      info[d0] := info[d0].(b := Some(b));
      ring[availIdx % Q.NUM] := d0;
      availIdx := (availIdx + 1) % Q.IDX_LIMIT;
    }

    /** diskRW up to the notification, once it has its descriptors. */
    method Fill(b: nat, blockno: nat, write: bool, d0: nat, d1: nat, d2: nat)
      requires Valid() && d0 < d1 < d2 < Q.NUM && !free[d0] && !free[d1] && !free[d2]
      requires blockno < CacheSpec.DISKSIZE
      modifies this, desc, info, ring
      ensures Valid() && Now() == Q.Submit(old(Now()), b, blockno, write, d0, d1, d2)
    {
      hide Q.HeadDesc, Q.DataDesc, Q.StatusDesc;
      ghost var q := Now();
      BuildChain(b, blockno, write, d0, d1, d2);
      Publish(b, d0);
      assert free[..] == q.free[d0 := false][d1 := false][d2 := false];
      assert info[..] == q.info[d0 := Q.Info(Some(b), 0)];
      assert Now() == Q.Submit(q, b, blockno, write, d0, d1, d2);
    }

    /** diskRW up to the notification. A try for descriptors that fails leaves
        everything as it was, so the loop that repeats it waits for others. */
    method Request(b: nat, blockno: nat, write: bool) returns (ok: bool, d0: nat)
      requires Valid() && blockno < CacheSpec.DISKSIZE
      modifies this, desc, free, info, ring
      ensures Valid()
      ensures var l := Q.FreeList(old(free[..]));
        if |l| >= 3 then ok && d0 == l[0] && Now() == Q.Submit(old(Now()), b, blockno, write, l[0], l[1], l[2])
        else !ok && Now() == old(Now())
      ensures var l := Q.FreeList(old(free[..]));
        |l| >= 3 ==> Q.Asked(old(Now()), Now(), b, blockno, write, l[0], l[1], l[2])
    {
      hide Q.FreeList, Q.Submit, Q.TakeFirst, Q.Asked;
      var idx := new int[3];
      var r := Alloc3Desc(idx);
      if r != 0 {
        return false, 0;
      }
      Q.FreeAscends(old(free[..]));
      Q.TakeThree(old(free[..]));
      Q.SubmitTaken(old(Now()), b, blockno, write, idx[0], idx[1], idx[2]);
      Q.SubmitAsks(old(Now()), b, blockno, write, idx[0], idx[1], idx[2]);
      assert free[..] == Now().free;
      Fill(b, blockno, write, idx[0], idx[1], idx[2]);
      return true, idx[0];
    }

    /** diskRW from the end of the wait on. */
    method Finish(d0: nat) returns (r: Result<()>)
      requires Valid() && d0 < Q.NUM
      modifies desc, free, info
      ensures Valid()
      ensures var f := Q.Finish(old(Now()), d0);
        if f.Ok? then r == Ok(()) && Now() == f.value else r == Halt(f.fault)
    {
      info[d0] := info[d0].(b := None);
      assert info[..] == old(info[..])[d0 := old(info[d0]).(b := None)];
      r := FreeChain(d0);
    }

    /** diskIntr. */
    method DiskIntr() returns (r: Result<()>)
      requires Valid()
      modifies this`owned, this`usedIdx
      ensures Valid()
      ensures var f := Q.DiskIntr(old(Now()));
        if f.Ok? then r == Ok(()) && Now() == f.value else r == Halt(f.fault)
    {
      while usedIdx % Q.NUM != usedId % Q.NUM
        invariant Valid() && Q.DiskIntr(Now()) == Q.DiskIntr(old(Now()))
        decreases Q.Pending(Now())
      {
        ghost var q := Now();
        if Q.HandleOne(q).Ok? {
          Q.PendingDrops(q);
        }
        var id := elems[usedIdx];
        if id >= Q.NUM {
          return Halt(Undefined);
        }
        if info[id].status != 0 {
          return Halt(DiskStatus);
        }
        if info[id].b == None {
          return Halt(Undefined);
        }
        owned := owned - {info[id].b.value};
        usedIdx := (usedIdx + 1) % Q.NUM;
        assert Now() == Q.HandleOne(q).value;
      }
      return Ok(());
    }
  }
}
