/**
 The memory that the disk driver and the device share (kernel/disk.c): a legacy
 virtqueue with descriptor table, available ring and used ring (section 2.6 of
 VIRTIO 1.1), and the driver's own bookkeeping.
 */
module VirtioQueue {
  import opened Halting
  import CacheSpec

  const NUM: nat := 8
  const UINT_LIMIT: nat := 0x1_0000_0000
  const IDX_LIMIT: nat := 0x1_0000

  const F_NEXT: nat := 1
  const F_WRITE: nat := 2

  const T_IN: nat := 0
  const T_OUT: nat := 1

  /** What a descriptor's address points to. Buffers go by number. */
  datatype Address =
    | Null
    | Header(kind: nat, sector: nat)
    | BufferData(b: nat)
    | StatusByte(i: nat)

  datatype Desc = Desc(addr: Address, len: nat, flags: nat, next: nat) {
    /** The test `flags & VRING_DESC_F_NEXT`. */
    predicate HasNext() {
      flags % 2 == 1
    }

    /** The test `flags & VRING_DESC_F_WRITE`. */
    predicate DeviceWrites() {
      flags / 2 % 2 == 1
    }
  }

  datatype Info = Info(b: Option<nat>, status: nat)

  datatype Queue = Queue(
    desc: seq<Desc>,
    free: seq<bool>,
    info: seq<Info>,
    availIdx: nat,
    ring: seq<nat>,
    usedId: nat,
    elems: seq<nat>,
    usedIdx: nat,
    /** Buffers whose `disk` field is set. */
    owned: set<nat>
  ) {
    /** Sizes and index ranges, and no address left in a free descriptor. */
    ghost predicate Valid() {
      && |desc| == NUM && |free| == NUM && |info| == NUM && |ring| == NUM && |elems| == NUM
      && availIdx < IDX_LIMIT && usedId < IDX_LIMIT && usedIdx < NUM
      && forall i :: 0 <= i < NUM && free[i] ==> desc[i].addr == Null
    }
  }

  // Descriptors
  // -----------

  /** The free descriptors from i on, lowest first. */
  ghost function FreeFrom(free: seq<bool>, i: nat): (r: seq<nat>)
    requires i <= |free|
    ensures forall k :: 0 <= k < |r| ==> i <= r[k] < |free| && free[r[k]]
    ensures forall j, k :: 0 <= j < k < |r| ==> r[j] < r[k]
    ensures forall p :: i <= p < |free| && free[p] ==> p in r
    decreases |free| - i
  {
    if i == |free| then []
    else if free[i] then [i] + FreeFrom(free, i + 1)
    else FreeFrom(free, i + 1)
  }

  ghost function FreeList(free: seq<bool>): seq<nat> {
    FreeFrom(free, 0)
  }

  lemma FreeFromHere(free: seq<bool>, i: nat)
    requires i <= |free|
    ensures FreeFrom(free, i) == if i == |free| then []
                                 else if free[i] then [i] + FreeFrom(free, i + 1) else FreeFrom(free, i + 1)
  {
  }

  lemma FreeAscends(free: seq<bool>)
    ensures forall j :: 0 <= j < |FreeList(free)| ==> FreeList(free)[j] < |free|
    ensures forall j, k :: 0 <= j < k < |FreeList(free)| ==> FreeList(free)[j] < FreeList(free)[k]
  {
  }

  lemma {:induction false} NoneFreeBefore(free: seq<bool>, i: nat, j: nat)
    requires i <= j <= |free| && forall k :: i <= k < j ==> !free[k]
    ensures FreeFrom(free, i) == FreeFrom(free, j)
    decreases j - i
  {
    if i < j {
      NoneFreeBefore(free, i + 1, j);
    }
  }

  lemma {:induction false} FreeElsewhere(free: seq<bool>, p: nat, x: bool, i: nat)
    requires p < i <= |free|
    ensures FreeFrom(free[p := x], i) == FreeFrom(free, i)
    decreases |free| - i
  {
    if i < |free| {
      FreeElsewhere(free, p, x, i + 1);
    }
  }

  /** Taking the lowest free descriptor leaves the others. */
  lemma TakeLowest(free: seq<bool>, p: nat)
    requires p < |free| && free[p] && forall k :: 0 <= k < p ==> !free[k]
    ensures FreeList(free) == [p] + FreeList(free[p := false])
  {
    NoneFreeBefore(free, 0, p);
    NoneFreeBefore(free[p := false], 0, p + 1);
    FreeElsewhere(free, p, false, p + 1);
  }

  /** With the n lowest free descriptors taken. */
  ghost function TakeFirst(free: seq<bool>, n: nat): (r: seq<bool>)
    ensures |r| == |free|
    ensures forall p :: 0 <= p < |r| && r[p] ==> free[p]
  {
    if n == 0 || n > |FreeList(free)| then free else TakeFirst(free, n - 1)[FreeList(free)[n - 1] := false]
  }

  lemma TakeThree(free: seq<bool>)
    requires |FreeList(free)| >= 3
    ensures var l := FreeList(free);
      TakeFirst(free, 3) == free[l[0] := false][l[1] := false][l[2] := false]
  {
    assert TakeFirst(free, 1) == free[FreeList(free)[0] := false];
    assert TakeFirst(free, 2) == TakeFirst(free, 1)[FreeList(free)[1] := false];
  }

  /** free_desc. */
  ghost function FreeDesc(q: Queue, i: nat): (r: Result<Queue>)
    requires q.Valid()
    ensures r.Ok? ==> r.value.Valid()
  {
    if i >= NUM then Halt(DescriptorOutOfRange)
    else if q.free[i] then Halt(DescriptorAlreadyFree)
    else Ok(q.(desc := q.desc[i := q.desc[i].(addr := Null)], free := q.free[i := true]))
  }

  /** Descriptors in use. */
  ghost function InUse(free: seq<bool>): nat {
    FreeBound(free, 0);
    |free| - |FreeList(free)|
  }

  /** Freeing a descriptor makes one more free one. */
  lemma {:induction false} FreeOne(free: seq<bool>, p: nat, i: nat)
    requires i <= p < |free| && !free[p]
    ensures |FreeFrom(free[p := true], i)| == |FreeFrom(free, i)| + 1
    decreases p - i
  {
    if i == p {
      FreeElsewhere(free, p, true, p + 1);
    } else {
      FreeOne(free, p, i + 1);
    }
  }

  lemma {:induction false} FreeBound(free: seq<bool>, i: nat)
    requires i <= |free|
    ensures |FreeFrom(free, i)| <= |free| - i
    decreases |free| - i
  {
    if i < |free| {
      FreeBound(free, i + 1);
    }
  }

  lemma InUseDrops(free: seq<bool>, p: nat)
    requires p < |free| && !free[p]
    ensures 0 <= InUse(free[p := true]) == InUse(free) - 1
  {
    FreeOne(free, p, 0);
    FreeBound(free[p := true], 0);
  }

  /** free_chain, on whatever links the descriptors hold: each round frees one
      more descriptor, so it comes to an end. */
  ghost function FreeChain(q: Queue, i: nat): (r: Result<Queue>)
    requires q.Valid()
    ensures r.Ok? ==> r.value.Valid()
    decreases InUse(q.free)
  {
    var one := FreeDesc(q, i);
    if one.Halt? then one
    else if q.desc[i].HasNext() then
      InUseDrops(q.free, i);
      FreeChain(one.value, q.desc[i].next)
    else one
  }

  /** The descriptors that free_chain frees, in order. */
  ghost function Freed(q: Queue, i: nat): (r: seq<nat>)
    requires q.Valid()
    decreases InUse(q.free)
  {
    var one := FreeDesc(q, i);
    if one.Halt? then []
    else if q.desc[i].HasNext() then
      InUseDrops(q.free, i);
      [i] + Freed(one.value, q.desc[i].next)
    else [i]
  }

  /** On any link graph, free_chain is through after at most NUM descriptors:
      those it frees were in use, and no more are free than it freed. */
  lemma {:induction false} FreeChainEnds(q: Queue, i: nat)
    requires q.Valid()
    ensures |Freed(q, i)| <= InUse(q.free) <= NUM
    ensures FreeChain(q, i).Ok? ==> InUse(FreeChain(q, i).value.free) + |Freed(q, i)| == InUse(q.free)
    decreases InUse(q.free)
  {
    FreeBound(q.free, 0);
    if i < NUM && !q.free[i] {
      InUseDrops(q.free, i);
      if q.desc[i].HasNext() {
        FreeChainEnds(FreeDesc(q, i).value, q.desc[i].next);
      }
    }
  }

  /** With none free but the first j of those that are free in q. */
  ghost function OnlyFirst(q: Queue, j: nat): (r: Queue)
    requires q.Valid() && j <= |FreeList(q.free)|
    ensures r.Valid()
  {
    q.(free := seq(NUM, p => p in FreeList(q.free)[..j]))
  }

  lemma NoneLeft(q: Queue, n: nat)
    requires q.Valid() && n == |FreeList(q.free)| && FreeList(TakeFirst(q.free, n)) == []
    ensures OnlyFirst(q, 0) == q.(free := TakeFirst(q.free, n))
  {
    forall p | 0 <= p < NUM ensures !TakeFirst(q.free, n)[p] {
      assert p !in FreeList(TakeFirst(q.free, n));
    }
    assert OnlyFirst(q, 0).free == TakeFirst(q.free, n);
  }

  lemma AllBack(q: Queue, n: nat)
    requires q.Valid() && n == |FreeList(q.free)|
    ensures OnlyFirst(q, n) == q
  {
    assert FreeList(q.free)[..n] == FreeList(q.free);
    forall p | 0 <= p < NUM ensures OnlyFirst(q, n).free[p] == q.free[p] {
    }
    assert OnlyFirst(q, n).free == q.free;
  }

  lemma OneBack(q: Queue, j: nat)
    requires q.Valid() && j < |FreeList(q.free)|
    ensures FreeList(q.free)[j] < NUM
    ensures FreeDesc(OnlyFirst(q, j), FreeList(q.free)[j]) == Ok(OnlyFirst(q, j + 1))
  {
    var l := FreeList(q.free);
    assert l[j] !in l[..j];
    assert l[..j + 1] == l[..j] + [l[j]];
    assert q.desc[l[j] := q.desc[l[j]].(addr := Null)] == q.desc;
    assert OnlyFirst(q, j).free[l[j] := true] == OnlyFirst(q, j + 1).free;
  }

  // A request
  // ---------

  /** The three descriptors of a block transfer: header, data, status byte
      (section 5.2.6 of VIRTIO 1.1). */
  ghost function HeadDesc(blockno: nat, write: bool, next: nat): Desc {
    Desc(Header(if write then T_OUT else T_IN, blockno * (CacheSpec.BSIZE / 512)), 16, F_NEXT, next)
  }

  ghost function DataDesc(b: nat, write: bool, next: nat): Desc {
    Desc(BufferData(b), CacheSpec.BSIZE, (if write then 0 else F_WRITE) + F_NEXT, next)
  }

  ghost function StatusDesc(head: nat): Desc {
    Desc(StatusByte(head), 1, F_WRITE, 0)
  }

  /** diskRW up to the notification, with descriptors d0, d1, d2. */
  ghost function Submit(q: Queue, b: nat, blockno: nat, write: bool, d0: nat, d1: nat, d2: nat): (r: Queue)
    requires q.Valid() && d0 < d1 < d2 < NUM
    ensures r.Valid()
  {
    q.(free := q.free[d0 := false][d1 := false][d2 := false],
       desc := q.desc[d0 := HeadDesc(blockno, write, d1)][d1 := DataDesc(b, write, d2)][d2 := StatusDesc(d0)],
       info := q.info[d0 := Info(Some(b), 0)],
       owned := q.owned + {b},
       ring := q.ring[q.availIdx % NUM := d0],
       availIdx := (q.availIdx + 1) % IDX_LIMIT)
  }

  /** What the device finds after a request, as numbers: type 1 for a write and
      0 for a read, two sectors for each block, flag 1 for a next descriptor and
      2 for one that the device writes. */
  ghost predicate Asked(q: Queue, r: Queue, b: nat, blockno: nat, write: bool, d0: nat, d1: nat, d2: nat)
    requires q.Valid() && r.Valid() && d0 < 8 && d1 < 8 && d2 < 8
  {
    && r.desc[d0] == Desc(Header(if write then 1 else 0, 2 * blockno), 16, 1, d1)
    && r.desc[d1] == Desc(BufferData(b), 1024, if write then 1 else 3, d2)
    && r.desc[d2] == Desc(StatusByte(d0), 1, 2, 0)
    && r.info[d0] == Info(Some(b), 0)
    && r.ring[q.availIdx % 8] == d0 && r.availIdx == (q.availIdx + 1) % 65536
    && r.owned == q.owned + {b}
    && !r.free[d0] && !r.free[d1] && !r.free[d2]
    && (forall i :: 0 <= i < 8 && i !in [d0, d1, d2] ==> r.desc[i] == q.desc[i] && r.free[i] == q.free[i])
    && (forall i :: 0 <= i < 8 && i != d0 ==> r.info[i] == q.info[i])
    && (forall i :: 0 <= i < 8 && i != q.availIdx % 8 ==> r.ring[i] == q.ring[i])
    && r.usedId == q.usedId && r.elems == q.elems && r.usedIdx == q.usedIdx
  }

  lemma SubmitAsks(q: Queue, b: nat, blockno: nat, write: bool, d0: nat, d1: nat, d2: nat)
    requires q.Valid() && d0 < d1 < d2 < NUM
    ensures Asked(q, Submit(q, b, blockno, write, d0, d1, d2), b, blockno, write, d0, d1, d2)
  {
    var r := Submit(q, b, blockno, write, d0, d1, d2);
    assert r.desc[d0] == HeadDesc(blockno, write, d1) && r.desc[d1] == DataDesc(b, write, d2);
  }

  /** Only the descriptors' own flags say which were free before. */
  lemma SubmitTaken(q: Queue, b: nat, blockno: nat, write: bool, d0: nat, d1: nat, d2: nat)
    requires q.Valid() && d0 < d1 < d2 < NUM
    ensures var t := q.(free := q.free[d0 := false][d1 := false][d2 := false]);
      t.Valid() && Submit(t, b, blockno, write, d0, d1, d2) == Submit(q, b, blockno, write, d0, d1, d2)
  {
    var f := q.free[d0 := false][d1 := false][d2 := false];
    assert f[d0 := false][d1 := false][d2 := false] == f;
  }

  /** The rest of diskRW, after the wait. */
  ghost function Finish(q: Queue, d0: nat): (r: Result<Queue>)
    requires q.Valid() && d0 < NUM
    ensures r.Ok? ==> r.value.Valid()
  {
    FreeChain(q.(info := q.info[d0 := q.info[d0].(b := None)]), d0)
  }

  /** The chain diskRW builds, while it is in use. */
  ghost predicate IsChain(q: Queue, b: nat, blockno: nat, write: bool, d0: nat, d1: nat, d2: nat)
    requires q.Valid()
  {
    && d0 < d1 < d2 < NUM
    && !q.free[d0] && !q.free[d1] && !q.free[d2]
    && q.desc[d0] == HeadDesc(blockno, write, d1)
    && q.desc[d1] == DataDesc(b, write, d2)
    && q.desc[d2] == StatusDesc(d0)
  }

  /** free_chain takes such a chain apart: its three descriptors become free,
      lose their addresses, and nothing else changes. */
  lemma FreeThree(q: Queue, b: nat, blockno: nat, write: bool, d0: nat, d1: nat, d2: nat)
    requires q.Valid() && IsChain(q, b, blockno, write, d0, d1, d2)
    ensures FreeChain(q, d0) == Ok(q.(
      free := q.free[d0 := true][d1 := true][d2 := true],
      desc := q.desc[d0 := q.desc[d0].(addr := Null)][d1 := q.desc[d1].(addr := Null)]
                    [d2 := q.desc[d2].(addr := Null)]))
    ensures Freed(q, d0) == [d0, d1, d2]
  {
    var q1 := FreeDesc(q, d0).value;
    var q2 := FreeDesc(q1, d1).value;
    InUseDrops(q.free, d0);
    InUseDrops(q1.free, d1);
    assert FreeChain(q2, d2) == FreeDesc(q2, d2);
    assert Freed(q2, d2) == [d2];
    assert FreeChain(q1, d1) == FreeChain(q2, d2);
    assert Freed(q1, d1) == [d1] + Freed(q2, d2);
  }

  /** After the wait: the three descriptors are free again, the buffer is no
      longer waited for, and nothing else changes. */
  lemma FinishIs(q: Queue, b: nat, blockno: nat, write: bool, d0: nat, d1: nat, d2: nat)
    requires q.Valid() && IsChain(q, b, blockno, write, d0, d1, d2)
    ensures Finish(q, d0) == Ok(q.(
      free := q.free[d0 := true][d1 := true][d2 := true],
      desc := q.desc[d0 := q.desc[d0].(addr := Null)][d1 := q.desc[d1].(addr := Null)]
                    [d2 := q.desc[d2].(addr := Null)],
      info := q.info[d0 := Info(None, q.info[d0].status)]))
  {
    FreeThree(q.(info := q.info[d0 := q.info[d0].(b := None)]), b, blockno, write, d0, d1, d2);
  }

  // What the device makes of a chain
  // --------------------------------

  datatype Request = Request(write: bool, sector: nat, b: nat, status: nat)

  /** The request that starts at descriptor h, as a device reads it: type 0 is
      a read from the disk and type 1 a write to it. */
  ghost function RequestAt(q: Queue, h: nat): Option<Request>
    requires q.Valid()
  {
    if h >= 8 then None
    else
      var head := q.desc[h];
      if !(head.addr.Header? && head.len == 16 && head.HasNext() && !head.DeviceWrites() && head.next < 8) then None
      else
        var data := q.desc[head.next];
        var write := head.addr.kind == 1;
        if !(data.addr.BufferData? && data.len == 1024 && data.HasNext() && data.next < 8) then None
        else if data.DeviceWrites() == write || !(write || head.addr.kind == 0) then None
        else
          var status := q.desc[data.next];
          if !(status.addr.StatusByte? && status.addr.i < 8 && status.len == 1 && !status.HasNext()
               && status.DeviceWrites()) then None
          else Some(Request(write, head.addr.sector, data.addr.b, status.addr.i))
  }

  /** The device reads from the chain what diskRW was asked to do. */
  lemma RequestIs(q: Queue, b: nat, blockno: nat, write: bool, d0: nat, d1: nat, d2: nat)
    requires q.Valid() && IsChain(q, b, blockno, write, d0, d1, d2)
    ensures RequestAt(q, d0) == Some(Request(write, blockno * 2, b, d0))
  {
  }

  // The interrupt handler
  // ---------------------

  /** Used entries the handler has not looked at, as far as it can tell. */
  ghost function Pending(q: Queue): (n: nat)
    requires q.Valid()
    ensures n < NUM
    ensures n == 0 <==> q.usedIdx % NUM == q.usedId % NUM
  {
    (q.usedId % NUM - q.usedIdx) % NUM
  }

  /** One round of the handler's loop. */
  ghost function HandleOne(q: Queue): (r: Result<Queue>)
    requires q.Valid()
    ensures r.Ok? ==> r.value.Valid()
  {
    var id := q.elems[q.usedIdx];
    if id >= NUM then Halt(Undefined)
    else if q.info[id].status != 0 then Halt(DiskStatus)
    else if q.info[id].b.None? then Halt(Undefined)
    else Ok(q.(owned := q.owned - {q.info[id].b.value}, usedIdx := (q.usedIdx + 1) % NUM))
  }

  lemma PendingDrops(q: Queue)
    requires q.Valid() && Pending(q) > 0 && HandleOne(q).Ok?
    ensures Pending(HandleOne(q).value) == Pending(q) - 1
  {
    NextIsNearer(q.usedId % NUM, q.usedIdx);
  }

  lemma NextIsNearer(a: nat, b: nat)
    requires a < NUM && b < NUM && a != b
    ensures (a - (b + 1) % NUM) % NUM == (a - b) % NUM - 1
  {
    if b + 1 < NUM {
      assert (b + 1) % NUM == b + 1;
    }
  }

  /** diskIntr; the loop ends, whatever the rings hold. */
  ghost function DiskIntr(q: Queue): (r: Result<Queue>)
    requires q.Valid()
    ensures r.Ok? ==> r.value.Valid()
    decreases Pending(q)
  {
    if Pending(q) == 0 then Ok(q)
    else
      var one := HandleOne(q);
      if one.Halt? then one
      else
        PendingDrops(q);
        DiskIntr(one.value)
  }

  /** The state diskInit leaves. */
  ghost function Initial(): (q: Queue)
    ensures q.Valid()
  {
    Queue(seq(NUM, _ => Desc(Null, 0, 0, 0)), seq(NUM, _ => true), seq(NUM, _ => Info(None, 0)),
          0, seq(NUM, _ => 0), 0, seq(NUM, _ => 0), 0, {})
  }
}
