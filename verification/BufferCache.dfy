/** The buffer cache in memory: a ring of linked buffers (kernel/buffer.c:8-74). */
module BufferCache {
  import opened Bits
  import opened CacheSpec
  import opened Halting
  import opened Seal

  /** One buffer with its links, as zeroed kernel memory has it at boot. */
  class Buffer {
    var valid: bool
    var blockno: nat
    var refcnt: nat
    var prev: Buffer?
    var next: Buffer?
    const data: array<byte>

    constructor ()
      ensures !valid && blockno == 0 && refcnt == 0 && prev == null && next == null
      ensures fresh(data) && data.Length == BSIZE && forall k :: 0 <= k < BSIZE ==> data[k] == 0
    {
      valid, blockno, refcnt, prev, next := false, 0, 0, null, null;
      data := new byte[BSIZE](_ => 0);
    }
  }

  // The ring
  // --------

  /** Node i of the ring; the head is node 0 and comes round again after the last. */
  ghost function Node(h: Buffer, l: seq<Buffer>, i: nat): Buffer {
    if 1 <= i <= |l| then l[i - 1] else h
  }

  /** Node i and the node after it refer to each other. */
  ghost predicate Linked(h: Buffer, l: seq<Buffer>, i: nat)
    reads h`next, h`prev, l`next, l`prev
  {
    Node(h, l, i).next == Node(h, l, i + 1) && Node(h, l, i + 1).prev == Node(h, l, i)
  }

  /** The buffers of l, each once, in a circle with the head; prev inverts next. */
  ghost predicate IsRing(h: Buffer, l: seq<Buffer>)
    reads h`next, h`prev, l`next, l`prev
  {
    && h !in l
    && (forall i, j :: 0 <= i < j < |l| ==> l[i] != l[j])
    && (forall i: nat :: i <= |l| ==> Linked(h, l, i))
  }

  /** Links b in right after the head (kernel/buffer.c:15-18 and 69-72). */
  method InsertFront(h: Buffer, b: Buffer, ghost l: seq<Buffer>)
    requires IsRing(h, l) && b != h && b !in l
    modifies h`next, h`prev, b`next, b`prev, l`prev
    ensures IsRing(h, [b] + l)
  {
    ghost var m := [b] + l;
    assert Linked(h, l, 0);
    b.next := h.next;
    b.prev := h;
    h.next.prev := b;
    h.next := b;
    forall i: nat | i <= |m| ensures Linked(h, m, i) {
      if i >= 2 {
        assert old(Linked(h, l, i - 1));
        assert Node(h, m, i) == Node(h, l, i - 1) && Node(h, m, i + 1) == Node(h, l, i);
      }
    }
  }

  ghost function Without<T>(l: seq<T>, i: nat): seq<T>
    requires i < |l|
  {
    l[..i] + l[i + 1..]
  }

  /** Takes the i-th buffer out of the ring (kernel/buffer.c:67-68). */
  method Unlink(h: Buffer, b: Buffer, ghost l: seq<Buffer>, ghost i: nat)
    requires IsRing(h, l) && i < |l| && l[i] == b
    modifies h`next, h`prev, l`next, l`prev
    ensures IsRing(h, Without(l, i))
  {
    ghost var m := Without(l, i);
    assert Linked(h, l, i) && Linked(h, l, i + 1);
    b.next.prev := b.prev;
    b.prev.next := b.next;
    forall k: nat | k <= |m| ensures Linked(h, m, k) {
      if k < i {
        assert old(Linked(h, l, k));
      } else if k > i {
        assert old(Linked(h, l, k + 1));
        assert Node(h, m, k) == Node(h, l, k + 1);
      }
      assert Node(h, m, k + 1) == if k + 1 <= i then Node(h, l, k + 1) else Node(h, l, k + 2);
    }
  }

  /** binit: links the buffers into a ring one after the other. */
  method Binit(h: Buffer, buf: seq<Buffer>) returns (ghost list: seq<Buffer>)
    requires h !in buf && forall i, j :: 0 <= i < j < |buf| ==> buf[i] != buf[j]
    modifies h`next, h`prev, buf`next, buf`prev
    ensures IsRing(h, list)
    ensures |list| == |buf| && forall i :: 0 <= i < |buf| ==> list[i] == buf[|buf| - 1 - i]
  {
    h.prev := h;
    h.next := h;
    list := [];
    assert Linked(h, list, 0);
    for k := 0 to |buf|
      invariant IsRing(h, list)
      invariant |list| == k && forall i :: 0 <= i < k ==> list[i] == buf[k - 1 - i]
    {
      InsertFront(h, buf[k], list);
      list := [buf[k]] + list;
    }
  }

  /** Buffer b holds what slot s says. */
  ghost predicate Holds(b: Buffer, s: Slot)
    reads b`valid, b`blockno, b`refcnt, b.data
  {
    && b.valid == s.valid && b.blockno == s.blockno && b.refcnt == s.refcnt
    && b.data[..] == s.data
  }

  /** The first n buffers as binit leaves them, the last one linked first. */
  ghost function BootSlots(buffers: seq<Buffer>, n: nat): (s: seq<Slot>)
    requires n <= |buffers| && forall i :: 0 <= i < |buffers| ==> buffers[i].data.Length == BSIZE
    reads set i | 0 <= i < |buffers| :: buffers[i].data
    ensures |s| == n && Unused(s)
    ensures forall i :: 0 <= i < n ==> s[i].id == n - 1 - i && s[i].data == buffers[n - 1 - i].data[..]
  {
    if n == 0 then []
    else [Slot(n - 1, 0, false, 0, buffers[n - 1].data[..])] + BootSlots(buffers, n - 1)
  }

  ghost function ArraysOf(buf: seq<Buffer>): set<array<byte>> {
    set i | 0 <= i < |buf| :: buf[i].data
  }

  /** The list has every buffer of bcache.buf, each with memory of its own. */
  ghost predicate Lists(buf: seq<Buffer>, l: seq<Buffer>, s: seq<Slot>) {
    && |s| == |l| == |buf| == NBUF
    && (forall i :: 0 <= i < |l| ==> s[i].id < |buf| && l[i] == buf[s[i].id])
    && (forall i :: 0 <= i < |l| ==> l[i] in buf && l[i].data in ArraysOf(buf) && l[i].data.Length == BSIZE)
    && (forall i, j :: 0 <= i < j < |l| ==> l[i].data != l[j].data)
  }

  lemma BootLists(buf: seq<Buffer>, l: seq<Buffer>, s: seq<Slot>)
    requires |s| == |l| == |buf| == NBUF
    requires forall i :: 0 <= i < NBUF ==> buf[i].data.Length == BSIZE
    requires forall i, j :: 0 <= i < j < NBUF ==> buf[i].data != buf[j].data
    requires forall i :: 0 <= i < NBUF ==> l[i] == buf[NBUF - 1 - i] && s[i].id == NBUF - 1 - i
    ensures Lists(buf, l, s)
  {
  }

  lemma BootHolds(buf: seq<Buffer>, s: seq<Slot>)
    requires |buf| == NBUF && forall i :: 0 <= i < NBUF ==> buf[i].data.Length == BSIZE
    requires forall i :: 0 <= i < NBUF ==> !buf[i].valid && buf[i].blockno == 0 && buf[i].refcnt == 0
    requires s == BootSlots(buf, NBUF)
    ensures forall i {:trigger s[i]} :: 0 <= i < NBUF ==> Holds(buf[NBUF - 1 - i], s[i])
  {
  }

  lemma UpdateLists(buf: seq<Buffer>, l: seq<Buffer>, s: seq<Slot>, i: nat, x: Slot)
    requires Lists(buf, l, s) && i < |s| && x.id == s[i].id
    ensures Lists(buf, l, s[i := x])
  {
  }

  lemma FrontLists(buf: seq<Buffer>, l: seq<Buffer>, s: seq<Slot>, i: nat)
    requires Lists(buf, l, s) && i < |s|
    ensures Lists(buf, MoveToFront(l, i), MoveToFront(s, i))
    ensures forall k :: 0 <= k < |l| ==>
      FrontSource(i, k) < |l| && MoveToFront(l, i)[k] == l[FrontSource(i, k)]
        && MoveToFront(s, i)[k] == s[FrontSource(i, k)]
    ensures |MoveToFront(l, i)| == |l| && |MoveToFront(s, i)| == |s|
  {
    forall k | 0 <= k < |l|
      ensures MoveToFront(l, i)[k] == l[FrontSource(i, k)] && MoveToFront(s, i)[k] == s[FrontSource(i, k)]
    {
      MoveToFrontAt(l, i, k);
      MoveToFrontAt(s, i, k);
    }
  }

  lemma InArray(buf: seq<Buffer>, l: seq<Buffer>, s: seq<Slot>)
    requires Lists(buf, l, s)
    ensures |s| == |l| == NBUF
    ensures forall i :: 0 <= i < |l| ==> l[i] in buf && l[i].data in ArraysOf(buf) && l[i].data.Length == BSIZE
  {
  }

  lemma RingApart(h: Buffer, l: seq<Buffer>)
    requires IsRing(h, l)
    ensures h !in l
    ensures forall i, j :: 0 <= i < j < |l| ==> l[i] != l[j]
  {
  }

  /** Takes a buffer out of the ring and links it in right after the head. */
  method Relink(h: Buffer, b: Buffer, buf: seq<Buffer>, ghost l: seq<Buffer>, ghost i: nat)
    requires IsRing(h, l) && i < |l| && l[i] == b && forall k :: 0 <= k < |l| ==> l[k] in buf
    modifies h`next, h`prev, buf`next, buf`prev
    ensures IsRing(h, MoveToFront(l, i))
  {
    FrontIs(l, i);
    RingWithout(h, l, i);
    Unlink(h, b, l, i);
    InsertFront(h, b, Without(l, i));
  }

  lemma FrontIs<T>(l: seq<T>, i: nat)
    requires i < |l|
    ensures MoveToFront(l, i) == [l[i]] + Without(l, i)
  {
  }

  lemma RingWithout(h: Buffer, l: seq<Buffer>, i: nat)
    requires IsRing(h, l) && i < |l|
    ensures l[i] != h && l[i] !in Without(l, i)
  {
  }

  class BufferPool {
    const buf: seq<Buffer>
    const head: Buffer
    /** The blocks on the device behind the cache. */
    var disk: seq<Block>
    /** The buffers in list order from head.next, and what they hold. */
    ghost var list: seq<Buffer>
    ghost var slots: seq<Slot>

    ghost function Arrays(): set<array<byte>> {
      ArraysOf(buf)
    }

    ghost predicate Valid()
      reads this, head, buf, Arrays()
    {
      && Lists(buf, list, slots) && IsRing(head, list)
      && (forall i :: 0 <= i < |list| ==> Holds(list[i], slots[i]))
      && |disk| == DISKSIZE
    }

    ghost function Abs(): Cache
      reads this
    {
      Cache(slots, disk)
    }

    /** Valid(), sealed. */
    ghost predicate ValidAt(n: nat)
      reads this, head, buf, Arrays()
    {
      if n == 0 then Valid() else ValidAt(n - 1)
    }

    lemma {:induction false} OpenValid(n: nat)
      ensures ValidAt(n) <==> Valid()
    {
      if n > 0 {
        OpenValid(n - 1);
      }
    }

    /** A well-formed cache. */
    ghost predicate Good()
      reads this, head, buf, Arrays()
    {
      ValidAt(SEAL)
    }

    /** The holder of a buffer reads a byte of it. */
    method LoadByte(b: Buffer, ghost i: nat, k: nat) returns (x: byte)
      requires Good() && i < |list| && list[i] == b && k < BSIZE
      ensures i < |slots| && x == slots[i].data[k]
    {
      OpenValid(SEAL);
      assert Holds(list[i], slots[i]);
      x := b.data[k];
    }

    /** The cache over zeroed buffers and a device. */
    constructor (buffers: seq<Buffer>, sentinel: Buffer, blocks: seq<Block>)
      requires |buffers| == NBUF && |blocks| == DISKSIZE
      requires forall i :: 0 <= i < NBUF ==> buffers[i] != sentinel && buffers[i].data.Length == BSIZE
      requires forall i, j :: 0 <= i < j < NBUF ==> buffers[i] != buffers[j] && buffers[i].data != buffers[j].data
      requires forall i :: 0 <= i < NBUF ==> !buffers[i].valid && buffers[i].blockno == 0 && buffers[i].refcnt == 0
      modifies buffers`next, buffers`prev, sentinel`next, sentinel`prev
      ensures Valid() && buf == buffers && head == sentinel && disk == blocks
      ensures Unused(slots)
      ensures forall i :: 0 <= i < NBUF ==> slots[i].id == NBUF - 1 - i
    {
      hide Lists, IsRing, BootSlots, Holds, Unused;
      buf, head, disk := buffers, sentinel, blocks;
      slots := BootSlots(buffers, NBUF);
      new;
      BootHolds(buf, slots);
      list := Binit(head, buf);
      BootLists(buf, list, slots);
      forall i | 0 <= i < NBUF ensures Holds(list[i], slots[i]) {
        assert Holds(buf[NBUF - 1 - i], slots[i]);
      }
    }

    /** The first scan of bget, from the front: the buffer that carries the
        block number, or the head if none does. */
    method FindBuffer(blockno: nat) returns (b: Buffer, ghost i: nat)
      requires Valid()
      ensures i == Find(slots, blockno) && b == Node(head, list, i + 1)
      ensures b == head <==> i == |slots|
    {
      i := 0;
      assert Linked(head, list, 0);
      b := head.next;
      while b != head
        invariant i <= |list| && b == Node(head, list, i + 1)
        invariant forall j :: 0 <= j < i ==> slots[j].blockno != blockno
        decreases |list| - i
      {
        assert Holds(list[i], slots[i]);
        if b.blockno == blockno {
          return;
        }
        assert Linked(head, list, i + 1);
        b := b.next;
        i := i + 1;
      }
    }

    /** The second scan, from the back: a buffer nobody holds, or the head. */
    method FindUnused() returns (b: Buffer, ghost i: nat)
      requires Valid()
      ensures i <= |slots| && b == Node(head, list, i)
      ensures b == head <==> LastFree(slots).None?
      ensures b != head ==> i > 0 && LastFree(slots) == Some(i - 1)
    {
      i := |list|;
      assert Linked(head, list, |list|);
      b := head.prev;
      while b != head
        invariant i <= |list| && b == Node(head, list, i)
        invariant forall j :: i <= j < |list| ==> slots[j].refcnt != 0
        decreases i
      {
        assert Holds(list[i - 1], slots[i - 1]);
        if b.refcnt == 0 {
          return;
        }
        assert Linked(head, list, i - 1);
        b := b.prev;
        i := i - 1;
      }
    }

    lemma HeaderIs(i: nat)
      requires Valid() && i < |list|
      ensures i < |slots|
      ensures list[i].valid == slots[i].valid && list[i].blockno == slots[i].blockno
          && list[i].refcnt == slots[i].refcnt
    {
      assert Holds(list[i], slots[i]);
    }

    /** Assigns the header fields of a buffer. */
    method SetHeader(b: Buffer, ghost i: nat, blockno: nat, valid: bool, refcnt: nat)
      requires Valid() && i < |list| && list[i] == b
      modifies this`slots, b`valid, b`blockno, b`refcnt
      ensures Valid()
      ensures slots == old(slots)[i := old(slots)[i].(blockno := blockno, valid := valid, refcnt := refcnt)]
    {
      hide Lists, IsRing;
      RingApart(head, list);
      InArray(buf, list, slots);
      assert Holds(list[i], slots[i]);
      b.blockno := blockno;
      b.valid := valid;
      b.refcnt := refcnt;
      UpdateLists(buf, list, slots, i, slots[i].(blockno := blockno, valid := valid, refcnt := refcnt));
      slots := slots[i := slots[i].(blockno := blockno, valid := valid, refcnt := refcnt)];
      forall k | 0 <= k < |list| ensures Holds(list[k], slots[k]) {
        assert old(Holds(list[k], slots[k]));
      }
    }

    /** The buffer for a block, with one more reference to it. */
    method BGet(blockno: nat) returns (r: Result<Buffer>, ghost i: nat)
      requires Valid()
      modifies this`slots, buf`valid, buf`blockno, buf`refcnt
      ensures Valid()
      ensures var g := CacheSpec.BGet(old(slots), blockno);
        if g.None? then r == Halt(NoBuffers) && slots == old(slots)
        else (slots, i) == g.value && i < |slots| && r == Ok(list[i])
    {
      hide Lists, IsRing, LastFree, Find;
      InArray(buf, list, slots);
      var b;
      b, i := FindBuffer(blockno);
      if b != head {
        assert Holds(list[i], slots[i]);
        SetHeader(b, i, b.blockno, b.valid, b.refcnt + 1);
        return Ok(b), i;
      }
      b, i := FindUnused();
      if b != head {
        i := i - 1;
        SetHeader(b, i, blockno, false, 1);
        return Ok(b), i;
      }
      return Halt(NoBuffers), i;
    }

    /** Fills a buffer from its block (diskRW with write = 0, as one step). */
    method ReadBlock(b: Buffer, ghost i: nat)
      requires Valid() && i < |list| && list[i] == b && slots[i].blockno < DISKSIZE
      modifies this`slots, b.data
      ensures Valid()
      ensures slots == old(slots)[i := old(slots)[i].(data := disk[old(slots)[i].blockno])]
    {
      assert Holds(list[i], slots[i]);
      forall k | 0 <= k < BSIZE {
        b.data[k] := disk[b.blockno][k];
      }
      assert b.data[..] == disk[b.blockno];
      UpdateLists(buf, list, slots, i, slots[i].(data := disk[b.blockno]));
      slots := slots[i := slots[i].(data := disk[b.blockno])];
      forall k | 0 <= k < |list| ensures Holds(list[k], slots[k]) {
        assert old(Holds(list[k], slots[k]));
      }
    }

    /** The buffer for a block, with the block's contents in it. */
    method BRead(blockno: nat) returns (r: Result<Buffer>, ghost i: nat)
      requires Valid() && blockno < DISKSIZE
      modifies this`slots, buf`valid, buf`blockno, buf`refcnt, Arrays()
      ensures Valid()
      ensures var g := CacheSpec.BRead(old(Abs()), blockno);
        if g.None? then r == Halt(NoBuffers) && slots == old(slots)
        else (Abs(), i) == g.value && i < |slots| && r == Ok(list[i])
    {
      hide Lists, IsRing;
      InArray(buf, list, slots);
      r, i := BGet(blockno);
      if r.Ok? {
        var b := r.value;
        assert Holds(list[i], slots[i]);
        if !b.valid {
          ghost var s := slots;
          ReadBlock(b, i);
          assert Holds(list[i], slots[i]);
          SetHeader(b, i, b.blockno, true, b.refcnt);
          assert slots == s[i := s[i].(data := disk[blockno], valid := true)];
        }
      }
    }

    /** Writes a buffer back to its block (diskRW with write = 1, as one step). */
    method BWrite(b: Buffer, ghost i: nat)
      requires Valid() && i < |list| && list[i] == b && slots[i].blockno < DISKSIZE
      modifies this`disk
      ensures Valid()
      ensures Abs() == CacheSpec.BWrite(old(Abs()), i)
    {
      assert Holds(list[i], slots[i]);
      disk := disk[b.blockno := b.data[..]];
    }

    /** The holder of a buffer stores a byte into it. */
    method StoreByte(b: Buffer, ghost i: nat, k: nat, x: byte)
      requires Valid() && i < |list| && list[i] == b && k < BSIZE
      modifies this`slots, b.data
      ensures Valid()
      ensures Abs() == Store(old(Abs()), i, old(slots[i].data)[k := x])
    {
      assert Holds(list[i], slots[i]);
      ghost var data: Block := slots[i].data[k := x];
      b.data[k] := x;
      assert b.data[..] == data;
      UpdateLists(buf, list, slots, i, slots[i].(data := data));
      slots := slots[i := slots[i].(data := data)];
      forall k | 0 <= k < |list| ensures Holds(list[k], slots[k]) {
        assert old(Holds(list[k], slots[k]));
      }
    }

    /** Moves a buffer to the front of the ring. */
    method ToFront(b: Buffer, ghost i: nat)
      requires Valid() && i < |list| && list[i] == b
      modifies this`slots, this`list, buf`prev, buf`next, head`prev, head`next
      ensures Valid()
      ensures slots == MoveToFront(old(slots), i) && list == MoveToFront(old(list), i)
    {
      hide Lists, IsRing, MoveToFront, Holds;
      InArray(buf, list, slots);
      FrontLists(buf, list, slots, i);
      Relink(head, b, buf, list, i);
      list := MoveToFront(list, i);
      slots := MoveToFront(slots, i);
      forall k | 0 <= k < |list| ensures Holds(list[k], slots[k]) {
        assert old(Holds(list[FrontSource(i, k)], slots[FrontSource(i, k)]));
      }
    }

    /** Gives one reference back; the last one moves the buffer to the front. */
    method BRelse(b: Buffer, ghost i: nat)
      requires Valid() && i < |list| && list[i] == b && slots[i].refcnt > 0
      modifies this`slots, this`list, buf`valid, buf`blockno, buf`refcnt, buf`prev, buf`next, head`prev, head`next
      ensures Valid()
      ensures Abs() == CacheSpec.BRelse(old(Abs()), i)
      ensures list == if old(slots[i].refcnt) == 1 then MoveToFront(old(list), i) else old(list)
    {
      hide Lists, IsRing, MoveToFront, Holds;
      InArray(buf, list, slots);
      HeaderIs(i);
      SetHeader(b, i, b.blockno, b.valid, b.refcnt - 1);
      HeaderIs(i);
      if b.refcnt == 0 {
        ToFront(b, i);
      }
    }
  }
}
