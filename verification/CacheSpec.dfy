/**
 The buffer cache as a value: the buffers in list order, most recently released
 first, on top of a disk of blocks.
 */
module CacheSpec {
  import opened Bits
  import opened Halting

  const BSIZE: nat := 1024
  const DISKSIZE: nat := 1000
  const NBUF: nat := 30

  type Block = b: seq<byte> | |b| == 1024 witness seq(1024, _ => 0)

  /** One buffer: `id` is its place in bcache.buf and never changes. */
  datatype Slot = Slot(id: nat, blockno: nat, valid: bool, refcnt: nat, data: Block)

  datatype Cache = Cache(slots: seq<Slot>, disk: seq<Block>)

  // The operations
  // --------------

  /** First buffer in list order that carries block number n, or |s|. */
  function Find(s: seq<Slot>, n: nat): (i: nat)
    ensures i <= |s|
    ensures i < |s| ==> s[i].blockno == n
    ensures forall j :: 0 <= j < i ==> s[j].blockno != n
  {
    if s == [] then 0 else if s[0].blockno == n then 0 else 1 + Find(s[1..], n)
  }

  /** Last buffer in list order that nobody holds. */
  function LastFree(s: seq<Slot>): (r: Option<nat>)
    ensures r.Some? ==> r.value < |s| && s[r.value].refcnt == 0
    ensures r.Some? ==> forall j :: r.value < j < |s| ==> s[j].refcnt != 0
    ensures r.None? ==> forall j :: 0 <= j < |s| ==> s[j].refcnt != 0
  {
    if s == [] then None
    else if s[|s| - 1].refcnt == 0 then Some(|s| - 1)
    else LastFree(s[..|s| - 1])
  }

  /** bget: the buffers after it and the position of the one returned. */
  function BGet(s: seq<Slot>, n: nat): (r: Option<(seq<Slot>, nat)>) {
    var i := Find(s, n);
    if i < |s| then Some((s[i := s[i].(refcnt := s[i].refcnt + 1)], i))
    else
      var j := LastFree(s);
      if j.None? then None
      else Some((s[j.value := s[j.value].(blockno := n, valid := false, refcnt := 1)], j.value))
  }

  /** bread, with the block transfer as one step. */
  function BRead(c: Cache, n: nat): (r: Option<(Cache, nat)>)
    requires n < |c.disk|
  {
    var g := BGet(c.slots, n);
    if g.None? then None
    else
      var (s, i) := g.value;
      if s[i].valid then Some((Cache(s, c.disk), i))
      else Some((Cache(s[i := s[i].(data := c.disk[n], valid := true)], c.disk), i))
  }

  function BWrite(c: Cache, i: nat): Cache
    requires i < |c.slots| && c.slots[i].blockno < |c.disk|
  {
    c.(disk := c.disk[c.slots[i].blockno := c.slots[i].data])
  }

  function MoveToFront<T>(s: seq<T>, i: nat): seq<T>
    requires i < |s|
  {
    [s[i]] + s[..i] + s[i + 1..]
  }

  /** brelse: the last release of a buffer moves it to the front. */
  function BRelse(c: Cache, i: nat): Cache
    requires i < |c.slots| && c.slots[i].refcnt > 0
  {
    var s := c.slots[i := c.slots[i].(refcnt := c.slots[i].refcnt - 1)];
    c.(slots := if s[i].refcnt == 0 then MoveToFront(s, i) else s)
  }

  /** The holder of buffer i stores into it. */
  function Store(c: Cache, i: nat, data: Block): Cache
    requires i < |c.slots|
  {
    c.(slots := c.slots[i := c.slots[i].(data := data)])
  }

  // The invariant
  // -------------

  /** A second buffer with a block number already seen has never been used. */
  ghost predicate NoStaleTwin(s: seq<Slot>) {
    forall i, j :: 0 <= i < j < |s| && s[i].blockno == s[j].blockno ==> !s[j].valid
  }

  /** A buffer without data is one that was never used: all start as block 0. */
  ghost predicate UnusedIsZero(s: seq<Slot>) {
    forall i :: 0 <= i < |s| && !s[i].valid ==> s[i].refcnt == 0 && s[i].blockno == 0
  }

  ghost predicate OnDisk(c: Cache) {
    && |c.disk| == DISKSIZE
    && forall i :: 0 <= i < |c.slots| ==> c.slots[i].blockno < DISKSIZE
  }

  /** Data that nobody holds is the data on disk. */
  ghost predicate Coherent(c: Cache)
    requires OnDisk(c)
  {
    forall i :: 0 <= i < |c.slots| && c.slots[i].valid && c.slots[i].refcnt == 0 ==>
      c.slots[i].data == c.disk[c.slots[i].blockno]
  }

  ghost predicate Inv(c: Cache) {
    NoStaleTwin(c.slots) && UnusedIsZero(c.slots) && OnDisk(c) && Coherent(c)
  }

  /** Contents of block n as a reader of the cache sees it. */
  ghost function View(c: Cache, n: nat): Block
    requires n < |c.disk|
  {
    var i := Find(c.slots, n);
    if i < |c.slots| && c.slots[i].valid then c.slots[i].data else c.disk[n]
  }

  /** Some buffer is unreferenced. */
  ghost predicate Spare(c: Cache) {
    exists i :: 0 <= i < |c.slots| && c.slots[i].refcnt == 0
  }

  ghost predicate Cached(c: Cache, n: nat) {
    Find(c.slots, n) < |c.slots|
  }

  /** Nobody holds changes that are not on disk. */
  ghost predicate Clean(c: Cache)
    requires OnDisk(c)
  {
    forall i :: 0 <= i < |c.slots| && c.slots[i].valid ==> c.slots[i].data == c.disk[c.slots[i].blockno]
  }

  // What the operations do to the view
  // ----------------------------------

  /** bget always finds the live copy: there is only one, and it comes first. */
  lemma LiveCopy(c: Cache, i: nat)
    requires Inv(c) && i < |c.slots| && c.slots[i].valid
    ensures Find(c.slots, c.slots[i].blockno) == i
    ensures View(c, c.slots[i].blockno) == c.slots[i].data
  {
    var f := Find(c.slots, c.slots[i].blockno);
  }

  /** Block n reads as b: every live copy holds b, and without one the disk does. */
  ghost predicate Shows(c: Cache, n: nat, b: Block)
    requires n < |c.disk|
  {
    && (forall i :: 0 <= i < |c.slots| && c.slots[i].valid && c.slots[i].blockno == n ==> c.slots[i].data == b)
    && (c.disk[n] == b || exists i :: 0 <= i < |c.slots| && c.slots[i].valid && c.slots[i].blockno == n)
  }

  lemma ShowsView(c: Cache, n: nat, b: Block)
    requires Inv(c) && n < DISKSIZE
    ensures Shows(c, n, b) <==> View(c, n) == b
  {
    var f := Find(c.slots, n);
    if i :| 0 <= i < |c.slots| && c.slots[i].valid && c.slots[i].blockno == n {
      LiveCopy(c, i);
      forall j | 0 <= j < |c.slots| && c.slots[j].valid && c.slots[j].blockno == n ensures j == i {
        LiveCopy(c, j);
      }
    }
  }

  // The block held by slot i of the new cache was shown by the old one.
  lemma HitView(c: Cache, i: nat, n: nat)
    requires Inv(c) && n < DISKSIZE && i == Find(c.slots, n) && i < |c.slots|
    ensures !c.slots[i].valid ==> View(c, n) == c.disk[n]
    ensures !c.slots[i].valid ==> forall j :: 0 <= j < |c.slots| && c.slots[j].valid ==> c.slots[j].blockno != n
  {
  }

  lemma RecycleView(c: Cache, j: nat)
    requires Inv(c) && j < |c.slots| && c.slots[j].refcnt == 0
    ensures c.slots[j].valid ==> View(c, c.slots[j].blockno) == c.disk[c.slots[j].blockno]
    ensures c.slots[j].valid ==>
      forall k :: 0 <= k < |c.slots| && c.slots[k].valid && c.slots[k].blockno == c.slots[j].blockno ==> k == j
  {
    if c.slots[j].valid {
      LiveCopy(c, j);
    }
  }

  /** bread reaches the error exactly when the block is not cached and every
      buffer is held. */
  lemma BReadFails(c: Cache, n: nat)
    requires n < |c.disk|
    ensures BRead(c, n).None? <==> !Cached(c, n) && !Spare(c)
  {
  }

  /** After bread the buffer holds the block's contents, one more reference is
      held, and no block reads differently. */
  lemma BReadInv(c: Cache, n: nat)
    requires Inv(c) && n < DISKSIZE && BRead(c, n).Some?
    ensures var (d, i) := BRead(c, n).value;
      && Inv(d) && i < |d.slots| == |c.slots| && d.disk == c.disk
      && d.slots[i].blockno == n && d.slots[i].valid && d.slots[i].id == c.slots[i].id
      && d.slots[i].refcnt == c.slots[i].refcnt + 1
      && forall k :: 0 <= k < |c.slots| && k != i ==> d.slots[k] == c.slots[k]
  {
    hide Find, LastFree, View;
    var f := Find(c.slots, n);
    if f < |c.slots| {
      HitView(c, f, n);
    } else {
      RecycleView(c, LastFree(c.slots).value);
    }
  }

  lemma BReadView(c: Cache, n: nat, m: nat)
    requires Inv(c) && n < DISKSIZE && m < DISKSIZE && BRead(c, n).Some?
    ensures var (d, i) := BRead(c, n).value;
      && i < |d.slots| && d.slots[i].data == View(c, n)
      && m < |d.disk| && View(d, m) == View(c, m)
  {
    hide Find, LastFree, NoStaleTwin, UnusedIsZero, Coherent;
    BReadInv(c, n);
    var (d, i) := BRead(c, n).value;
    var f := Find(c.slots, n);
    if f < |c.slots| {
      HitView(c, f, n);
    } else {
      RecycleView(c, i);
    }
    ShowsView(c, m, View(c, m));
    ShowsView(c, n, View(c, n));
    assert d.slots[i].data == View(c, n);
    assert Shows(d, m, View(c, m)) by {
      if j :| 0 <= j < |c.slots| && c.slots[j].valid && c.slots[j].blockno == m {
        LiveCopy(c, j);
        if j != i {
          assert d.slots[j] == c.slots[j];
        }
      }
    }
    ShowsView(d, m, View(c, m));
  }

  /** A store by the holder changes the view of that block only. */
  lemma StoreView(c: Cache, i: nat, data: Block, m: nat)
    requires Inv(c) && i < |c.slots| && c.slots[i].valid && c.slots[i].refcnt > 0 && m < DISKSIZE
    ensures Inv(Store(c, i, data))
    ensures View(Store(c, i, data), m) == if m == c.slots[i].blockno then data else View(c, m)
  {
    hide Find;
    var d := Store(c, i, data);
    LiveCopy(d, i);
    ShowsView(c, m, View(c, m));
    if m != c.slots[i].blockno {
      if j :| 0 <= j < |c.slots| && c.slots[j].valid && c.slots[j].blockno == m {
        assert d.slots[j] == c.slots[j];
      }
      ShowsView(d, m, View(c, m));
    }
  }

  /** Writing a held buffer back puts what readers see on disk. */
  lemma BWriteView(c: Cache, i: nat, m: nat)
    requires Inv(c) && i < |c.slots| && c.slots[i].valid && c.slots[i].refcnt > 0 && m < DISKSIZE
    ensures Inv(BWrite(c, i))
    ensures View(BWrite(c, i), m) == View(c, m)
    ensures BWrite(c, i).disk[c.slots[i].blockno] == View(c, c.slots[i].blockno)
  {
    var d := BWrite(c, i);
    LiveCopy(c, i);
    forall j | 0 <= j < |c.slots| && c.slots[j].valid && c.slots[j].blockno == c.slots[i].blockno ensures j == i {
      LiveCopy(c, j);
    }
    ShowsView(c, m, View(c, m));
    ShowsView(d, m, View(c, m));
  }

  /** Which element a move of position i to the front puts at position k. */
  function FrontSource(i: nat, k: nat): nat {
    if k == 0 then i else if k <= i then k - 1 else k
  }

  /** Where the buffer at position k is found after the move. */
  function MovedTo(i: nat, k: nat): nat {
    if k == i then 0 else if k < i then k + 1 else k
  }

  lemma MoveToFrontAt<T>(s: seq<T>, i: nat, k: nat)
    requires i < |s| && k < |s|
    ensures FrontSource(i, k) < |s| && MoveToFront(s, i)[k] == s[FrontSource(i, k)]
    ensures MovedTo(i, k) < |s| && MoveToFront(s, i)[MovedTo(i, k)] == s[k]
  {
  }

  /** Releasing a buffer that agrees with the disk, or that others still hold,
      keeps the invariant; no block reads differently. */
  lemma BRelseInv(c: Cache, i: nat)
    requires Inv(c) && i < |c.slots| && c.slots[i].refcnt > 0
    requires c.slots[i].refcnt == 1 ==> c.slots[i].data == c.disk[c.slots[i].blockno]
    ensures Inv(BRelse(c, i)) && |BRelse(c, i).slots| == |c.slots| && BRelse(c, i).disk == c.disk
  {
    var s := c.slots[i := c.slots[i].(refcnt := c.slots[i].refcnt - 1)];
    var d := BRelse(c, i);
    if s[i].refcnt == 0 {
      forall k | 0 <= k < |s| ensures d.slots[k] == s[FrontSource(i, k)] {
        MoveToFrontAt(s, i, k);
      }
    }
  }

  lemma BRelseView(c: Cache, i: nat, m: nat)
    requires Inv(c) && i < |c.slots| && c.slots[i].refcnt > 0 && m < DISKSIZE
    requires c.slots[i].refcnt == 1 ==> c.slots[i].data == c.disk[c.slots[i].blockno]
    ensures m < |BRelse(c, i).disk| && View(BRelse(c, i), m) == View(c, m)
  {
    hide Find, View, MoveToFront, NoStaleTwin, UnusedIsZero, Coherent;
    var s := c.slots[i := c.slots[i].(refcnt := c.slots[i].refcnt - 1)];
    var d := BRelse(c, i);
    BRelseInv(c, i);
    ShowsView(c, m, View(c, m));
    forall k | 0 <= k < |s|
      ensures d.slots[k] == s[if s[i].refcnt == 0 then FrontSource(i, k) else k]
    {
      if s[i].refcnt == 0 {
        MoveToFrontAt(s, i, k);
      }
    }
    if j :| 0 <= j < |c.slots| && c.slots[j].valid && c.slots[j].blockno == m {
      MoveToFrontAt(s, i, j);
      var k := if s[i].refcnt == 0 then MovedTo(i, j) else j;
      assert d.slots[k] == s[j];
    }
    ShowsView(d, m, View(c, m));
  }

  // Start
  // -----

  /** The buffers as the kernel's zeroed memory has them. */
  ghost predicate Unused(s: seq<Slot>) {
    forall i :: 0 <= i < |s| ==> !s[i].valid && s[i].refcnt == 0 && s[i].blockno == 0
  }

  lemma UnusedInv(c: Cache)
    requires Unused(c.slots) && |c.disk| == DISKSIZE
    ensures Inv(c) && Clean(c)
    ensures forall n :: 0 <= n < DISKSIZE ==> View(c, n) == c.disk[n]
  {
  }

  /** With nothing dirty, readers see exactly what is on disk. */
  lemma CleanView(c: Cache, n: nat)
    requires Inv(c) && Clean(c) && n < DISKSIZE
    ensures View(c, n) == c.disk[n]
  {
  }

  // References
  // ----------

  ghost predicate DistinctIds(s: seq<Slot>) {
    forall i, j :: 0 <= i < j < |s| ==> s[i].id != s[j].id
  }

  /** How many references to each buffer are held. */
  ghost function Refs(s: seq<Slot>): map<nat, nat> {
    if s == [] then map[]
    else Refs(s[..|s| - 1])[s[|s| - 1].id := s[|s| - 1].refcnt]
  }

  ghost predicate HasId(s: seq<Slot>, id: nat) {
    exists i :: 0 <= i < |s| && s[i].id == id
  }

  lemma {:induction false} RefsSpec(s: seq<Slot>)
    requires DistinctIds(s)
    ensures forall i :: 0 <= i < |s| ==> s[i].id in Refs(s) && Refs(s)[s[i].id] == s[i].refcnt
    ensures forall id: nat :: id in Refs(s) <==> HasId(s, id)
  {
    if s != [] {
      var t := s[..|s| - 1];
      RefsSpec(t);
      forall id: nat ensures id in Refs(s) <==> HasId(s, id) {
        assert s[|s| - 1].id in Refs(s);
        if HasId(t, id) {
          var i :| 0 <= i < |t| && t[i].id == id;
          assert s[i].id == id;
        }
        if HasId(s, id) {
          var i :| 0 <= i < |s| && s[i].id == id;
          assert i < |t| ==> t[i].id == id;
        }
      }
    }
  }

  lemma UpdateRefs(s: seq<Slot>, i: nat, x: Slot)
    requires DistinctIds(s) && i < |s| && x.id == s[i].id
    ensures DistinctIds(s[i := x])
    ensures s[i].id in Refs(s) && Refs(s)[s[i].id] == s[i].refcnt
    ensures Refs(s[i := x]) == Refs(s)[x.id := x.refcnt]
  {
    var t := s[i := x];
    RefsSpec(s);
    RefsSpec(t);
    forall id | id in Refs(s) ensures id in Refs(t) && (id != x.id ==> Refs(t)[id] == Refs(s)[id]) {
      var k :| 0 <= k < |s| && s[k].id == id;
      assert t[k].id == id;
    }
    forall id | id in Refs(t) ensures id in Refs(s) {
      var k :| 0 <= k < |t| && t[k].id == id;
      assert s[k].id == id;
    }
    assert t[i].id in Refs(t);
  }

  lemma FrontDistinct(s: seq<Slot>, i: nat)
    requires DistinctIds(s) && i < |s|
    ensures DistinctIds(MoveToFront(s, i))
  {
    var t := MoveToFront(s, i);
    forall j, k | 0 <= j < k < |t| ensures t[j].id != t[k].id {
      MoveToFrontAt(s, i, j);
      MoveToFrontAt(s, i, k);
      assert FrontSource(i, j) != FrontSource(i, k);
    }
  }

  lemma SameElementsRefs(s: seq<Slot>, t: seq<Slot>)
    requires DistinctIds(s) && DistinctIds(t)
    requires forall x :: x in s ==> x in t
    ensures forall id: nat :: id in Refs(s) ==> id in Refs(t) && Refs(t)[id] == Refs(s)[id]
  {
    RefsSpec(s);
    RefsSpec(t);
    forall id: nat | id in Refs(s) ensures id in Refs(t) && Refs(t)[id] == Refs(s)[id] {
      var k :| 0 <= k < |s| && s[k].id == id;
      assert s[k] in t;
    }
  }

  lemma FrontElements<T>(s: seq<T>, i: nat)
    requires i < |s|
    ensures forall x :: x in MoveToFront(s, i) <==> x in s
  {
    forall x ensures x in MoveToFront(s, i) <==> x in s {
      assert s == s[..i] + [s[i]] + s[i + 1..];
    }
  }

  lemma FrontRefs(s: seq<Slot>, i: nat)
    requires DistinctIds(s) && i < |s|
    ensures DistinctIds(MoveToFront(s, i))
    ensures Refs(MoveToFront(s, i)) == Refs(s)
  {
    var t := MoveToFront(s, i);
    FrontDistinct(s, i);
    FrontElements(s, i);
    SameElementsRefs(s, t);
    SameElementsRefs(t, s);
    assert Refs(s) == Refs(t);
  }

  ghost predicate HasZero(m: map<nat, nat>) {
    exists id: nat :: id in m && m[id] == 0
  }

  lemma SpareRefs(c: Cache)
    requires DistinctIds(c.slots)
    ensures Spare(c) <==> HasZero(Refs(c.slots))
  {
    var m := Refs(c.slots);
    RefsSpec(c.slots);
    if Spare(c) {
      var i :| 0 <= i < |c.slots| && c.slots[i].refcnt == 0;
      assert c.slots[i].id in m && m[c.slots[i].id] == 0;
    }
    if HasZero(m) {
      var id: nat :| id in m && m[id] == 0;
      var i :| 0 <= i < |c.slots| && c.slots[i].id == id;
      assert c.slots[i].refcnt == 0;
    }
  }

  // The operations as their callers see them
  // ----------------------------------------

  ghost predicate Sound(c: Cache) {
    Inv(c) && DistinctIds(c.slots)
  }

  /** Buffer i is held and has the live copy of block n. */
  ghost predicate Held(c: Cache, i: nat, n: nat) {
    && i < |c.slots| && n < DISKSIZE
    && c.slots[i].blockno == n && c.slots[i].valid && c.slots[i].refcnt > 0
  }

  ghost predicate SameViews(c: Cache, d: Cache)
    requires OnDisk(c) && OnDisk(d)
  {
    forall m :: 0 <= m < DISKSIZE ==> View(d, m) == View(c, m)
  }

  /** d has one more reference than c, to its buffer i. */
  ghost predicate OneMore(c: Cache, d: Cache, i: nat)
    requires Sound(c) && Sound(d) && i < |d.slots|
  {
    d.slots[i].id in Refs(c.slots)
    && Refs(d.slots) == Refs(c.slots)[d.slots[i].id := Refs(c.slots)[d.slots[i].id] + 1]
  }

  /** A buffer that nobody held comes with the data on disk. */
  lemma BReadOnDisk(c: Cache, n: nat)
    requires Inv(c) && n < DISKSIZE && BRead(c, n).Some?
    ensures var (d, i) := BRead(c, n).value;
      i < |d.slots| && (d.slots[i].refcnt == 1 ==> n < |d.disk| && d.slots[i].data == d.disk[n])
  {
    hide Find, LastFree;
  }

  lemma BReadEffect(c: Cache, n: nat)
    requires Sound(c) && n < DISKSIZE && BRead(c, n).Some?
    ensures var (d, i) := BRead(c, n).value;
      && Sound(d) && Held(d, i, n) && d.slots[i].data == View(c, n) == View(d, n)
      && SameViews(c, d) && d.disk == c.disk && OneMore(c, d, i)
      && (d.slots[i].refcnt == 1 ==> d.slots[i].data == d.disk[n])
      && (Clean(c) ==> Clean(d))
  {
    hide BRead, View, Find, Refs, DistinctIds, NoStaleTwin, UnusedIsZero, Coherent;
    BReadInv(c, n);
    BReadOnDisk(c, n);
    var (d, i) := BRead(c, n).value;
    assert d.slots == c.slots[i := d.slots[i]];
    UpdateRefs(c.slots, i, d.slots[i]);
    forall m | 0 <= m < DISKSIZE ensures View(d, m) == View(c, m) {
      BReadView(c, n, m);
    }
    BReadView(c, n, n);
    if Clean(c) {
      CleanView(c, n);
    }
  }

  /** Without a spare buffer only cached blocks can be read, and stay cached. */
  lemma BReadCached(c: Cache, n: nat, m: nat)
    requires n < |c.disk| && BRead(c, n).Some? && !Spare(c)
    ensures Cached(c, n) && (Cached(BRead(c, n).value.0, m) <==> Cached(c, m))
  {
    var d := BRead(c, n).value.0;
    assert forall k :: 0 <= k < |c.slots| ==> d.slots[k].blockno == c.slots[k].blockno;
  }

  lemma BRelseCached(c: Cache, i: nat, m: nat)
    requires i < |c.slots| && c.slots[i].refcnt > 0
    ensures Cached(BRelse(c, i), m) <==> Cached(c, m)
  {
    var s := c.slots[i := c.slots[i].(refcnt := c.slots[i].refcnt - 1)];
    var t := BRelse(c, i).slots;
    var f, g := Find(c.slots, m), Find(t, m);
    if f < |s| {
      MoveToFrontAt(s, i, f);
      assert t[if s[i].refcnt == 0 then MovedTo(i, f) else f].blockno == m;
    }
    if g < |t| {
      MoveToFrontAt(s, i, g);
      assert c.slots[if s[i].refcnt == 0 then FrontSource(i, g) else g].blockno == m;
    }
  }

  lemma CleanRelse(c: Cache, i: nat)
    requires OnDisk(c) && Clean(c) && i < |c.slots| && c.slots[i].refcnt > 0
    ensures OnDisk(BRelse(c, i)) && Clean(BRelse(c, i))
  {
    var s := c.slots[i := c.slots[i].(refcnt := c.slots[i].refcnt - 1)];
    if s[i].refcnt == 0 {
      forall k | 0 <= k < |s| ensures MoveToFront(s, i)[k] == s[FrontSource(i, k)] {
        MoveToFrontAt(s, i, k);
      }
    }
  }

  lemma BRelseRefs(c: Cache, i: nat)
    requires DistinctIds(c.slots) && i < |c.slots| && c.slots[i].refcnt > 0
    ensures DistinctIds(BRelse(c, i).slots)
    ensures c.slots[i].id in Refs(c.slots)
    ensures Refs(BRelse(c, i).slots) == Refs(c.slots)[c.slots[i].id := c.slots[i].refcnt - 1]
  {
    var x := c.slots[i].(refcnt := c.slots[i].refcnt - 1);
    UpdateRefs(c.slots, i, x);
    if x.refcnt == 0 {
      FrontRefs(c.slots[i := x], i);
    }
  }

  lemma SameSpare(c: Cache, d: Cache)
    requires DistinctIds(c.slots) && DistinctIds(d.slots) && Refs(c.slots) == Refs(d.slots)
    ensures Spare(c) <==> Spare(d)
  {
    SpareRefs(c);
    SpareRefs(d);
  }

  lemma BRelseViews(c: Cache, i: nat)
    requires Inv(c) && i < |c.slots| && c.slots[i].refcnt > 0
    requires c.slots[i].refcnt == 1 ==> c.slots[i].data == c.disk[c.slots[i].blockno]
    ensures Inv(BRelse(c, i)) && SameViews(c, BRelse(c, i)) && BRelse(c, i).disk == c.disk
    ensures Clean(c) ==> Clean(BRelse(c, i))
  {
    BRelseInv(c, i);
    forall m | 0 <= m < DISKSIZE ensures View(BRelse(c, i), m) == View(c, m) {
      BRelseView(c, i, m);
    }
    if Clean(c) {
      CleanRelse(c, i);
    }
  }

  /** Once its changes are on disk, releasing a buffer undoes bread. */
  lemma BRelseEffect(c0: Cache, c: Cache, i: nat, n: nat)
    requires Sound(c0) && Sound(c) && Held(c, i, n) && OneMore(c0, c, i)
    requires c.slots[i].refcnt == 1 ==> c.slots[i].data == c.disk[n]
    ensures Sound(BRelse(c, i)) && SameViews(c, BRelse(c, i)) && BRelse(c, i).disk == c.disk
    ensures Refs(BRelse(c, i).slots) == Refs(c0.slots)
    ensures Spare(BRelse(c, i)) <==> Spare(c0)
    ensures Clean(c) ==> Clean(BRelse(c, i))
  {
    hide BRelse, View, Find, Refs, DistinctIds, NoStaleTwin, UnusedIsZero, Coherent;
    BRelseRefs(c, i);
    BRelseViews(c, i);
    var m, id := Refs(c0.slots), c.slots[i].id;
    UpdateRefs(c.slots, i, c.slots[i]);
    assert Refs(c.slots)[id] == m[id] + 1;
    assert m[id := m[id] + 1][id := m[id]] == m;
    SameSpare(c0, BRelse(c, i));
  }
}
