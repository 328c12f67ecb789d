/**
 Which reads reach the disk: runs of the cache in which every buffer is released
 before the next one is asked for.
 */
module Lru {
  import opened CacheSpec
  import opened Seqs

  ghost predicate Idle(s: seq<Slot>) {
    |s| > 0 && forall i :: 0 <= i < |s| ==> s[i].refcnt == 0
  }

  /** Does bread(n) have to transfer the block? */
  ghost predicate IssuesRead(s: seq<Slot>, n: nat) {
    var g := BGet(s, n);
    g.Some? && g.value.1 < |g.value.0| && !g.value.0[g.value.1].valid
  }

  /** bread and brelse of block n. */
  ghost function Access(c: Cache, n: nat): Cache
    requires Idle(c.slots) && n < |c.disk|
  {
    var (d, i) := BRead(c, n).value;
    BRelse(d, i)
  }

  lemma AccessIdle(c: Cache, n: nat)
    requires Idle(c.slots) && n < |c.disk|
    ensures Idle(Access(c, n).slots) && Access(c, n).disk == c.disk
    ensures |Access(c, n).slots| == |c.slots|
  {
    var (d, i) := BRead(c, n).value;
    var t := d.slots[i := d.slots[i].(refcnt := 0)];
    assert forall k :: 0 <= k < |t| ==> t[k].refcnt == 0;
    assert Access(c, n).slots == MoveToFront(t, i);
    FrontIdle(t, i);
  }

  lemma FrontIdle(t: seq<Slot>, i: nat)
    requires Idle(t) && i < |t|
    ensures Idle(MoveToFront(t, i)) && |MoveToFront(t, i)| == |t|
  {
    forall k | 0 <= k < |t| ensures MoveToFront(t, i)[k] == t[FrontSource(i, k)] {
      MoveToFrontAt(t, i, k);
    }
  }

  ghost predicate ValidTrace(trace: seq<nat>, blocks: nat) {
    forall i :: 0 <= i < |trace| ==> trace[i] < blocks
  }

  /** The cache after a run of accesses from c. */
  ghost function Run(c: Cache, trace: seq<nat>): (d: Cache)
    requires Idle(c.slots) && ValidTrace(trace, |c.disk|)
    ensures Idle(d.slots) && d.disk == c.disk && |d.slots| == |c.slots|
  {
    if trace == [] then c
    else
      var last := |trace| - 1;
      AccessIdle(Run(c, trace[..last]), trace[last]);
      Access(Run(c, trace[..last]), trace[last])
  }

  // Recency
  // -------

  /** Blocks accessed after the last access to n; all of them if n is not accessed. */
  ghost function Since(trace: seq<nat>, n: nat): set<nat> {
    if trace == [] then {}
    else
      var last := |trace| - 1;
      if trace[last] == n then {} else Since(trace[..last], n) + {trace[last]}
  }

  /** n is one of the k most recently accessed distinct blocks. */
  ghost predicate AmongLast(trace: seq<nat>, n: nat, k: nat) {
    n in trace && |Since(trace, n)| < k
  }

  function Remove(s: seq<nat>, n: nat): seq<nat> {
    if s == [] then [] else if s[0] == n then s[1..] else [s[0]] + Remove(s[1..], n)
  }

  /** The distinct blocks of a run, most recently accessed first. */
  ghost function Recent(trace: seq<nat>): seq<nat> {
    if trace == [] then []
    else
      var last := |trace| - 1;
      [trace[last]] + Remove(Recent(trace[..last]), trace[last])
  }

  lemma {:induction false} RemoveAt(s: seq<nat>, f: nat)
    requires Distinct(s) && f < |s|
    ensures Remove(s, s[f]) == s[..f] + s[f + 1..]
  {
    if f == 0 {
    } else {
      RemoveAt(s[1..], f - 1);
      assert s[0] != s[f];
      assert s[..f] == [s[0]] + s[1..][..f - 1];
      assert s[f + 1..] == s[1..][f..];
    }
  }

  lemma {:induction false} RemoveAbsent(s: seq<nat>, n: nat)
    requires n !in s
    ensures Remove(s, n) == s
  {
    if s != [] {
      RemoveAbsent(s[1..], n);
      assert s == [s[0]] + s[1..];
    }
  }

  lemma {:induction false} RemoveSpec(s: seq<nat>, n: nat)
    requires Distinct(s)
    ensures Distinct(Remove(s, n))
    ensures forall x :: x in Remove(s, n) <==> x in s && x != n
  {
    if s != [] {
      var t := s[1..];
      RemoveSpec(t, n);
      assert s == [s[0]] + t;
      assert s[0] !in t;
      if s[0] != n {
        DistinctAppend([s[0]], Remove(t, n));
      }
    }
  }

  lemma {:induction false} RecentSpec(trace: seq<nat>)
    ensures Distinct(Recent(trace))
    ensures forall n :: n in Recent(trace) <==> n in trace
  {
    if trace != [] {
      var last := |trace| - 1;
      var t, n := trace[..last], trace[last];
      RecentSpec(t);
      assert trace == t + [n];
      RemoveSpec(Recent(t), n);
      DistinctAppend([n], Remove(Recent(t), n));
    }
  }

  /** The place of n in the recency list is the number of distinct blocks
      accessed since. */
  lemma {:induction false} RecentPlace(trace: seq<nat>, f: nat)
    requires f < |Recent(trace)|
    ensures Since(trace, Recent(trace)[f]) == Elements(Recent(trace)[..f])
    ensures |Since(trace, Recent(trace)[f])| == f
  {
    RecentSpec(trace);
    RecentElements(trace, f);
    DistinctElements(Recent(trace)[..f]);
  }

  lemma {:induction false} DistinctElements(s: seq<nat>)
    requires Distinct(s)
    ensures |Elements(s)| == |s|
  {
    if s != [] {
      DistinctElements(s[1..]);
      assert Elements(s) == {s[0]} + Elements(s[1..]);
    }
  }

  lemma ElementsCons(n: nat, s: seq<nat>)
    ensures Elements([n] + s) == {n} + Elements(s)
  {
  }

  lemma SameButOne(a: seq<nat>, x: nat, b: seq<nat>)
    ensures {x} + Elements(a + b) == {x} + Elements(a + [x] + b)
  {
  }

  lemma BeforeRemoved(r: seq<nat>, g: nat, f: nat)
    requires Distinct(r) && f < g < |r|
    ensures |Remove(r, r[g])| == |r| - 1 && Remove(r, r[g])[f] == r[f]
    ensures Remove(r, r[g])[..f] == r[..f]
  {
    RemoveAt(r, g);
  }

  lemma AfterRemoved(r: seq<nat>, g: nat, f: nat)
    requires Distinct(r) && g <= f < |r| - 1
    ensures |Remove(r, r[g])| == |r| - 1 && Remove(r, r[g])[f] == r[f + 1]
    ensures {r[g]} + Elements(Remove(r, r[g])[..f]) == {r[g]} + Elements(r[..f + 1])
  {
    RemoveAt(r, g);
    assert Remove(r, r[g])[..f] == r[..g] + r[g + 1..f + 1];
    assert r[..f + 1] == r[..g] + [r[g]] + r[g + 1..f + 1];
    SameButOne(r[..g], r[g], r[g + 1..f + 1]);
  }

  // Taking n out of the list does not change what stands before, but for n.
  lemma ElementsBefore(r: seq<nat>, n: nat, f: nat) returns (h: nat)
    requires Distinct(r) && f < |Remove(r, n)|
    ensures h < |r| && Remove(r, n)[f] == r[h]
    ensures {n} + Elements(Remove(r, n)[..f]) == {n} + Elements(r[..h])
  {
    if n in r {
      var g :| 0 <= g < |r| && r[g] == n;
      RemoveAt(r, g);
      if f < g {
        BeforeRemoved(r, g, f);
        h := f;
      } else {
        AfterRemoved(r, g, f);
        h := f + 1;
      }
    } else {
      RemoveAbsent(r, n);
      h := f;
    }
  }

  lemma SinceNext(t: seq<nat>, n: nat, x: nat)
    requires x != n
    ensures Since(t + [n], x) == {n} + Since(t, x)
  {
    assert (t + [n])[..|t|] == t;
  }

  lemma {:induction false} RecentElements(trace: seq<nat>, f: nat)
    requires f < |Recent(trace)|
    ensures Since(trace, Recent(trace)[f]) == Elements(Recent(trace)[..f])
  {
    if f > 0 {
      var last := |trace| - 1;
      var t, n := trace[..last], trace[last];
      RecentSpec(trace);
      RecentSpec(t);
      assert trace == t + [n];
      var rest := Remove(Recent(t), n);
      assert Recent(trace)[..f] == [n] + rest[..f - 1];
      ElementsCons(n, rest[..f - 1]);
      var h := ElementsBefore(Recent(t), n, f - 1);
      RecentElements(t, h);
      assert Recent(trace)[f] == Recent(t)[h] && Recent(trace)[0] == n;
      SinceNext(t, n, Recent(t)[h]);
    }
  }

  // The cache holds the most recent blocks
  // --------------------------------------

  function Min(a: nat, b: nat): nat { if a < b then a else b }

  /** The used buffers come first and carry the recency list as far as it fits. */
  ghost predicate HoldsRecent(s: seq<Slot>, r: seq<nat>) {
    forall i :: 0 <= i < |s| ==>
      if i < |r| then s[i].valid && s[i].blockno == r[i] else !s[i].valid && s[i].blockno == 0
  }

  /** An access brings one buffer to the front: the one that has the block,
      or else the last one. */
  lemma AccessShape(c: Cache, n: nat) returns (p: nat)
    requires Idle(c.slots) && n < |c.disk|
    ensures p < |c.slots| == |Access(c, n).slots|
    ensures p == if Find(c.slots, n) < |c.slots| then Find(c.slots, n) else |c.slots| - 1
    ensures IssuesRead(c.slots, n) <==> c.slots[p].blockno != n || !c.slots[p].valid
    ensures var e := Access(c, n).slots;
      && e[0].valid && e[0].blockno == n
      && forall k {:trigger e[k]} :: 1 <= k < |e| ==> e[k] == if k <= p then c.slots[k - 1] else c.slots[k]
  {
    var s := c.slots;
    var (d, i) := BRead(c, n).value;
    p := i;
    var t := d.slots[i := d.slots[i].(refcnt := 0)];
    forall k | 0 <= k < |s|
      ensures MoveToFront(t, i)[k] == t[FrontSource(i, k)]
    {
      MoveToFrontAt(t, i, k);
    }
    assert Access(c, n).slots == MoveToFront(t, i);
  }

  lemma FindInRecent(s: seq<Slot>, r: seq<nat>, n: nat)
    requires HoldsRecent(s, r) && Distinct(r)
    ensures forall f :: 0 <= f < |r| && r[f] == n && f < |s| ==> Find(s, n) == f
    ensures n !in r && Find(s, n) < |s| ==> Find(s, n) >= |r|
    ensures |s| <= |r| && n !in r[..|s|] ==> Find(s, n) == |s|
  {
  }

  // e is s with the buffer at p brought to the front, now holding n.
  ghost predicate Fronted(s: seq<Slot>, e: seq<Slot>, p: nat, n: nat) {
    && p < |s| == |e|
    && e[0].valid && e[0].blockno == n
    && forall k {:trigger e[k]} :: 1 <= k < |e| ==> e[k] == if k <= p then s[k - 1] else s[k]
  }

  lemma FrontedPresent(s: seq<Slot>, e: seq<Slot>, r: seq<nat>, f: nat, p: nat)
    requires HoldsRecent(s, r) && Distinct(r) && f < |r|
    requires Fronted(s, e, p, r[f]) && p == Min(f, |s| - 1)
    ensures HoldsRecent(e, [r[f]] + Remove(r, r[f]))
  {
    RemoveAt(r, f);
    var q := [r[f]] + Remove(r, r[f]);
    forall i | 0 <= i < |e|
      ensures if i < |q| then e[i].valid && e[i].blockno == q[i] else !e[i].valid && e[i].blockno == 0
    {
      if 1 <= i <= f {
        assert i < |q| ==> q[i] == r[i - 1];
      } else if f < i < |q| {
        assert q[i] == r[i];
      }
    }
  }

  lemma FrontedAbsent(s: seq<Slot>, e: seq<Slot>, r: seq<nat>, n: nat, p: nat)
    requires HoldsRecent(s, r) && n !in r
    requires Fronted(s, e, p, n) && p >= Min(|r|, |s| - 1)
    ensures HoldsRecent(e, [n] + Remove(r, n))
  {
    hide Distinct;
    RemoveAbsent(r, n);
    var all := [n] + r;
    forall i | 0 <= i < |e|
      ensures if i < |all| then e[i].valid && e[i].blockno == all[i] else !e[i].valid && e[i].blockno == 0
    {
      if i > 0 {
        assert e[i] == if i <= p then s[i - 1] else s[i];
      }
    }
  }

  lemma {:induction false} AccessHolds(c: Cache, r: seq<nat>, n: nat)
    requires Idle(c.slots) && n < |c.disk| && HoldsRecent(c.slots, r) && Distinct(r)
    ensures HoldsRecent(Access(c, n).slots, [n] + Remove(r, n))
    ensures IssuesRead(c.slots, n) <==> n !in r[..Min(|r|, |c.slots|)]
  {
    var s := c.slots;
    var p := AccessShape(c, n);
    FindInRecent(s, r, n);
    if f :| 0 <= f < |r| && r[f] == n {
      if f >= |s| {
        assert n !in r[..|s|];
      } else {
        assert r[..Min(|r|, |s|)][f] == n;
      }
      FrontedPresent(s, Access(c, n).slots, r, f, p);
    } else {
      FrontedAbsent(s, Access(c, n).slots, r, n, p);
    }
  }

  /** The buffers after any run from boot. */
  lemma {:induction false} RunHolds(c: Cache, trace: seq<nat>)
    requires Idle(c.slots) && Unused(c.slots) && ValidTrace(trace, |c.disk|)
    ensures HoldsRecent(Run(c, trace).slots, Recent(trace))
  {
    if trace != [] {
      var last := |trace| - 1;
      RunHolds(c, trace[..last]);
      RecentSpec(trace[..last]);
      AccessHolds(Run(c, trace[..last]), Recent(trace[..last]), trace[last]);
    }
  }

  /** A read of n goes to the disk exactly when n is not among the most
      recently accessed distinct blocks, as many as there are buffers. */
  lemma MissesExactly(c: Cache, trace: seq<nat>, n: nat)
    requires Idle(c.slots) && Unused(c.slots) && ValidTrace(trace, |c.disk|)
    requires n < |c.disk|
    ensures IssuesRead(Run(c, trace).slots, n) <==> !AmongLast(trace, n, |c.slots|)
  {
    var r := Recent(trace);
    var k := Min(|r|, |c.slots|);
    RunHolds(c, trace);
    RecentSpec(trace);
    AccessHolds(Run(c, trace), r, n);
    if n in trace {
      var f :| 0 <= f < |r| && r[f] == n;
      RecentPlace(trace, f);
      assert n in r[..k] <==> f < k;
    } else {
      assert n !in r[..k];
    }
  }

  /** More buffers never cost a disk read. */
  lemma MoreBuffersNeverHurt(small: Cache, large: Cache, trace: seq<nat>, n: nat)
    requires Idle(small.slots) && Unused(small.slots) && Idle(large.slots) && Unused(large.slots)
    requires |small.slots| <= |large.slots| && |small.disk| == |large.disk|
    requires n < |small.disk| && ValidTrace(trace, |small.disk|)
    ensures IssuesRead(Run(large, trace).slots, n) ==> IssuesRead(Run(small, trace).slots, n)
  {
    MissesExactly(small, trace, n);
    MissesExactly(large, trace, n);
  }
}
