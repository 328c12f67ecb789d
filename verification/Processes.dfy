/** Process descriptors and the round-robin selector (kernel/process.c). */
module Processes {
  import opened Bits
  import opened Halting

  const NPROC: nat := 64
  const TIME_QUANTUM: uint64 := 100000

  datatype ProcessState = CREATED | READY | RUNNING

  type Registers = r: seq<uint64> | |r| == 31 witness seq(31, _ => 0)

  class ProcessDescriptor {
    // save area
    var reg: Registers
    var epc: uint64
    var satp: nat

    var slotAllocated: bool
    var timeLeft: uint64
    var state: ProcessState

    constructor () {
      reg, epc, satp := seq(31, _ => 0), 0, 0;
      slotAllocated, timeLeft, state := false, 0, CREATED;
    }
  }

  // What the selector depends on
  // ----------------------------

  datatype Slot = Slot(taken: bool, state: ProcessState, timeLeft: uint64) {
    predicate Ready() {
      taken && state == READY
    }
  }

  type Slots = s: seq<Slot> | |s| == 64 witness seq(64, _ => Slot(false, CREATED, 0))

  /** The numbers from lo up to hi. */
  ghost function Ints(lo: nat, hi: nat): (r: seq<nat>)
    ensures |r| == if lo < hi then hi - lo else 0
    ensures forall i :: 0 <= i < |r| ==> r[i] == lo + i
  {
    if lo < hi then Ints(lo, hi - 1) + [hi - 1] else []
  }

  /** Every slot number, in the cyclic order that starts at `from`. */
  ghost function Around(from: nat): (r: seq<nat>)
    requires from <= NPROC
    ensures |r| == NPROC
    ensures forall i :: 0 <= i < NPROC ==> r[i] == (from + i) % NPROC
  {
    Ints(from, NPROC) + Ints(0, from)
  }

  /** Those of the listed slots that are ready. */
  ghost function ReadyIn(slots: Slots, ps: seq<nat>): seq<nat> {
    if ps == [] then []
    else if ps[0] < NPROC && slots[ps[0]].Ready() then [ps[0]] + ReadyIn(slots, ps[1..])
    else ReadyIn(slots, ps[1..])
  }

  datatype Sched = Sched(current: nat, slots: Slots) {
    predicate Valid() {
      current < NPROC
    }

    /** The current process keeps the processor. */
    predicate Stays()
      requires Valid()
    {
      slots[current].Ready() && slots[current].timeLeft > 0
    }

    /** The slot looked at first. */
    function First(): nat
      requires Valid()
    {
      if Stays() then current else current + 1
    }

    /** The order in which the ready processes get the processor. */
    ghost function Order(): seq<nat>
      requires Valid()
    {
      ReadyIn(slots, Around(First()))
    }

    /** Process p is given the processor. */
    function Dispatch(p: nat): Sched
      requires Valid() && p < NPROC
    {
      var time := if Stays() then slots[p].timeLeft else TIME_QUANTUM;
      Sched(p, slots[p := slots[p].(state := RUNNING, timeLeft := time)])
    }
  }

  /** One selection: the process that gets the processor is the new current one. */
  ghost function Select(s: Sched): (r: Option<Sched>)
    requires s.Valid()
    ensures r.Some? ==> r.value.Valid()
  {
    if s.Order() == [] then None
    else
      ReadyInHas(s.slots, Around(s.First()), s.Order()[0]);
      Some(s.Dispatch(s.Order()[0]))
  }

  /** n selections in a row with nothing else happening in between: the
      processes chosen, and the state left. */
  ghost function Run(s: Sched, n: nat): (r: Option<(seq<nat>, Sched)>)
    requires s.Valid()
    ensures r.Some? ==> r.value.1.Valid()
  {
    if n == 0 then Some(([], s))
    else
      var before := Run(s, n - 1);
      if before.None? then None
      else
        var next := Select(before.value.1);
        if next.None? then None else Some((before.value.0 + [next.value.current], next.value))
  }

  lemma {:induction false} ReadyInHas(slots: Slots, ps: seq<nat>, p: nat)
    ensures p in ReadyIn(slots, ps) <==> p in ps && p < NPROC && slots[p].Ready()
  {
    if ps != [] {
      ReadyInHas(slots, ps[1..], p);
      assert p in ps <==> p == ps[0] || p in ps[1..];
    }
  }

  lemma {:induction false} ReadyInAppend(slots: Slots, ps: seq<nat>, qs: seq<nat>)
    ensures ReadyIn(slots, ps + qs) == ReadyIn(slots, ps) + ReadyIn(slots, qs)
  {
    if ps == [] {
      assert ps + qs == qs;
    } else {
      assert (ps + qs)[1..] == ps[1..] + qs;
      ReadyInAppend(slots, ps[1..], qs);
    }
  }

  lemma IntsAt(lo: nat, p: nat, hi: nat)
    requires lo <= p < hi
    ensures Ints(lo, hi) == Ints(lo, p) + [p] + Ints(p + 1, hi)
    ensures Ints(lo, p + 1) == Ints(lo, p) + [p]
  {
  }

  lemma IntsFrom(lo: nat, mid: nat, hi: nat)
    requires lo <= mid <= hi
    ensures Ints(lo, hi) == Ints(lo, mid) + Ints(mid, hi)
  {
  }

  /** The order lists the ready processes and no others. */
  lemma OrderListsReady(s: Sched, p: nat)
    requires s.Valid()
    ensures p in s.Order() <==> p < NPROC && s.slots[p].Ready()
  {
    ReadyInHas(s.slots, Around(s.First()), p);
    if p < NPROC {
      var i := if p >= s.First() then p - s.First() else p + NPROC - s.First();
      assert Around(s.First())[i] == p;
    }
  }

  /** A subsequence of ps, in the order of ps. */
  ghost predicate Embeds(qs: seq<nat>, ps: seq<nat>) {
    if qs == [] then true
    else ps != [] && if qs[0] == ps[0] then Embeds(qs[1..], ps[1..]) else Embeds(qs, ps[1..])
  }

  /** Each ready process once, in the cyclic order of the table: the current
      one first if it is ready with time left, last if it is ready without. */
  lemma {:induction false} ReadyInEmbeds(slots: Slots, ps: seq<nat>)
    requires forall i, j :: 0 <= i < j < |ps| ==> ps[i] != ps[j]
    ensures Embeds(ReadyIn(slots, ps), ps)
  {
    if ps != [] {
      assert forall i, j :: 0 <= i < j < |ps[1..]| ==> ps[1..][i] != ps[1..][j];
      ReadyInEmbeds(slots, ps[1..]);
      var qs := ReadyIn(slots, ps[1..]);
      if qs != [] && qs[0] == ps[0] {
        ReadyInHas(slots, ps[1..], qs[0]);
      }
    }
  }

  lemma OrderIsCyclic(s: Sched)
    requires s.Valid()
    ensures Embeds(s.Order(), Around(s.First()))
    ensures Around(s.First())[NPROC - 1] == if s.Stays() then (s.current + 63) % NPROC else s.current
  {
    forall i, j | 0 <= i < j < NPROC ensures Around(s.First())[i] != Around(s.First())[j] {
    }
    ReadyInEmbeds(s.slots, Around(s.First()));
  }

  lemma Swap<T>(a: seq<T>, p: T, b: seq<T>, c: seq<T>)
    ensures a + [p] + b + c == a + [p] + (b + c)
    ensures b + (c + a + [p]) == b + c + a + [p]
    ensures b + c + (a + [p]) == b + c + a + [p]
    ensures c + (a + [p] + b) == c + a + [p] + b
    ensures a + b + (c + [p]) == a + (b + c) + [p]
  {
  }

  /** Slot p splits the cyclic order; the one that starts after it swaps the parts. */
  lemma Rotate(from: nat, p: nat) returns (pre: seq<nat>, post: seq<nat>)
    requires from <= NPROC && p < NPROC
    ensures Around(from) == pre + [p] + post
    ensures Around(p + 1) == post + pre + [p]
    ensures p !in pre && p !in post
  {
    var low, high := Ints(0, from), Ints(from, NPROC);
    if p >= from {
      IntsAt(from, p, NPROC);
      IntsFrom(0, from, p + 1);
      pre, post := Ints(from, p), Ints(p + 1, NPROC) + low;
      Swap(pre, p, Ints(p + 1, NPROC), low);
    } else {
      IntsAt(0, p, from);
      IntsFrom(p + 1, from, NPROC);
      pre, post := high + Ints(0, p), Ints(p + 1, from);
      Swap(Ints(0, p), p, Ints(p + 1, from), high);
      Swap(post, p, high, Ints(0, p));
    }
  }

  lemma {:induction false} DispatchedElsewhere(slots: Slots, p: nat, slot: Slot, ps: seq<nat>)
    requires p < NPROC && p !in ps
    ensures ReadyIn(slots[p := slot], ps) == ReadyIn(slots, ps)
  {
    if ps != [] {
      DispatchedElsewhere(slots, p, slot, ps[1..]);
    }
  }

  /** What is ready when p, the first in the order, no longer is. */
  lemma RestOfOrder(slots: Slots, p: nat, slot: Slot, pre: seq<nat>, post: seq<nat>)
    requires p < NPROC && p !in pre && p !in post && !slot.Ready()
    requires var r := ReadyIn(slots, pre + [p] + post); r != [] && r[0] == p
    ensures ReadyIn(slots[p := slot], post + pre + [p]) == ReadyIn(slots, pre + [p] + post)[1..]
  {
    ReadyInAppend(slots, pre + [p], post);
    ReadyInAppend(slots, pre, [p]);
    ReadyInHas(slots, pre + [p] + post, p);
    if ReadyIn(slots, pre) != [] {
      ReadyInHas(slots, pre, ReadyIn(slots, pre)[0]);
    }
    var t: Slots := slots[p := slot];
    ReadyInAppend(t, post + pre, [p]);
    ReadyInAppend(t, post, pre);
    DispatchedElsewhere(slots, p, slot, pre);
    DispatchedElsewhere(slots, p, slot, post);
  }

  /** A dispatched process is not ready until somebody makes it so: the rest of
      the order is what it was. */
  lemma SelectTakesFirst(s: Sched)
    requires s.Valid() && s.Order() != []
    ensures Select(s).Some? && Select(s).value.current == s.Order()[0]
    ensures Select(s).value.Order() == s.Order()[1..]
  {
    var p := s.Order()[0];
    ReadyInHas(s.slots, Around(s.First()), p);
    var pre, post := Rotate(s.First(), p);
    RestOfOrder(s.slots, p, Select(s).value.slots[p], pre, post);
  }

  lemma {:induction false} RunOrder(s: Sched, n: nat)
    requires s.Valid()
    ensures Run(s, n).Some? <==> n <= |s.Order()|
    ensures Run(s, n).Some? ==> Run(s, n).value.0 == s.Order()[..n]
    ensures Run(s, n).Some? ==> Run(s, n).value.1.Order() == s.Order()[n..]
  {
    if n > 0 {
      RunOrder(s, n - 1);
      if n <= |s.Order()| {
        RunNext(s.Order(), n);
        SelectTakesFirst(Run(s, n - 1).value.1);
      }
    }
  }

  lemma RunNext(order: seq<nat>, n: nat)
    requires 0 < n <= |order|
    ensures order[n - 1..] != [] && order[n - 1..][0] == order[n - 1]
    ensures order[..n] == order[..n - 1] + [order[n - 1]]
    ensures order[n - 1..][1..] == order[n..]
  {
  }

  // What a selection leaves
  // -----------------------

  /** Slot q can be given the processor. */
  ghost predicate CanRun(s: Sched, q: nat) {
    q < 64 && s.slots[q].taken && s.slots[q].state == READY
  }

  /** The current process goes on with the time it has left; any other one
      gets a whole quantum. */
  ghost function TimeFor(s: Sched, q: nat): uint64
    requires q < 64
  {
    if q == s.current && s.slots[q].timeLeft > 0 then s.slots[q].timeLeft else 100000
  }

  /** From s to t one process has been given the processor, and no other slot
      has changed. */
  ghost predicate Given(s: Sched, t: Sched) {
    && CanRun(s, t.current)
    && t.slots[t.current] == Slot(true, RUNNING, TimeFor(s, t.current))
    && forall q :: 0 <= q < 64 && q != t.current ==> t.slots[q] == s.slots[q]
  }

  ghost predicate NothingToRun(s: Sched) {
    forall q: nat :: !CanRun(s, q)
  }

  /** The slot d places behind the current one, round the table. */
  ghost function Behind(s: Sched, d: nat): nat {
    (s.current + d) % 64
  }

  /** It can be given the processor, and none in between can. */
  ghost predicate FirstBehind(s: Sched, d: nat) {
    1 <= d <= 64 && CanRun(s, Behind(s, d)) && forall e: nat :: 1 <= e < d ==> !CanRun(s, Behind(s, e))
  }

  /** The process chosen: the current one if it is ready with time left, and
      otherwise the nearest ready one behind it, itself the last. */
  ghost predicate Nearest(s: Sched, p: nat) {
    if CanRun(s, s.current) && s.slots[s.current].timeLeft > 0 then p == s.current
    else exists d: nat :: FirstBehind(s, d) && p == Behind(s, d)
  }

  lemma SelectGives(s: Sched)
    requires s.Valid()
    ensures Select(s).None? <==> NothingToRun(s)
    ensures Select(s).Some? ==> Given(s, Select(s).value)
  {
    hide ReadyIn, Around;
    if s.Order() == [] {
      forall q: nat ensures !CanRun(s, q) {
        OrderListsReady(s, q);
      }
    } else {
      OrderListsReady(s, s.Order()[0]);
      assert CanRun(s, s.Order()[0]);
      FirstLook(s);
    }
  }

  lemma {:induction false} SearchBehind(s: Sched, i: nat)
    requires s.Valid() && !s.Stays() && Select(s).Some? && NoneBefore(s, i)
    requires forall e: nat :: 1 <= e < 1 + i ==> !CanRun(s, Behind(s, e))
    ensures exists d: nat :: FirstBehind(s, d) && Select(s).value.current == Behind(s, d)
    decreases NPROC - i
  {
    hide Around, ReadyIn, Select, NoneBefore;
    if i < NPROC {
      LookNext(s, i);
      assert Around(s.First())[i] == Behind(s, i + 1);
      if CanRun(s, Behind(s, i + 1)) {
        assert FirstBehind(s, i + 1);
      } else {
        SearchBehind(s, i + 1);
      }
    } else {
      SearchEnds(s, i);
    }
  }

  lemma SearchEnds(s: Sched, i: nat)
    requires s.Valid() && i >= NPROC && NoneBefore(s, i)
    ensures Select(s) == None
  {
    NoneAtEnd(s);
  }

  lemma SelectNearest(s: Sched)
    requires s.Valid() && Select(s).Some?
    ensures Nearest(s, Select(s).value.current)
  {
    hide Around, ReadyIn, Select, NoneBefore;
    FirstLook(s);
    if !s.Stays() {
      NoneAtStart(s);
      SearchBehind(s, 0);
    }
  }

  /** Each process of the order runs with its time, and the others are as they were. */
  ghost predicate RunGiven(s: Sched, t: Sched, ran: seq<nat>) {
    && (forall q: nat :: q < 64 && q in ran ==> t.slots[q] == Slot(true, RUNNING, TimeFor(s, q)))
    && (forall q: nat :: q < 64 && q !in ran ==> t.slots[q] == s.slots[q])
    && t.current == (if ran == [] then s.current else ran[|ran| - 1])
  }

  lemma RunGivenNext(s: Sched, u: Sched, t: Sched, ran: seq<nat>)
    requires s.Valid() && RunGiven(s, u, ran) && Given(u, t)
    requires Stay(s, ran)
    ensures RunGiven(s, t, ran + [t.current])
  {
  }

  /** A process that may stay is the first to run. */
  ghost predicate Stay(s: Sched, ran: seq<nat>)
    requires s.Valid()
  {
    ran != [] && CanRun(s, s.current) && s.slots[s.current].timeLeft > 0 ==> s.current in ran
  }

  lemma {:induction false} RunTimes(s: Sched, n: nat)
    requires s.Valid() && n <= |s.Order()|
    ensures Run(s, n).Some? && RunGiven(s, Run(s, n).value.1, s.Order()[..n])
  {
    RunOrder(s, n);
    if n > 0 {
      hide Sched.Order, Select, Given, RunGiven, Stay;
      RunTimes(s, n - 1);
      RunOrder(s, n - 1);
      RunNext(s.Order(), n);
      var u := Run(s, n - 1).value.1;
      SelectTakesFirst(u);
      SelectGives(u);
      StaysFirst(s, n - 1);
      RunGivenNext(s, u, Select(u).value, s.Order()[..n - 1]);
    }
  }

  lemma StaysFirst(s: Sched, n: nat)
    requires s.Valid() && n <= |s.Order()|
    ensures Stay(s, s.Order()[..n])
  {
    hide Around, ReadyIn;
    FirstLook(s);
    if n > 0 && s.Stays() {
      assert s.Order()[..n][0] == s.current;
    }
  }

  /** With no process created or made ready in between, each ready process is
      dispatched exactly once, in order and with its time, and the call after
      that fails. */
  lemma RunFollowsOrder(s: Sched, n: nat)
    requires s.Valid()
    ensures Run(s, n).Some? <==> n <= |s.Order()|
    ensures Run(s, n).Some? ==> Run(s, n).value.0 == s.Order()[..n]
    ensures Run(s, n).Some? ==> Run(s, n).value.1.Order() == s.Order()[n..]
    ensures Run(s, n).Some? ==> RunGiven(s, Run(s, n).value.1, s.Order()[..n])
  {
    RunOrder(s, n);
    if n <= |s.Order()| {
      RunTimes(s, n);
    }
  }

  // The table
  // ---------

  ghost function SlotOf(d: ProcessDescriptor): Slot
    reads d
  {
    Slot(d.slotAllocated, d.state, d.timeLeft)
  }

  class ProcessTable {
    const pd: seq<ProcessDescriptor>
    var currentProcess: nat

    ghost predicate Valid()
      reads this
    {
      && |pd| == NPROC && currentProcess < NPROC
      && forall i, j :: 0 <= i < j < NPROC ==> pd[i] != pd[j]
    }

    ghost function SlotsNow(): Slots
      requires |pd| == NPROC
      reads pd
    {
      seq(NPROC, i requires 0 <= i < NPROC reads pd => SlotOf(pd[i]))
    }

    ghost function Abs(): Sched
      requires |pd| == NPROC
      reads this, pd
    {
      Sched(currentProcess, SlotsNow())
    }

    /** procesDescriptorInit. */
    constructor (descriptors: seq<ProcessDescriptor>)
      requires |descriptors| == NPROC
      requires forall i, j :: 0 <= i < j < NPROC ==> descriptors[i] != descriptors[j]
      modifies descriptors`slotAllocated
      ensures Valid() && pd == descriptors && Abs().Order() == []
      ensures currentProcess == 0 && forall i :: 0 <= i < NPROC ==> !pd[i].slotAllocated
    {
      pd := descriptors;
      currentProcess := 0;
      new;
      for i := 0 to NPROC
        invariant Valid() && currentProcess == 0
        invariant forall k :: 0 <= k < i ==> !pd[k].slotAllocated
      {
        pd[i].slotAllocated := false;
      }
      if Abs().Order() != [] {
        ReadyInHas(SlotsNow(), Around(Abs().First()), Abs().Order()[0]);
      }
    }

    /** Makes a process run. */
    method StartRunning(d: ProcessDescriptor, ghost p: nat, time: uint64)
      requires Valid() && p < NPROC && pd[p] == d
      modifies d`state, d`timeLeft
      ensures SlotsNow() == old(SlotsNow())[p := old(SlotsNow())[p].(state := RUNNING, timeLeft := time)]
    {
      d.timeLeft := time;
      d.state := RUNNING;
    }

    /** Selects the next process to run, which is then the current one. */
    method SelectProcessToRun() returns (r: Result<()>)
      requires Valid()
      modifies this`currentProcess, pd`state, pd`timeLeft
      ensures Valid()
      ensures var next := Select(old(Abs()));
        if next.Some? then r == Ok(()) && Abs() == next.value
        else r == Halt(NoProcessToRun) && SlotsNow() == old(SlotsNow())
      ensures r.Ok? ==> Given(old(Abs()), Abs()) && Nearest(old(Abs()), currentProcess)
      ensures r.Halt? <==> NothingToRun(old(Abs()))
    {
      hide Around, ReadyIn, NoneBefore, Select, Given, Nearest, NothingToRun;
      ghost var s := Abs();
      SelectGives(s);
      if Select(s).Some? {
        SelectNearest(s);
      }
      NoneAtStart(s);
      FirstLook(s);
      if pd[currentProcess].slotAllocated && pd[currentProcess].state == READY && pd[currentProcess].timeLeft > 0 {
        StartRunning(pd[currentProcess], currentProcess, pd[currentProcess].timeLeft);
        return Ok(());
      }
      currentProcess := (currentProcess + 1) % NPROC;
      for i := 0 to NPROC
        invariant Valid() && Abs() == s.(current := currentProcess)
        invariant i < NPROC ==> currentProcess == Around(s.First())[i]
        invariant NoneBefore(s, i)
      {
        Following(s, i);
        LookNext(s, i);
        if pd[currentProcess].slotAllocated && pd[currentProcess].state == READY {
          StartRunning(pd[currentProcess], currentProcess, TIME_QUANTUM);
          return Ok(());
        }
        currentProcess := (currentProcess + 1) % NPROC;
      }
      NoneAtEnd(s);
      return Halt(NoProcessToRun);
    }
  }

  /** The first i slots looked at are not ready. */
  ghost predicate NoneBefore(s: Sched, i: nat)
    requires s.Valid()
  {
    i <= NPROC && ReadyIn(s.slots, Around(s.First())[..i]) == []
  }

  lemma NoneAtStart(s: Sched)
    requires s.Valid()
    ensures NoneBefore(s, 0)
  {
    assert Around(s.First())[..0] == [];
  }

  /** The slot looked at after slot p is the next round the table. */
  lemma Following(s: Sched, i: nat)
    requires s.Valid() && i < NPROC
    ensures var p := Around(s.First())[i];
      p < NPROC && (i + 1 < NPROC ==> Around(s.First())[i + 1] == (p + 1) % NPROC)
  {
  }

  lemma LookNext(s: Sched, i: nat)
    requires s.Valid() && i < NPROC && NoneBefore(s, i)
    ensures var p := Around(s.First())[i];
      p < NPROC && if s.slots[p].Ready() then Select(s) == Some(s.Dispatch(p)) else NoneBefore(s, i + 1)
  {
    hide Around;
    Following(s, i);
    var order := Around(s.First());
    assert order == order[..i] + order[i..];
    ReadyInAppend(s.slots, order[..i], order[i..]);
    assert order[..i + 1] == order[..i] + [order[i]];
    ReadyInAppend(s.slots, order[..i], [order[i]]);
  }

  /** The current process is looked at first, if it may stay, and then chosen. */
  lemma FirstLook(s: Sched)
    requires s.Valid()
    ensures Around(s.First())[0] == if s.Stays() then s.current else (s.current + 1) % NPROC
    ensures s.Stays() ==> Select(s) == Some(s.Dispatch(s.current))
  {
    NoneAtStart(s);
    LookNext(s, 0);
  }

  lemma NoneAtEnd(s: Sched)
    requires s.Valid() && NoneBefore(s, NPROC)
    ensures Select(s) == None
  {
    hide Around;
    assert Around(s.First())[..NPROC] == Around(s.First());
  }
}
