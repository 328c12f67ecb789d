/**
 Driver, device and interrupt handler as one system of steps. The device takes
 chains in the order they were made available and completes them in any order.
 The one assumption about timing is in Enabled: the wait in diskRW ends only
 when its own completion has been handled.
 */
module VirtioSystem {
  import opened CacheSpec
  import opened Halting
  import opened Seal
  import opened Seqs
  import Q = VirtioQueue

  /** How far a request has come: made available, taken by the device, the n-th
      to be completed, and seen by the interrupt handler. */
  datatype Stage = Queued | Taken | Done(n: nat) | Handled

  /** The id-th request, with its descriptors after the head. */
  datatype Chain = Chain(id: nat, d1: nat, d2: nat, b: nat, blockno: nat, write: bool, stage: Stage)

  datatype Machine = Machine(
    q: Q.Queue,
    // the device
    lastAvail: nat,
    busy: set<nat>,
    disk: seq<Block>,
    bufs: map<nat, Block>,
    // history: requests in flight by head, the request each descriptor is in,
    // counts, and the requests completed, in order
    chains: map<nat, Chain>,
    owner: map<nat, nat>,
    submitted: nat,
    taken: nat,
    completed: nat,
    handled: nat,
    log: seq<nat>
  )

  datatype Event =
    | Submit(b: nat, blockno: nat, write: bool)
    | Take
    | Complete(h: nat, status: nat)
    | Interrupt
    | Finish(h: nat)

  // Steps
  // -----

  ghost predicate Enabled(m: Machine, e: Event)
    requires m.q.Valid()
  {
    match e
    case Submit(b, blockno, write) =>
      // three free descriptors, a block that bread's callers may ask for, and
      // a buffer that is not in a transfer already
      |Q.FreeList(m.q.free)| >= 3 && blockno < DISKSIZE && forall h :: h in m.chains ==> m.chains[h].b != b
    case Take => m.lastAvail != m.q.availIdx
    case Complete(h, status) =>
      // a device reports success only for a request it can carry out
      h in m.busy && (status == 0 ==> CanTransfer(m, Q.RequestAt(m.q, h)))
    case Interrupt => true
    case Finish(h) => h in m.chains && m.chains[h].stage == Handled
  }

  ghost predicate CanTransfer(m: Machine, r: Option<Q.Request>) {
    r.Some? && r.value.sector / 2 < |m.disk| && r.value.b in m.bufs
  }

  /** The device moves one block. */
  ghost function Transfer(m: Machine, r: Q.Request): Machine
    requires CanTransfer(m, Some(r))
  {
    var blk := r.sector / 2;
    if r.write then m.(disk := m.disk[blk := m.bufs[r.b]]) else m.(bufs := m.bufs[r.b := m.disk[blk]])
  }

  ghost function SubmitStep(m: Machine, b: nat, blockno: nat, write: bool): Machine
    requires m.q.Valid() && |Q.FreeList(m.q.free)| >= 3
  {
    var l := Q.FreeList(m.q.free);
    m.(q := Q.Submit(m.q, b, blockno, write, l[0], l[1], l[2]),
       chains := m.chains[l[0] := Chain(m.submitted, l[1], l[2], b, blockno, write, Queued)],
       owner := m.owner[l[0] := l[0]][l[1] := l[0]][l[2] := l[0]],
       submitted := m.submitted + 1)
  }

  ghost function SetStage(chains: map<nat, Chain>, h: nat, s: Stage): map<nat, Chain> {
    if h in chains then chains[h := chains[h].(stage := s)] else chains
  }

  ghost function TakeStep(m: Machine): Machine
    requires m.q.Valid()
  {
    var h := m.q.ring[m.lastAvail % Q.NUM];
    m.(lastAvail := (m.lastAvail + 1) % Q.IDX_LIMIT, busy := m.busy + {h},
       chains := SetStage(m.chains, h, Taken), taken := m.taken + 1)
  }

  /** The device moves the block if it can, writes the status byte, and puts
      the head into the used ring. */
  ghost function CompleteStep(m: Machine, h: nat, status: nat): Machine
    requires m.q.Valid() && (status == 0 ==> CanTransfer(m, Q.RequestAt(m.q, h)))
  {
    var r := Q.RequestAt(m.q, h);
    var t := if status == 0 then Transfer(m, r.value) else m;
    var info := if r.None? then m.q.info else m.q.info[r.value.status := m.q.info[r.value.status].(status := status)];
    t.(q := m.q.(info := info, elems := m.q.elems[m.q.usedId % Q.NUM := h], usedId := (m.q.usedId + 1) % Q.IDX_LIMIT),
       busy := m.busy - {h},
       chains := SetStage(m.chains, h, Done(m.completed)),
       completed := m.completed + 1,
       log := m.log + [if h in m.chains then m.chains[h].id else 0])
  }

  /** One round of the interrupt handler. */
  ghost function HandleStep(m: Machine): Result<Machine>
    requires m.q.Valid()
  {
    var r := Q.HandleOne(m.q);
    if r.Halt? then Halt(r.fault)
    else Ok(m.(q := r.value, chains := SetStage(m.chains, m.q.elems[m.q.usedIdx], Handled), handled := m.handled + 1))
  }

  ghost function InterruptStep(m: Machine): Result<Machine>
    requires m.q.Valid()
    decreases Q.Pending(m.q)
  {
    if Q.Pending(m.q) == 0 then Ok(m)
    else
      var one := HandleStep(m);
      if one.Halt? then one
      else
        Q.PendingDrops(m.q);
        InterruptStep(one.value)
  }

  ghost function FinishStep(m: Machine, h: nat): Result<Machine>
    requires m.q.Valid() && h < Q.NUM
  {
    var r := Q.Finish(m.q, h);
    if r.Halt? then Halt(r.fault)
    else Ok(m.(q := r.value, chains := m.chains - {h}))
  }

  // Invariant
  // ---------

  ghost predicate Counters(m: Machine) {
    && m.q.availIdx == m.submitted % Q.IDX_LIMIT && m.lastAvail == m.taken % Q.IDX_LIMIT
    && m.q.usedId == m.completed % Q.IDX_LIMIT && m.q.usedIdx == m.handled % Q.NUM
    && m.taken <= m.submitted && m.handled <= m.completed && |m.log| == m.completed
  }

  /** What the queue holds for a request in flight. */
  ghost predicate ChainInv(m: Machine, h: nat)
    requires m.q.Valid() && h in m.chains
  {
    var c := m.chains[h];
    && Q.IsChain(m.q, c.b, c.blockno, c.write, h, c.d1, c.d2)
    && m.q.info[h].b == Some(c.b)
    && h in m.owner && c.d1 in m.owner && c.d2 in m.owner
    && m.owner[h] == h && m.owner[c.d1] == h && m.owner[c.d2] == h
    && c.id < m.submitted
    && (c.stage != Handled <==> c.b in m.q.owned)
    && (c.stage.Done? || m.q.info[h].status == 0)
  }

  ghost predicate StageInv(m: Machine, h: nat)
    requires m.q.Valid() && h in m.chains
  {
    var c := m.chains[h];
    match c.stage
    case Queued => m.taken <= c.id && m.q.ring[c.id % Q.NUM] == h && c.id !in m.log
    case Taken => c.id < m.taken && c.id !in m.log
    case Done(n) => c.id < m.taken && m.handled <= n < m.completed && m.q.elems[n % Q.NUM] == h && n < |m.log|
      && m.log[n] == c.id
    case Handled => c.id < m.taken && c.id in m.log
  }

  /** The entries between taken and submitted are requests nobody has taken. */
  ghost predicate RingInv(m: Machine)
    requires m.q.Valid()
  {
    forall k: nat :: m.taken <= k < m.submitted ==>
      RingEntry(m, k) in m.chains && m.chains[RingEntry(m, k)].stage == Queued && m.chains[RingEntry(m, k)].id == k
  }

  ghost function RingEntry(m: Machine, k: nat): nat
    requires m.q.Valid()
  {
    m.q.ring[k % Q.NUM]
  }

  /** The entries between handled and completed are requests nobody has handled. */
  ghost predicate UsedInv(m: Machine)
    requires m.q.Valid()
  {
    forall k: nat :: m.handled <= k < m.completed ==>
      UsedEntry(m, k) in m.chains && m.chains[UsedEntry(m, k)].stage == Done(k)
  }

  ghost function UsedEntry(m: Machine, k: nat): nat
    requires m.q.Valid()
  {
    m.q.elems[k % Q.NUM]
  }

  ghost predicate InFlight(m: Machine, id: nat) {
    exists h :: h in m.chains && m.chains[h].id == id && (m.chains[h].stage == Queued || m.chains[h].stage == Taken)
  }

  ghost predicate ChainsInv(m: Machine)
    requires m.q.Valid()
  {
    forall h :: h in m.chains ==> ChainInv(m, h)
  }

  ghost predicate StagesInv(m: Machine)
    requires m.q.Valid()
  {
    forall h :: h in m.chains ==> StageInv(m, h)
  }

  /** No two requests have a buffer or a number in common. */
  ghost predicate Unlike(chains: map<nat, Chain>) {
    forall g, h :: g in chains && h in chains && g != h ==> chains[g].b != chains[h].b && chains[g].id != chains[h].id
  }

  /** A descriptor that is not free is in a request. */
  ghost predicate FreeInv(m: Machine)
    requires m.q.Valid()
  {
    forall i: nat :: i < Q.NUM && !m.q.free[i] ==>
      i in m.owner && m.owner[i] in m.chains && PartOf(m.chains, m.owner[i], i)
  }

  /** Descriptor i is one of the three of request h. */
  ghost predicate PartOf(chains: map<nat, Chain>, h: nat, i: nat)
    requires h in chains
  {
    i == h || i == chains[h].d1 || i == chains[h].d2
  }

  ghost predicate BusyInv(busy: set<nat>, chains: map<nat, Chain>) {
    forall h :: h in busy <==> h in chains && chains[h].stage == Taken
  }

  /** Every request has been completed once or is on its way to be. */
  ghost predicate LogInv(m: Machine) {
    && Distinct(m.log)
    && (forall k :: 0 <= k < |m.log| ==> m.log[k] < m.submitted)
    && (forall id: nat :: id < m.submitted ==> id in m.log || InFlight(m, id))
  }

  ghost predicate Inv(m: Machine) {
    && m.q.Valid() && Counters(m) && ChainsInv(m) && StagesInv(m) && Unlike(m.chains)
    && FreeInv(m) && BusyInv(m.busy, m.chains) && RingInv(m) && UsedInv(m) && LogInv(m)
  }

  // At most two requests
  // --------------------

  lemma FewDistinct(s: seq<nat>)
    requires Distinct(s) && forall i :: 0 <= i < |s| ==> s[i] < Q.NUM
    ensures |s| <= Q.NUM
  {
    forall x | x in s ensures x in Range(0, Q.NUM) {
    }
    DistinctCardinality(s, Range(0, Q.NUM));
  }

  ghost predicate OwnedBy(owner: map<nat, nat>, g: nat, s: seq<nat>) {
    && |s| == 3 && s[0] < s[1] < s[2] < Q.NUM
    && forall i :: 0 <= i < 3 ==> s[i] in owner && owner[s[i]] == g
  }

  lemma NoThreeOwners(owner: map<nat, nat>, g: nat, a: seq<nat>, h: nat, b: seq<nat>, k: nat, c: seq<nat>)
    requires OwnedBy(owner, g, a) && OwnedBy(owner, h, b) && OwnedBy(owner, k, c)
    ensures g == h || h == k || g == k
  {
    if g != h && h != k && g != k {
      DistinctAppend(a, b);
      DistinctAppend(a + b, c);
      FewDistinct(a + b + c);
    }
  }

  ghost function Parts(c: Chain, h: nat): seq<nat> {
    [h, c.d1, c.d2]
  }

  lemma ChainOwned(m: Machine, h: nat)
    requires Inv(m) && h in m.chains
    ensures OwnedBy(m.owner, h, Parts(m.chains[h], h))
  {
    assert ChainInv(m, h);
  }

  /** Eight descriptors do not make three chains. */
  lemma AtMostTwo(m: Machine, g: nat, h: nat, k: nat)
    requires Inv(m) && g in m.chains && h in m.chains && k in m.chains
    ensures g == h || h == k || g == k
  {
    hide Inv, OwnedBy;
    ChainOwned(m, g);
    ChainOwned(m, h);
    ChainOwned(m, k);
    NoThreeOwners(m.owner, g, Parts(m.chains[g], g), h, Parts(m.chains[h], h), k, Parts(m.chains[k], k));
  }

  /** Completions that wait for the handler stay far below the ring's size. */
  lemma FewPending(m: Machine)
    requires Inv(m)
    ensures m.completed - m.handled <= 2 && m.submitted - m.taken <= 2
  {
    hide ChainInv, StageInv, FreeInv, LogInv, Unlike, BusyInv, UsedEntry, RingEntry;
    if m.completed - m.handled > 2 {
      var k := m.handled;
      assert m.chains[UsedEntry(m, k)].stage == Done(k);
      assert m.chains[UsedEntry(m, k + 1)].stage == Done(k + 1);
      assert m.chains[UsedEntry(m, k + 2)].stage == Done(k + 2);
      AtMostTwo(m, UsedEntry(m, k), UsedEntry(m, k + 1), UsedEntry(m, k + 2));
    }
    if m.submitted - m.taken > 2 {
      var k := m.taken;
      assert m.chains[RingEntry(m, k)].id == k;
      assert m.chains[RingEntry(m, k + 1)].id == k + 1;
      assert m.chains[RingEntry(m, k + 2)].id == k + 2;
      AtMostTwo(m, RingEntry(m, k), RingEntry(m, k + 1), RingEntry(m, k + 2));
    }
  }

  lemma SameModulo(a: nat)
    ensures a % Q.IDX_LIMIT % Q.NUM == a % Q.NUM
  {
  }

  lemma ModuloGap(c: nat, h: nat)
    requires h <= c < h + Q.NUM
    ensures (c % Q.NUM - h % Q.NUM) % Q.NUM == c - h
  {
  }

  /** Comparing the two indices modulo 8 counts exactly the completions that
      have not been handled, though the device's index wraps at 2^16. */
  lemma PendingIsExact(m: Machine)
    requires Inv(m)
    ensures Q.Pending(m.q) == m.completed - m.handled
    ensures m.q.usedIdx % Q.NUM != m.q.usedId % Q.NUM <==> m.handled < m.completed
  {
    FewPending(m);
    SameModulo(m.completed);
    ModuloGap(m.completed, m.handled);
  }

  // Every step keeps the invariant
  // ------------------------------

  /** diskInit, before a device that holds these blocks. */
  ghost function Boot(disk: seq<Block>, bufs: map<nat, Block>): Machine {
    Machine(Q.Initial(), 0, {}, disk, bufs, map[], map[], 0, 0, 0, 0, [])
  }

  lemma BootInv(disk: seq<Block>, bufs: map<nat, Block>)
    ensures Inv(Boot(disk, bufs))
  {
  }

  ghost predicate InvAt(n: nat, m: Machine) {
    if n == 0 then Inv(m) else InvAt(n - 1, m)
  }

  lemma {:induction false} OpenInv(n: nat, m: Machine)
    ensures InvAt(n, m) <==> Inv(m)
  {
    if n > 0 {
      OpenInv(n - 1, m);
    }
  }

  lemma Assemble(m: Machine)
    requires m.q.Valid() && Counters(m)
    requires ChainsInv(m)
    requires StagesInv(m)
    requires Unlike(m.chains)
    requires FreeInv(m)
    requires BusyInv(m.busy, m.chains)
    requires RingInv(m)
    requires UsedInv(m)
    requires LogInv(m)
    ensures InvAt(SEAL, m)
  {
    OpenInv(SEAL, m);
  }

  lemma TakeHead(m: Machine)
    requires m.q.Valid() && Counters(m) && RingInv(m) && Enabled(m, Take)
    ensures m.taken < m.submitted
    ensures var h := m.q.ring[m.lastAvail % Q.NUM];
      h in m.chains && m.chains[h].stage == Queued && m.chains[h].id == m.taken
  {
    SameModulo(m.taken);
    assert RingEntry(m, m.taken) == m.q.ring[m.lastAvail % Q.NUM];
  }

  lemma NextCount(n: nat)
    ensures (n % Q.IDX_LIMIT + 1) % Q.IDX_LIMIT == (n + 1) % Q.IDX_LIMIT
  {
  }

  lemma NextSlot(n: nat)
    ensures (n % Q.NUM + 1) % Q.NUM == (n + 1) % Q.NUM
  {
  }

  lemma OtherSlot(a: nat, b: nat)
    requires a < b < a + Q.NUM
    ensures a % Q.NUM != b % Q.NUM
  {
  }

  /** A stage says nothing about who a request belongs to. */
  lemma StageOnly(chains: map<nat, Chain>, h: nat, s: Stage)
    requires h in chains && Unlike(chains)
    ensures SetStage(chains, h, s).Keys == chains.Keys && Unlike(SetStage(chains, h, s))
  {
  }

  lemma TakeStages(m: Machine)
    requires m.q.Valid() && Counters(m) && RingInv(m) && StagesInv(m) && Unlike(m.chains) && Enabled(m, Take)
    ensures StagesInv(TakeStep(m))
  {
    TakeHead(m);
    var t := TakeStep(m);
    forall h | h in t.chains ensures StageInv(t, h) {
      assert StageInv(m, h);
    }
  }

  lemma TakeRings(m: Machine)
    requires m.q.Valid() && Counters(m) && RingInv(m) && UsedInv(m) && Enabled(m, Take)
    ensures RingInv(TakeStep(m)) && UsedInv(TakeStep(m))
  {
    TakeHead(m);
    var t := TakeStep(m);
    forall k: nat | t.taken <= k < t.submitted
      ensures RingEntry(t, k) in t.chains && t.chains[RingEntry(t, k)].stage == Queued
          && t.chains[RingEntry(t, k)].id == k
    {
      assert m.chains[RingEntry(m, k)].id == k;
    }
    forall k: nat | t.handled <= k < t.completed
      ensures UsedEntry(t, k) in t.chains && t.chains[UsedEntry(t, k)].stage == Done(k)
    {
      assert m.chains[UsedEntry(m, k)].stage == Done(k);
    }
  }

  lemma TakeLog(m: Machine)
    requires m.q.Valid() && Counters(m) && RingInv(m) && LogInv(m) && Enabled(m, Take)
    ensures LogInv(TakeStep(m))
  {
    TakeHead(m);
    var t := TakeStep(m);
    forall id: nat | id < t.submitted ensures id in t.log || InFlight(t, id) {
      if id !in m.log {
        var g :| g in m.chains && m.chains[g].id == id && (m.chains[g].stage == Queued || m.chains[g].stage == Taken);
        assert t.chains[g].id == id;
      }
    }
  }

  lemma TakeChains(m: Machine)
    requires m.q.Valid() && Counters(m) && RingInv(m) && ChainsInv(m) && Enabled(m, Take)
    ensures ChainsInv(TakeStep(m))
  {
    TakeHead(m);
    var t := TakeStep(m);
    forall h | h in t.chains ensures ChainInv(t, h) {
      assert ChainInv(m, h);
    }
  }

  /** A descriptor stays part of its request whatever the stage. */
  lemma FreeKept(m: Machine, t: Machine, h: nat, s: Stage)
    requires m.q.Valid() && t.q.Valid() && FreeInv(m) && h in m.chains
    requires t.q.free == m.q.free && t.owner == m.owner && t.chains == SetStage(m.chains, h, s)
    ensures FreeInv(t)
  {
  }

  lemma TakeOthers(m: Machine)
    requires m.q.Valid() && Counters(m) && RingInv(m) && FreeInv(m) && Unlike(m.chains) && BusyInv(m.busy, m.chains)
    requires Enabled(m, Take)
    ensures var t := TakeStep(m);
      Counters(t) && Unlike(t.chains) && FreeInv(t) && BusyInv(t.busy, t.chains)
  {
    TakeHead(m);
    NextCount(m.taken);
    StageOnly(m.chains, m.q.ring[m.lastAvail % Q.NUM], Taken);
  }

  lemma TakeInv(m: Machine)
    requires Inv(m) && Enabled(m, Take)
    ensures InvAt(SEAL, TakeStep(m))
  {
    TakeChains(m);
    TakeStages(m);
    TakeRings(m);
    TakeLog(m);
    TakeOthers(m);
    Assemble(TakeStep(m));
  }

  // Submitting

  /** The descriptors a request gets are in no other request. */
  lemma FreshChain(m: Machine, h: nat)
    requires m.q.Valid() && ChainsInv(m) && |Q.FreeList(m.q.free)| >= 3 && h in m.chains
    ensures var l := Q.FreeList(m.q.free);
      h !in l && m.chains[h].d1 !in l && m.chains[h].d2 !in l
  {
    assert ChainInv(m, h);
  }

  /** A descriptor in use keeps what it has. */
  lemma InUseKept(q: Q.Queue, b: nat, blockno: nat, write: bool, d0: nat, d1: nat, d2: nat, i: nat)
    requires q.Valid() && d0 < d1 < d2 < Q.NUM && q.free[d0] && q.free[d1] && q.free[d2]
    requires i < Q.NUM && !q.free[i]
    ensures var t := Q.Submit(q, b, blockno, write, d0, d1, d2);
      !t.free[i] && t.desc[i] == q.desc[i] && t.info[i] == q.info[i] && t.owned == q.owned + {b}
    ensures i != d0 && i != d1 && i != d2
  {
  }

  /** What a submit changes. */
  lemma SubmitShape(m: Machine, b: nat, blockno: nat, write: bool)
    requires m.q.Valid() && Enabled(m, Submit(b, blockno, write))
    ensures var l := Q.FreeList(m.q.free);
      && |l| >= 3 && l[0] < l[1] < l[2] < Q.NUM && m.q.free[l[0]] && m.q.free[l[1]] && m.q.free[l[2]]
      && SubmitStep(m, b, blockno, write) ==
           m.(q := Q.Submit(m.q, b, blockno, write, l[0], l[1], l[2]),
              chains := m.chains[l[0] := Chain(m.submitted, l[1], l[2], b, blockno, write, Queued)],
              owner := m.owner[l[0] := l[0]][l[1] := l[0]][l[2] := l[0]],
              submitted := m.submitted + 1)
  {
  }

  /** A request in flight keeps what it has. */
  lemma SubmitOld(m: Machine, b: nat, blockno: nat, write: bool, h: nat)
    requires m.q.Valid() && ChainsInv(m) && Enabled(m, Submit(b, blockno, write)) && h in m.chains
    ensures var t := SubmitStep(m, b, blockno, write);
      h in t.chains && t.chains[h] == m.chains[h] && ChainInv(t, h)
  {
    hide SubmitStep, Q.Submit, Q.FreeList, Q.HeadDesc, Q.DataDesc, Q.StatusDesc;
    SubmitShape(m, b, blockno, write);
    var l := Q.FreeList(m.q.free);
    var c := m.chains[h];
    assert ChainInv(m, h);
    InUseKept(m.q, b, blockno, write, l[0], l[1], l[2], h);
    InUseKept(m.q, b, blockno, write, l[0], l[1], l[2], c.d1);
    InUseKept(m.q, b, blockno, write, l[0], l[1], l[2], c.d2);
  }

  lemma SubmitNew(m: Machine, b: nat, blockno: nat, write: bool)
    requires m.q.Valid() && Enabled(m, Submit(b, blockno, write))
    ensures var t := SubmitStep(m, b, blockno, write); ChainInv(t, Q.FreeList(m.q.free)[0])
  {
  }

  lemma SubmitChains(m: Machine, b: nat, blockno: nat, write: bool)
    requires m.q.Valid() && ChainsInv(m) && Enabled(m, Submit(b, blockno, write))
    ensures ChainsInv(SubmitStep(m, b, blockno, write))
  {
    var t := SubmitStep(m, b, blockno, write);
    SubmitNew(m, b, blockno, write);
    forall h | h in t.chains ensures ChainInv(t, h) {
      if h in m.chains {
        SubmitOld(m, b, blockno, write, h);
      }
    }
  }

  /** The new entry of the available ring overwrites none that is still to be taken. */
  lemma RingAfterSubmit(m: Machine, b: nat, blockno: nat, write: bool, k: nat)
    requires m.q.Valid() && Counters(m) && m.submitted - m.taken <= 2 && Enabled(m, Submit(b, blockno, write))
    requires m.taken <= k <= m.submitted
    ensures RingEntry(SubmitStep(m, b, blockno, write), k) ==
      if k == m.submitted then Q.FreeList(m.q.free)[0] else RingEntry(m, k)
  {
    SameModulo(m.submitted);
    if k < m.submitted {
      OtherSlot(k, m.submitted);
    }
  }

  lemma SubmitStages(m: Machine, b: nat, blockno: nat, write: bool)
    requires Inv(m) && Enabled(m, Submit(b, blockno, write))
    ensures StagesInv(SubmitStep(m, b, blockno, write))
  {
    var t := SubmitStep(m, b, blockno, write);
    FewPending(m);
    RingAfterSubmit(m, b, blockno, write, m.submitted);
    forall h | h in t.chains ensures StageInv(t, h) {
      if h in m.chains {
        SubmitOld(m, b, blockno, write, h);
        assert ChainInv(m, h) && StageInv(m, h);
        if m.chains[h].stage == Queued {
          RingAfterSubmit(m, b, blockno, write, m.chains[h].id);
        }
      }
    }
  }

  lemma SubmitRings(m: Machine, b: nat, blockno: nat, write: bool)
    requires Inv(m) && Enabled(m, Submit(b, blockno, write))
    ensures RingInv(SubmitStep(m, b, blockno, write)) && UsedInv(SubmitStep(m, b, blockno, write))
  {
    var t := SubmitStep(m, b, blockno, write);
    FewPending(m);
    forall k: nat | t.taken <= k < t.submitted
      ensures RingEntry(t, k) in t.chains && t.chains[RingEntry(t, k)].stage == Queued
          && t.chains[RingEntry(t, k)].id == k
    {
      RingAfterSubmit(m, b, blockno, write, k);
      if k < m.submitted {
        assert m.chains[RingEntry(m, k)].id == k;
        SubmitOld(m, b, blockno, write, RingEntry(m, k));
      }
    }
    forall k: nat | t.handled <= k < t.completed
      ensures UsedEntry(t, k) in t.chains && t.chains[UsedEntry(t, k)].stage == Done(k)
    {
      assert m.chains[UsedEntry(m, k)].stage == Done(k);
      SubmitOld(m, b, blockno, write, UsedEntry(m, k));
    }
  }

  lemma SubmitLog(m: Machine, b: nat, blockno: nat, write: bool)
    requires m.q.Valid() && ChainsInv(m) && LogInv(m) && Enabled(m, Submit(b, blockno, write))
    ensures LogInv(SubmitStep(m, b, blockno, write))
  {
    var t := SubmitStep(m, b, blockno, write);
    forall id: nat | id < t.submitted ensures id in t.log || InFlight(t, id) {
      if id == m.submitted {
        assert t.chains[Q.FreeList(m.q.free)[0]].id == id;
      } else if id !in m.log {
        var g :| g in m.chains && m.chains[g].id == id && (m.chains[g].stage == Queued || m.chains[g].stage == Taken);
        FreshChain(m, g);
        assert t.chains[g].id == id;
      }
    }
  }

  lemma SubmitFreeAt(m: Machine, b: nat, blockno: nat, write: bool, i: nat)
    requires m.q.Valid() && ChainsInv(m) && FreeInv(m) && Enabled(m, Submit(b, blockno, write))
    requires i < Q.NUM && !m.q.free[i]
    ensures var t := SubmitStep(m, b, blockno, write);
      i in t.owner && t.owner[i] in t.chains && PartOf(t.chains, t.owner[i], i)
  {
    var l := Q.FreeList(m.q.free);
    assert m.q.free[l[0]] && m.q.free[l[1]] && m.q.free[l[2]];
    assert PartOf(m.chains, m.owner[i], i);
    assert ChainInv(m, m.owner[i]);
  }

  lemma SubmitFree(m: Machine, b: nat, blockno: nat, write: bool)
    requires m.q.Valid() && ChainsInv(m) && FreeInv(m) && Enabled(m, Submit(b, blockno, write))
    ensures FreeInv(SubmitStep(m, b, blockno, write))
  {
    hide SubmitStep, FreeInv, ChainsInv;
    SubmitShape(m, b, blockno, write);
    var t := SubmitStep(m, b, blockno, write);
    forall i: nat | i < Q.NUM && !t.q.free[i]
      ensures i in t.owner && t.owner[i] in t.chains && PartOf(t.chains, t.owner[i], i)
    {
      if !m.q.free[i] {
        SubmitFreeAt(m, b, blockno, write, i);
      }
    }
    FreeMeans(t);
  }

  lemma FreeMeans(m: Machine)
    requires m.q.Valid()
    requires forall i: nat :: i < Q.NUM && !m.q.free[i] ==>
      i in m.owner && m.owner[i] in m.chains && PartOf(m.chains, m.owner[i], i)
    ensures FreeInv(m)
  {
  }

  lemma SubmitOthers(m: Machine, b: nat, blockno: nat, write: bool)
    requires m.q.Valid() && ChainsInv(m) && Unlike(m.chains) && BusyInv(m.busy, m.chains)
    requires Enabled(m, Submit(b, blockno, write))
    ensures var t := SubmitStep(m, b, blockno, write);
      Unlike(t.chains) && BusyInv(t.busy, t.chains)
  {
    hide SubmitStep, Q.FreeList;
    SubmitShape(m, b, blockno, write);
    var d0 := Q.FreeList(m.q.free)[0];
    forall g | g in m.chains ensures g != d0 && m.chains[g].id < m.submitted && m.chains[g].b != b {
      OlderChain(m, g);
    }
  }

  lemma OlderChain(m: Machine, g: nat)
    requires m.q.Valid() && ChainsInv(m) && g in m.chains
    ensures g < Q.NUM && !m.q.free[g] && m.chains[g].id < m.submitted
  {
    assert ChainInv(m, g);
  }

  lemma SubmitCounters(m: Machine, b: nat, blockno: nat, write: bool)
    requires m.q.Valid() && Counters(m) && Enabled(m, Submit(b, blockno, write))
    ensures Counters(SubmitStep(m, b, blockno, write))
  {
    NextCount(m.submitted);
  }

  lemma SubmitInv(m: Machine, b: nat, blockno: nat, write: bool)
    requires Inv(m) && Enabled(m, Submit(b, blockno, write))
    ensures InvAt(SEAL, SubmitStep(m, b, blockno, write))
  {
    SubmitChains(m, b, blockno, write);
    SubmitStages(m, b, blockno, write);
    SubmitRings(m, b, blockno, write);
    SubmitLog(m, b, blockno, write);
    SubmitFree(m, b, blockno, write);
    SubmitOthers(m, b, blockno, write);
    SubmitCounters(m, b, blockno, write);
    Assemble(SubmitStep(m, b, blockno, write));
  }

  // Completing

  /** What the device finds in a chain it has taken is the request diskRW made. */
  lemma BusyChain(m: Machine, h: nat)
    requires m.q.Valid() && ChainsInv(m) && BusyInv(m.busy, m.chains) && h in m.busy
    ensures h in m.chains && m.chains[h].stage == Taken && h < Q.NUM
    ensures var c := m.chains[h];
      Q.RequestAt(m.q, h) == Some(Q.Request(c.write, c.blockno * 2, c.b, h))
  {
    var c := m.chains[h];
    assert ChainInv(m, h);
    Q.RequestIs(m.q, c.b, c.blockno, c.write, h, c.d1, c.d2);
  }

  /** A completed request has moved its block: the disk's to the buffer, or the
      buffer's to the disk, and no other. */
  lemma CompleteMoves(m: Machine, h: nat)
    requires Inv(m) && Enabled(m, Complete(h, 0))
    ensures h in m.chains
    ensures var c := m.chains[h]; var t := CompleteStep(m, h, 0);
      && c.blockno < |m.disk| && c.b in m.bufs
      && (if c.write then t.disk == m.disk[c.blockno := m.bufs[c.b]] && t.bufs == m.bufs
          else t.bufs == m.bufs[c.b := m.disk[c.blockno]] && t.disk == m.disk)
  {
    BusyChain(m, h);
    var c := m.chains[h];
    assert c.blockno * 2 / 2 == c.blockno;
  }

  /** What a completion changes. */
  lemma CompleteShape(m: Machine, h: nat, status: nat)
    requires m.q.Valid() && ChainsInv(m) && BusyInv(m.busy, m.chains) && Enabled(m, Complete(h, status))
    ensures h in m.chains && m.chains[h].stage == Taken && h < Q.NUM
    ensures var t := CompleteStep(m, h, status);
      && t == m.(q := t.q, busy := m.busy - {h}, disk := t.disk, bufs := t.bufs,
                 chains := m.chains[h := m.chains[h].(stage := Done(m.completed))],
                 completed := m.completed + 1, log := m.log + [m.chains[h].id])
      && t.q == m.q.(info := m.q.info[h := m.q.info[h].(status := status)],
                     elems := m.q.elems[m.q.usedId % Q.NUM := h], usedId := (m.q.usedId + 1) % Q.IDX_LIMIT)
      && t.q.Valid()
  {
    BusyChain(m, h);
  }

  lemma CompleteChain(m: Machine, h: nat, status: nat, g: nat)
    requires m.q.Valid() && ChainsInv(m) && BusyInv(m.busy, m.chains) && Enabled(m, Complete(h, status))
    requires g in m.chains
    ensures var t := CompleteStep(m, h, status); t.q.Valid() && g in t.chains && ChainInv(t, g)
  {
    hide CompleteStep;
    CompleteShape(m, h, status);
    assert ChainInv(m, g);
  }

  lemma CompleteChains(m: Machine, h: nat, status: nat)
    requires m.q.Valid() && ChainsInv(m) && BusyInv(m.busy, m.chains) && Enabled(m, Complete(h, status))
    ensures CompleteStep(m, h, status).q.Valid() && ChainsInv(CompleteStep(m, h, status))
  {
    hide CompleteStep, ChainInv;
    CompleteShape(m, h, status);
    var t := CompleteStep(m, h, status);
    forall g | g in t.chains ensures ChainInv(t, g) {
      CompleteChain(m, h, status, g);
    }
  }

  /** The new entry of the used ring overwrites none that is still to be handled. */
  lemma UsedAfterComplete(m: Machine, h: nat, status: nat, k: nat)
    requires m.q.Valid() && Counters(m) && m.completed - m.handled <= 2 && Enabled(m, Complete(h, status))
    requires m.handled <= k <= m.completed && CompleteStep(m, h, status).q.Valid()
    ensures UsedEntry(CompleteStep(m, h, status), k) == if k == m.completed then h else UsedEntry(m, k)
  {
    SameModulo(m.completed);
    if k < m.completed {
      OtherSlot(k, m.completed);
    }
  }

  lemma CompleteStage(m: Machine, h: nat, status: nat, g: nat)
    requires Inv(m) && Enabled(m, Complete(h, status)) && CompleteStep(m, h, status).q.Valid()
    requires g in CompleteStep(m, h, status).chains
    ensures StageInv(CompleteStep(m, h, status), g)
  {
    hide CompleteStep, ChainInv, RingInv, UsedInv, FreeInv, LogInv;
    CompleteShape(m, h, status);
    FewPending(m);
    assert StageInv(m, g) && StageInv(m, h);
    UsedAfterComplete(m, h, status, m.completed);
    if m.chains[g].stage.Done? {
      UsedAfterComplete(m, h, status, m.chains[g].stage.n);
    }
  }

  lemma CompleteStages(m: Machine, h: nat, status: nat)
    requires Inv(m) && Enabled(m, Complete(h, status)) && CompleteStep(m, h, status).q.Valid()
    ensures StagesInv(CompleteStep(m, h, status))
  {
    hide CompleteStep, ChainInv, RingInv, UsedInv, FreeInv, LogInv;
    forall g | g in CompleteStep(m, h, status).chains ensures StageInv(CompleteStep(m, h, status), g) {
      CompleteStage(m, h, status, g);
    }
  }

  lemma CompleteRings(m: Machine, h: nat, status: nat)
    requires Inv(m) && Enabled(m, Complete(h, status)) && CompleteStep(m, h, status).q.Valid()
    ensures RingInv(CompleteStep(m, h, status))
  {
    hide CompleteStep, ChainInv, StageInv, FreeInv, Unlike, LogInv;
    CompleteShape(m, h, status);
    var t := CompleteStep(m, h, status);
    forall k: nat | t.taken <= k < t.submitted
      ensures RingEntry(t, k) in t.chains && t.chains[RingEntry(t, k)].stage == Queued
          && t.chains[RingEntry(t, k)].id == k
    {
      assert RingEntry(t, k) == RingEntry(m, k);
      assert m.chains[RingEntry(m, k)].id == k;
    }
  }

  lemma CompleteUsed(m: Machine, h: nat, status: nat)
    requires Inv(m) && Enabled(m, Complete(h, status)) && CompleteStep(m, h, status).q.Valid()
    ensures UsedInv(CompleteStep(m, h, status))
  {
    hide CompleteStep, ChainInv, StageInv, FreeInv, Unlike, LogInv, RingInv;
    CompleteShape(m, h, status);
    FewPending(m);
    var t := CompleteStep(m, h, status);
    forall k: nat | t.handled <= k < t.completed
      ensures UsedEntry(t, k) in t.chains && t.chains[UsedEntry(t, k)].stage == Done(k)
    {
      UsedAfterComplete(m, h, status, k);
      if k < m.completed {
        assert m.chains[UsedEntry(m, k)].stage == Done(k);
      }
    }
  }

  lemma CompleteLog(m: Machine, h: nat, status: nat)
    requires m.q.Valid() && ChainsInv(m) && StagesInv(m) && BusyInv(m.busy, m.chains) && LogInv(m)
    requires Enabled(m, Complete(h, status))
    ensures LogInv(CompleteStep(m, h, status))
  {
    hide CompleteStep, Q.IsChain;
    CompleteShape(m, h, status);
    assert ChainInv(m, h) && StageInv(m, h);
    var t := CompleteStep(m, h, status);
    forall id: nat | id < t.submitted ensures id in t.log || InFlight(t, id) {
      if id !in m.log && id != m.chains[h].id {
        var g :| g in m.chains && m.chains[g].id == id && (m.chains[g].stage == Queued || m.chains[g].stage == Taken);
        assert t.chains[g].id == id;
      }
    }
  }

  lemma CompleteOthers(m: Machine, h: nat, status: nat)
    requires m.q.Valid() && Counters(m) && ChainsInv(m) && Unlike(m.chains) && BusyInv(m.busy, m.chains)
    requires Enabled(m, Complete(h, status))
    ensures var t := CompleteStep(m, h, status);
      Counters(t) && Unlike(t.chains) && BusyInv(t.busy, t.chains)
  {
    hide CompleteStep, ChainsInv;
    CompleteShape(m, h, status);
    NextCount(m.completed);
    StageOnly(m.chains, h, Done(m.completed));
  }

  lemma CompleteFree(m: Machine, h: nat, status: nat)
    requires m.q.Valid() && ChainsInv(m) && FreeInv(m) && BusyInv(m.busy, m.chains)
    requires Enabled(m, Complete(h, status)) && CompleteStep(m, h, status).q.Valid()
    ensures FreeInv(CompleteStep(m, h, status))
  {
    hide CompleteStep, ChainsInv, FreeInv;
    CompleteShape(m, h, status);
    FreeKept(m, CompleteStep(m, h, status), h, Done(m.completed));
  }

  lemma CompleteInv(m: Machine, h: nat, status: nat)
    requires Inv(m) && Enabled(m, Complete(h, status))
    ensures InvAt(SEAL, CompleteStep(m, h, status))
  {
    CompleteChains(m, h, status);
    CompleteStages(m, h, status);
    CompleteRings(m, h, status);
    CompleteUsed(m, h, status);
    CompleteLog(m, h, status);
    CompleteFree(m, h, status);
    CompleteOthers(m, h, status);
    Assemble(CompleteStep(m, h, status));
  }

  // Handling

  /** The handler looks at the oldest completion it has not seen. Its buffer is
      there, so the handler fails only on a bad status. */
  lemma HandleHead(m: Machine)
    requires m.q.Valid() && Counters(m) && ChainsInv(m) && UsedInv(m) && m.handled < m.completed
    ensures var h := m.q.elems[m.q.usedIdx];
      && h == UsedEntry(m, m.handled) && h < Q.NUM && h in m.chains && m.chains[h].stage == Done(m.handled)
      && m.q.info[h].b == Some(m.chains[h].b)
      && HandleStep(m).Ok? == (m.q.info[h].status == 0)
      && (HandleStep(m).Halt? ==> HandleStep(m) == Halt(DiskStatus))
  {
    var h := UsedEntry(m, m.handled);
    assert m.chains[h].stage == Done(m.handled);
    assert ChainInv(m, h);
  }

  /** What a round of the handler changes. */
  lemma HandleShape(m: Machine)
    requires m.q.Valid() && Counters(m) && ChainsInv(m) && UsedInv(m)
    requires m.handled < m.completed && HandleStep(m).Ok?
    ensures var h := UsedEntry(m, m.handled); var t := HandleStep(m).value;
      && h < Q.NUM && h in m.chains && m.chains[h].stage == Done(m.handled) && m.q.info[h].status == 0
      && t == m.(q := t.q, chains := m.chains[h := m.chains[h].(stage := Handled)], handled := m.handled + 1)
      && t.q == m.q.(owned := m.q.owned - {m.chains[h].b}, usedIdx := (m.q.usedIdx + 1) % Q.NUM)
      && t.q.Valid()
  {
    HandleHead(m);
  }

  lemma HandleChain(m: Machine, g: nat)
    requires m.q.Valid() && Counters(m) && ChainsInv(m) && UsedInv(m) && Unlike(m.chains)
    requires m.handled < m.completed && HandleStep(m).Ok? && g in m.chains
    ensures var t := HandleStep(m).value; g in t.chains && ChainInv(t, g)
  {
    hide HandleStep, UsedInv;
    HandleShape(m);
    assert ChainInv(m, g);
  }

  lemma HandleChains(m: Machine)
    requires m.q.Valid() && Counters(m) && ChainsInv(m) && UsedInv(m) && Unlike(m.chains)
    requires m.handled < m.completed && HandleStep(m).Ok?
    ensures ChainsInv(HandleStep(m).value)
  {
    hide HandleStep, ChainInv, UsedInv, Unlike;
    HandleShape(m);
    var t := HandleStep(m).value;
    forall g | g in t.chains ensures ChainInv(t, g) {
      HandleChain(m, g);
    }
  }

  lemma HandleStage(m: Machine, g: nat)
    requires m.q.Valid() && Counters(m) && ChainsInv(m) && UsedInv(m) && StagesInv(m)
    requires m.handled < m.completed && HandleStep(m).Ok? && g in HandleStep(m).value.chains
    ensures StageInv(HandleStep(m).value, g)
  {
    hide HandleStep, ChainInv, UsedInv;
    HandleShape(m);
    assert StageInv(m, g) && StageInv(m, UsedEntry(m, m.handled));
  }

  lemma HandleStages(m: Machine)
    requires m.q.Valid() && Counters(m) && ChainsInv(m) && UsedInv(m) && StagesInv(m)
    requires m.handled < m.completed && HandleStep(m).Ok?
    ensures StagesInv(HandleStep(m).value)
  {
    hide HandleStep, ChainsInv, UsedInv, StageInv;
    HandleShape(m);
    forall g | g in HandleStep(m).value.chains ensures StageInv(HandleStep(m).value, g) {
      HandleStage(m, g);
    }
  }

  lemma HandleRings(m: Machine)
    requires m.q.Valid() && Counters(m) && ChainsInv(m) && UsedInv(m) && RingInv(m)
    requires m.handled < m.completed && HandleStep(m).Ok?
    ensures RingInv(HandleStep(m).value) && UsedInv(HandleStep(m).value)
  {
    hide HandleStep, ChainsInv;
    HandleShape(m);
    var t := HandleStep(m).value;
    forall k: nat | t.taken <= k < t.submitted
      ensures RingEntry(t, k) in t.chains && t.chains[RingEntry(t, k)].stage == Queued
          && t.chains[RingEntry(t, k)].id == k
    {
      assert m.chains[RingEntry(m, k)].id == k;
    }
    forall k: nat | t.handled <= k < t.completed
      ensures UsedEntry(t, k) in t.chains && t.chains[UsedEntry(t, k)].stage == Done(k)
    {
      assert m.chains[UsedEntry(m, k)].stage == Done(k);
    }
  }

  lemma HandleLog(m: Machine)
    requires m.q.Valid() && Counters(m) && ChainsInv(m) && UsedInv(m) && LogInv(m)
    requires m.handled < m.completed && HandleStep(m).Ok?
    ensures LogInv(HandleStep(m).value)
  {
    hide HandleStep, ChainsInv, UsedInv;
    HandleShape(m);
    var t := HandleStep(m).value;
    forall id: nat | id < t.submitted ensures id in t.log || InFlight(t, id) {
      if id !in m.log {
        var g :| g in m.chains && m.chains[g].id == id && (m.chains[g].stage == Queued || m.chains[g].stage == Taken);
        assert t.chains[g].id == id;
      }
    }
  }

  lemma HandleOthers(m: Machine)
    requires m.q.Valid() && Counters(m) && ChainsInv(m) && UsedInv(m) && Unlike(m.chains) && BusyInv(m.busy, m.chains)
    requires m.handled < m.completed && HandleStep(m).Ok?
    ensures var t := HandleStep(m).value;
      Counters(t) && Unlike(t.chains) && BusyInv(t.busy, t.chains)
  {
    hide HandleStep, ChainsInv, UsedInv;
    HandleShape(m);
    NextSlot(m.handled);
    StageOnly(m.chains, UsedEntry(m, m.handled), Handled);
  }

  lemma HandleFree(m: Machine)
    requires m.q.Valid() && Counters(m) && ChainsInv(m) && UsedInv(m) && FreeInv(m)
    requires m.handled < m.completed && HandleStep(m).Ok?
    ensures FreeInv(HandleStep(m).value)
  {
    hide HandleStep, ChainsInv, UsedInv, FreeInv;
    HandleShape(m);
    FreeKept(m, HandleStep(m).value, UsedEntry(m, m.handled), Handled);
  }

  lemma HandleInv(m: Machine)
    requires Inv(m) && m.handled < m.completed && HandleStep(m).Ok?
    ensures InvAt(SEAL, HandleStep(m).value)
  {
    HandleChains(m);
    HandleStages(m);
    HandleRings(m);
    HandleLog(m);
    HandleFree(m);
    HandleOthers(m);
    Assemble(HandleStep(m).value);
  }

  // Finishing

  /** What diskRW finds when its wait is over: its own chain, as it built it.
      Freeing it never reaches an error. */
  lemma FinishFrees(m: Machine, h: nat)
    requires m.q.Valid() && ChainsInv(m) && h in m.chains
    ensures h < Q.NUM && FinishStep(m, h).Ok?
    ensures var c := m.chains[h]; var t := FinishStep(m, h).value;
      && t.q.Valid()
      && t.q == m.q.(info := t.q.info, free := t.q.free, desc := t.q.desc)
      && t.q.free == m.q.free[h := true][c.d1 := true][c.d2 := true]
      && t.q.info == m.q.info[h := m.q.info[h].(b := None)]
      && (forall i: nat :: i < Q.NUM && i != h && i != c.d1 && i != c.d2 ==> t.q.desc[i] == m.q.desc[i])
  {
    var c := m.chains[h];
    assert ChainInv(m, h);
    var q := m.q.(info := m.q.info[h := m.q.info[h].(b := None)]);
    Q.FreeThree(q, c.b, c.blockno, c.write, h, c.d1, c.d2);
  }

  lemma ApartChains(m: Machine, g: nat, h: nat)
    requires m.q.Valid() && ChainsInv(m) && g in m.chains && h in m.chains && g != h
    ensures var c := m.chains[h];
      g !in {h, c.d1, c.d2} && m.chains[g].d1 !in {h, c.d1, c.d2} && m.chains[g].d2 !in {h, c.d1, c.d2}
  {
    assert ChainInv(m, g) && ChainInv(m, h);
  }

  /** What the end of diskRW changes. */
  lemma FinishShape(m: Machine, h: nat)
    requires m.q.Valid() && ChainsInv(m) && h in m.chains
    ensures h < Q.NUM && FinishStep(m, h).Ok?
    ensures var t := FinishStep(m, h).value; t == m.(q := t.q, chains := m.chains - {h}) && t.q.Valid()
    ensures var c := m.chains[h]; var t := FinishStep(m, h).value;
      && t.q == m.q.(info := m.q.info[h := m.q.info[h].(b := None)], free := t.q.free, desc := t.q.desc)
      && c.d1 < Q.NUM && c.d2 < Q.NUM && t.q.free == m.q.free[h := true][c.d1 := true][c.d2 := true]
      && (forall i: nat :: i < Q.NUM && i != h && i != c.d1 && i != c.d2 ==> t.q.desc[i] == m.q.desc[i])
  {
    FinishFrees(m, h);
    assert ChainInv(m, h);
  }

  lemma FinishChain(m: Machine, h: nat, g: nat)
    requires m.q.Valid() && ChainsInv(m) && h in m.chains && g in m.chains && g != h
    ensures h < Q.NUM && FinishStep(m, h).Ok?
    ensures var t := FinishStep(m, h).value; t.q.Valid() && g in t.chains && ChainInv(t, g)
  {
    hide FinishStep;
    FinishShape(m, h);
    ApartChains(m, g, h);
    assert ChainInv(m, g);
  }

  lemma FinishChains(m: Machine, h: nat)
    requires m.q.Valid() && ChainsInv(m) && h in m.chains
    ensures h < Q.NUM && FinishStep(m, h).Ok? && ChainsInv(FinishStep(m, h).value)
  {
    hide FinishStep, ChainInv;
    FinishShape(m, h);
    var t := FinishStep(m, h).value;
    forall g | g in t.chains ensures ChainInv(t, g) {
      FinishChain(m, h, g);
    }
  }

  lemma FinishStages(m: Machine, h: nat)
    requires m.q.Valid() && ChainsInv(m) && StagesInv(m) && h in m.chains
    ensures h < Q.NUM && FinishStep(m, h).Ok? && StagesInv(FinishStep(m, h).value)
  {
    hide FinishStep, ChainInv;
    FinishShape(m, h);
    var t := FinishStep(m, h).value;
    forall g | g in t.chains ensures StageInv(t, g) {
      assert StageInv(m, g);
    }
  }

  lemma FinishRings(m: Machine, h: nat)
    requires m.q.Valid() && ChainsInv(m) && RingInv(m) && UsedInv(m) && Enabled(m, Finish(h))
    ensures h < Q.NUM && FinishStep(m, h).Ok? && RingInv(FinishStep(m, h).value) && UsedInv(FinishStep(m, h).value)
  {
    hide FinishStep, ChainInv;
    FinishShape(m, h);
    var t := FinishStep(m, h).value;
    forall k: nat | t.taken <= k < t.submitted
      ensures RingEntry(t, k) in t.chains && t.chains[RingEntry(t, k)].stage == Queued
          && t.chains[RingEntry(t, k)].id == k
    {
      assert m.chains[RingEntry(m, k)].id == k;
    }
    forall k: nat | t.handled <= k < t.completed
      ensures UsedEntry(t, k) in t.chains && t.chains[UsedEntry(t, k)].stage == Done(k)
    {
      assert m.chains[UsedEntry(m, k)].stage == Done(k);
    }
  }

  lemma FinishLog(m: Machine, h: nat)
    requires m.q.Valid() && ChainsInv(m) && LogInv(m) && Enabled(m, Finish(h))
    ensures h < Q.NUM && FinishStep(m, h).Ok? && LogInv(FinishStep(m, h).value)
  {
    hide FinishStep, ChainInv;
    FinishShape(m, h);
    var t := FinishStep(m, h).value;
    forall id: nat | id < t.submitted ensures id in t.log || InFlight(t, id) {
      if id !in m.log {
        var g :| g in m.chains && m.chains[g].id == id && (m.chains[g].stage == Queued || m.chains[g].stage == Taken);
        assert t.chains[g].id == id;
      }
    }
  }

  lemma FinishFree(m: Machine, h: nat)
    requires m.q.Valid() && ChainsInv(m) && FreeInv(m) && h in m.chains
    ensures h < Q.NUM && FinishStep(m, h).Ok? && FinishStep(m, h).value.q.Valid() && FreeInv(FinishStep(m, h).value)
  {
    hide FinishStep, ChainInv;
    FinishShape(m, h);
    var t := FinishStep(m, h).value;
    forall i: nat | i < Q.NUM && !t.q.free[i]
      ensures i in t.owner && t.owner[i] in t.chains && PartOf(t.chains, t.owner[i], i)
    {
      assert PartOf(m.chains, m.owner[i], i);
    }
  }

  lemma FinishOthers(m: Machine, h: nat)
    requires m.q.Valid() && Counters(m) && ChainsInv(m) && Unlike(m.chains) && BusyInv(m.busy, m.chains)
    requires Enabled(m, Finish(h))
    ensures h < Q.NUM && FinishStep(m, h).Ok?
    ensures var t := FinishStep(m, h).value;
      t.q.Valid() && Counters(t) && Unlike(t.chains) && BusyInv(t.busy, t.chains)
  {
    hide FinishStep, ChainInv;
    FinishShape(m, h);
  }

  lemma FinishInv(m: Machine, h: nat)
    requires Inv(m) && Enabled(m, Finish(h))
    ensures h < Q.NUM && FinishStep(m, h).Ok? && InvAt(SEAL, FinishStep(m, h).value)
  {
    FinishChains(m, h);
    FinishStages(m, h);
    FinishRings(m, h);
    FinishLog(m, h);
    FinishFree(m, h);
    FinishOthers(m, h);
    Assemble(FinishStep(m, h).value);
  }

  // The interrupt handler as a whole

  /** The status the device has left for the k-th completion. */
  ghost function StatusOf(m: Machine, k: nat): nat
    requires m.q.Valid()
  {
    if UsedEntry(m, k) < Q.NUM then m.q.info[UsedEntry(m, k)].status else 0
  }

  lemma HandleEffect(m: Machine)
    requires InvAt(SEAL, m) && m.q.Valid() && m.handled < m.completed
    ensures HandleStep(m).Ok? <==> StatusOf(m, m.handled) == 0
    ensures HandleStep(m).Halt? ==> HandleStep(m) == Halt(DiskStatus)
    ensures HandleStep(m).Ok? ==> var t := HandleStep(m).value;
      InvAt(SEAL, t) && t.q.Valid() && t.handled == m.handled + 1 && t.completed == m.completed
    ensures HandleStep(m).Ok? ==> var h := UsedEntry(m, m.handled);
      && h in m.chains && m.chains[h].stage == Done(m.handled)
      && HandleStep(m).value.chains == m.chains[h := m.chains[h].(stage := Handled)]
  {
    OpenInv(SEAL, m);
    HandleHead(m);
    if HandleStep(m).Ok? {
      HandleInv(m);
    }
  }

  /** Handling one completion changes none of the rest. */
  lemma HandleLeaves(m: Machine, k: nat)
    requires m.q.Valid() && HandleStep(m).Ok?
    ensures var t := HandleStep(m).value;
      StatusOf(t, k) == StatusOf(m, k) && t.log == m.log && t.disk == m.disk && t.bufs == m.bufs
  {
  }

  lemma HasPending(m: Machine)
    requires InvAt(SEAL, m)
    ensures m.q.Valid() && m.handled <= m.completed
    ensures Q.Pending(m.q) == 0 <==> m.handled == m.completed
  {
    OpenInv(SEAL, m);
    PendingIsExact(m);
  }

  ghost predicate StatusGood(m: Machine)
    requires m.q.Valid()
  {
    forall k: nat :: m.handled <= k < m.completed ==> StatusOf(m, k) == 0
  }

  /** diskIntr handles every waiting completion, each once, in order; it fails
      only when the device has reported an error for one of them. */
  lemma {:induction false} InterruptHandles(m: Machine)
    requires InvAt(SEAL, m) && m.q.Valid()
    ensures var r := InterruptStep(m);
      && (r.Halt? ==> r == Halt(DiskStatus))
      && (r.Ok? <==> StatusGood(m))
      && (r.Ok? ==> InvAt(SEAL, r.value) && r.value.handled == r.value.completed == m.completed)
      && (r.Ok? ==> r.value.log == m.log && r.value.disk == m.disk && r.value.bufs == m.bufs)
    decreases m.completed - m.handled
  {
    hide HandleStep, UsedEntry;
    HasPending(m);
    if m.handled < m.completed {
      HandleEffect(m);
      if HandleStep(m).Ok? {
        var t := HandleStep(m).value;
        HandleLeaves(m, m.handled);
        forall k: nat | m.handled < k < m.completed ensures StatusOf(t, k) == StatusOf(m, k) {
          HandleLeaves(m, k);
        }
        InterruptHandles(t);
      }
    }
  }

  /** Every request whose completion was waiting is handled now. */
  lemma {:induction false} InterruptStages(m: Machine, h: nat)
    requires InvAt(SEAL, m) && m.q.Valid() && InterruptStep(m).Ok? && h in m.chains
    ensures var t := InterruptStep(m).value;
      && h in t.chains
      && t.chains[h] == m.chains[h].(stage := if m.chains[h].stage.Done? then Handled else m.chains[h].stage)
    decreases m.completed - m.handled
  {
    HasPending(m);
    if m.handled < m.completed {
      HandleEffect(m);
      InterruptStages(HandleStep(m).value, h);
    } else {
      OpenInv(SEAL, m);
      assert StageInv(m, h);
    }
  }

  /** The step on the queue is the driver's diskIntr. */
  lemma {:induction false} InterruptIsDiskIntr(m: Machine)
    requires m.q.Valid()
    ensures var r := InterruptStep(m); var d := Q.DiskIntr(m.q);
      (r.Ok? <==> d.Ok?) && (r.Ok? ==> r.value.q == d.value) && (r.Halt? ==> d == Halt(r.fault))
    decreases Q.Pending(m.q)
  {
    if Q.Pending(m.q) != 0 && HandleStep(m).Ok? {
      Q.PendingDrops(m.q);
      InterruptIsDiskIntr(HandleStep(m).value);
    }
  }
}
