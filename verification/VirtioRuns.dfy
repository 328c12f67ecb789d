/** Runs of the disk system: what holds in every state, and what a request as a
    whole amounts to. */
module VirtioRuns {
  import opened CacheSpec
  import opened Halting
  import opened Seal
  import opened Seqs
  import opened VirtioSystem
  import Q = VirtioQueue

  ghost function StepOf(m: Machine, e: Event): Result<Machine>
    requires m.q.Valid() && Enabled(m, e)
  {
    match e
    case Submit(b, blockno, write) => Ok(SubmitStep(m, b, blockno, write))
    case Take => Ok(TakeStep(m))
    case Complete(h, status) => Ok(CompleteStep(m, h, status))
    case Interrupt => InterruptStep(m)
    case Finish(h) => if h < Q.NUM then FinishStep(m, h) else Halt(Undefined)
  }

  /** The only step that can fail is the handler's, and only on a completion for
      which the device has reported an error. */
  lemma StepKeeps(m: Machine, e: Event)
    requires InvAt(SEAL, m) && m.q.Valid() && Enabled(m, e)
    ensures var r := StepOf(m, e);
      && (r.Ok? ==> InvAt(SEAL, r.value))
      && (r.Halt? ==> e == Interrupt && r == Halt(DiskStatus) && !StatusGood(m))
  {
    OpenInv(SEAL, m);
    match e
    case Submit(b, blockno, write) => SubmitInv(m, b, blockno, write);
    case Take => TakeInv(m);
    case Complete(h, status) => CompleteInv(m, h, status);
    case Interrupt => InterruptHandles(m);
    case Finish(h) => FinishInv(m, h);
  }

  /** The states of a run from boot, and the events between them. */
  ghost predicate IsRun(ms: seq<Machine>, es: seq<Event>) {
    && |ms| == |es| + 1
    && (exists disk, bufs :: ms[0] == Boot(disk, bufs))
    && forall i :: 0 <= i < |es| ==> IsStep(ms[i], es[i], ms[i + 1])
  }

  ghost predicate IsStep(m: Machine, e: Event, t: Machine) {
    m.q.Valid() && Enabled(m, e) && StepOf(m, e) == Ok(t)
  }

  lemma {:induction false} RunKeeps(ms: seq<Machine>, es: seq<Event>, i: nat)
    requires IsRun(ms, es) && i < |ms|
    ensures InvAt(SEAL, ms[i])
  {
    if i == 0 {
      var disk, bufs :| ms[0] == Boot(disk, bufs);
      BootInv(disk, bufs);
      OpenInv(SEAL, ms[0]);
    } else {
      RunKeeps(ms, es, i - 1);
      assert IsStep(ms[i - 1], es[i - 1], ms[i]);
      StepKeeps(ms[i - 1], es[i - 1]);
    }
  }

  /** In every state of every run at most two completions wait, the comparison
      of the indices modulo 8 tells whether any does, and no request has been
      completed twice. */
  lemma RunSafe(ms: seq<Machine>, es: seq<Event>, i: nat)
    requires IsRun(ms, es) && i < |ms|
    ensures ms[i].q.Valid()
    ensures ms[i].handled <= ms[i].completed <= ms[i].handled + 2
    ensures ms[i].q.usedIdx % Q.NUM != ms[i].q.usedId % Q.NUM <==> ms[i].handled < ms[i].completed
    ensures Distinct(ms[i].log) && |ms[i].log| == ms[i].completed
    ensures forall h :: h in ms[i].chains ==> h < Q.NUM && ms[i].q.info[h].b == Some(ms[i].chains[h].b)
  {
    RunKeeps(ms, es, i);
    OpenInv(SEAL, ms[i]);
    FewPending(ms[i]);
    PendingIsExact(ms[i]);
    forall h | h in ms[i].chains ensures h < Q.NUM && ms[i].q.info[h].b == Some(ms[i].chains[h].b) {
      assert ChainInv(ms[i], h);
    }
  }

  /** With nothing in flight, every request has been completed once and handled,
      and all descriptors are free. */
  lemma IdleCounts(m: Machine)
    requires InvAt(SEAL, m) && m.chains == map[]
    ensures m.q.Valid() && Distinct(m.log) && m.completed == m.submitted == m.handled == m.taken
    ensures forall id: nat :: id in m.log <==> id < m.submitted
    ensures forall i :: 0 <= i < Q.NUM ==> m.q.free[i]
  {
    OpenInv(SEAL, m);
    forall id: nat ensures id in m.log <==> id < m.submitted {
      if id in m.log {
        var k :| 0 <= k < |m.log| && m.log[k] == id;
      }
    }
    DistinctCardinality(m.log, Range(0, m.submitted));
    SubsetCard(Range(0, m.submitted), Elements(m.log));
    ElementsCard(m.log);
    assert RingEntry(m, m.taken) !in m.chains;
    assert UsedEntry(m, m.handled) !in m.chains;
  }

  // One request
  // -----------

  lemma {:induction false} AllFree(free: seq<bool>, i: nat)
    requires i <= |free| && forall k :: i <= k < |free| ==> free[k]
    ensures |Q.FreeFrom(free, i)| == |free| - i
    decreases |free| - i
  {
    hide Q.FreeFrom;
    Q.FreeFromHere(free, i);
    if i < |free| {
      AllFree(free, i + 1);
    }
  }

  lemma AllListed(free: seq<bool>)
    requires forall k :: 0 <= k < |free| ==> free[k]
    ensures |Q.FreeList(free)| == |free|
  {
    AllFree(free, 0);
  }

  /** Submitted and taken: the device has the request in hand. */
  lemma TakenUp(m: Machine, b: nat, blockno: nat, write: bool) returns (h: nat, t: Machine)
    requires InvAt(SEAL, m) && m.chains == map[] && blockno < DISKSIZE
    ensures m.q.Valid() && Enabled(m, Submit(b, blockno, write))
    ensures var s := SubmitStep(m, b, blockno, write);
      s.q.Valid() && Enabled(s, Take) && t == TakeStep(s)
    ensures InvAt(SEAL, t) && t.q.Valid() && t.chains.Keys == {h} && h in t.busy
    ensures t.chains[h].b == b && t.chains[h].blockno == blockno && t.chains[h].write == write
    ensures t.disk == m.disk && t.bufs == m.bufs && t.handled == t.completed
  {
    hide SubmitStep, ChainInv, StageInv, FreeInv, LogInv, UsedInv;
    var s;
    h, s := Submitted(m, b, blockno, write);
    OpenInv(SEAL, s);
    t := TakeStep(s);
    TakeHead(s);
    TakeInv(s);
    assert t.chains.Keys == {h};
    OpenInv(SEAL, t);
  }

  lemma Submitted(m: Machine, b: nat, blockno: nat, write: bool) returns (h: nat, s: Machine)
    requires InvAt(SEAL, m) && m.chains == map[] && blockno < DISKSIZE
    ensures m.q.Valid() && Enabled(m, Submit(b, blockno, write)) && s == SubmitStep(m, b, blockno, write)
    ensures InvAt(SEAL, s) && s.q.Valid() && Enabled(s, Take) && s.chains.Keys == {h}
    ensures s.chains[h].b == b && s.chains[h].blockno == blockno && s.chains[h].write == write
    ensures s.disk == m.disk && s.bufs == m.bufs && s.handled == s.completed
  {
    hide SubmitStep, ChainInv, StageInv, FreeInv, LogInv, UsedInv, RingInv, Q.FreeList, Q.Submit;
    IdleCounts(m);
    AllListed(m.q.free);
    OpenInv(SEAL, m);
    h := Q.FreeList(m.q.free)[0];
    s := SubmitStep(m, b, blockno, write);
    SubmitShape(m, b, blockno, write);
    SubmitInv(m, b, blockno, write);
    OpenInv(SEAL, s);
    NextIsOther(m.submitted);
    assert s.chains.Keys == {h};
  }

  lemma NextIsOther(n: nat)
    ensures n % Q.IDX_LIMIT != (n + 1) % Q.IDX_LIMIT
  {
  }

  /** A request carried out to the end is one block transfer and nothing else:
      diskRW is the atomic step that the buffer cache takes it for. */
  lemma OneRequest(m: Machine, b: nat, blockno: nat, write: bool)
    returns (h: nat, taken: Machine, done: Machine, handled: Machine, end: Machine)
    requires InvAt(SEAL, m) && m.chains == map[] && blockno < DISKSIZE && blockno < |m.disk| && b in m.bufs
    ensures m.q.Valid() && Enabled(m, Submit(b, blockno, write))
    ensures IsStep(m, Submit(b, blockno, write), SubmitStep(m, b, blockno, write))
    ensures IsStep(SubmitStep(m, b, blockno, write), Take, taken)
    ensures IsStep(taken, Complete(h, 0), done)
    ensures IsStep(done, Interrupt, handled)
    ensures IsStep(handled, Finish(h), end)
    ensures InvAt(SEAL, end) && end.chains == map[]
    ensures if write then end.disk == m.disk[blockno := m.bufs[b]] && end.bufs == m.bufs
            else end.bufs == m.bufs[b := m.disk[blockno]] && end.disk == m.disk
  {
    h, taken := TakenUp(m, b, blockno, write);
    OpenInv(SEAL, taken);
    BusyChain(taken, h);
    done := CompleteStep(taken, h, 0);
    CompleteMoves(taken, h);
    OneDone(taken, h);
    handled, end := Settled(done, h);
  }

  lemma OneDone(taken: Machine, h: nat)
    requires InvAt(SEAL, taken) && taken.q.Valid() && taken.chains.Keys == {h} && taken.handled == taken.completed
    requires Enabled(taken, Complete(h, 0))
    ensures var done := CompleteStep(taken, h, 0);
      InvAt(SEAL, done) && done.q.Valid() && StatusGood(done) && done.chains.Keys == {h} && done.chains[h].stage.Done?
  {
    hide CompleteStep, ChainInv, StageInv, FreeInv, LogInv, RingInv;
    OpenInv(SEAL, taken);
    CompleteShape(taken, h, 0);
    CompleteInv(taken, h, 0);
    var done := CompleteStep(taken, h, 0);
    OpenInv(SEAL, done);
    forall k: nat | done.handled <= k < done.completed ensures StatusOf(done, k) == 0 {
      assert UsedEntry(done, k) in done.chains;
    }
  }

  /** The handler and the end of diskRW, after the device has done its part. */
  lemma Settled(done: Machine, h: nat) returns (handled: Machine, end: Machine)
    requires InvAt(SEAL, done) && done.q.Valid() && StatusGood(done) && done.chains.Keys == {h}
        && done.chains[h].stage.Done?
    ensures IsStep(done, Interrupt, handled) && IsStep(handled, Finish(h), end)
    ensures InvAt(SEAL, end) && end.chains == map[] && end.disk == done.disk && end.bufs == done.bufs
  {
    hide InterruptStep, FinishStep, ChainInv, StageInv, FreeInv, LogInv, RingInv, UsedInv, StatusGood;
    InterruptHandles(done);
    InterruptStages(done, h);
    SameKeys(done);
    handled := InterruptStep(done).value;
    OpenInv(SEAL, handled);
    FinishInv(handled, h);
    FinishShape(handled, h);
    end := FinishStep(handled, h).value;
  }

  lemma {:induction false} SameKeys(m: Machine)
    requires InvAt(SEAL, m) && m.q.Valid() && InterruptStep(m).Ok?
    ensures InterruptStep(m).value.chains.Keys == m.chains.Keys
    decreases m.completed - m.handled
  {
    HasPending(m);
    if m.handled < m.completed {
      HandleEffect(m);
      SameKeys(HandleStep(m).value);
    }
  }
}
