/** What becomes of each request of a run: the device carries it out once. */
module VirtioHistory {
  import opened Halting
  import opened Seal
  import opened Seqs
  import opened VirtioRuns
  import opened VirtioSystem
  import Q = VirtioQueue

  // One step
  // --------

  /** The requests that event e completes. */
  ghost function DoneBy(m: Machine, e: Event): seq<nat> {
    if e.Complete? && e.h in m.chains then [m.chains[e.h].id] else []
  }

  /** Only the device adds to the log, and only diskRW makes requests. */
  lemma StepCounts(m: Machine, e: Event, t: Machine)
    requires InvAt(SEAL, m) && IsStep(m, e, t)
    ensures t.log == m.log + DoneBy(m, e)
    ensures t.submitted == m.submitted + (if e.Submit? then 1 else 0)
    ensures t.handled == if e.Interrupt? then m.completed else m.handled
  {
    match e
    case Submit(_, _, _) =>
    case Take =>
    case Complete(h, _) => CompletesNew(m, e);
    case Interrupt =>
      InterruptHandles(m);
      InterruptSubmits(m);
    case Finish(h) =>
      OpenInv(SEAL, m);
      FinishShape(m, h);
  }

  lemma {:induction false} InterruptSubmits(m: Machine)
    requires InvAt(SEAL, m) && m.q.Valid() && InterruptStep(m).Ok?
    ensures InterruptStep(m).value.submitted == m.submitted
    decreases m.completed - m.handled
  {
    HasPending(m);
    if m.handled < m.completed {
      HandleEffect(m);
      InterruptSubmits(HandleStep(m).value);
    }
  }

  /** The device completes only what it has not completed before. */
  lemma CompletesNew(m: Machine, e: Event)
    requires InvAt(SEAL, m) && m.q.Valid() && e.Complete? && Enabled(m, e)
    ensures e.h in m.chains && m.chains[e.h].id !in m.log && m.chains[e.h].id < m.submitted
  {
    OpenInv(SEAL, m);
    BusyChain(m, e.h);
    assert ChainInv(m, e.h) && StageInv(m, e.h);
  }

  /** A status byte stays as the device left it until the handler has seen it,
      and the handler goes on only from a good one. */
  lemma StepStatus(m: Machine, e: Event, t: Machine, n: nat)
    requires InvAt(SEAL, m) && InvAt(SEAL, t) && IsStep(m, e, t) && m.handled <= n < m.completed && t.q.Valid()
    ensures if e.Interrupt? then StatusOf(m, n) == 0 else StatusOf(t, n) == StatusOf(m, n)
  {
    hide SubmitStep, CompleteStep, FinishStep, InterruptStep, ChainInv, StageInv, RingInv, UsedInv, FreeInv, LogInv,
         Unlike;
    OpenInv(SEAL, m);
    WaitingEntry(m, n);
    match e
    case Submit(b, blockno, write) =>
      SubmitStatus(m, b, blockno, write, UsedEntry(m, n));
    case Take =>
    case Complete(h, status) => CompleteStatus(m, h, status, n);
    case Interrupt => InterruptHandles(m);
    case Finish(h) => FinishShape(m, h);
  }

  lemma WaitingEntry(m: Machine, n: nat)
    requires VirtioSystem.Inv(m) && m.handled <= n < m.completed
    ensures var g := UsedEntry(m, n);
      g in m.chains && m.chains[g].stage == Done(n) && g < Q.NUM && !m.q.free[g]
  {
    assert m.chains[UsedEntry(m, n)].stage == Done(n);
    assert ChainInv(m, UsedEntry(m, n));
  }

  lemma SubmitStatus(m: Machine, b: nat, blockno: nat, write: bool, g: nat)
    requires m.q.Valid() && Enabled(m, Submit(b, blockno, write)) && g < Q.NUM && !m.q.free[g]
    ensures var t := SubmitStep(m, b, blockno, write); t.q.info[g] == m.q.info[g] && t.q.elems == m.q.elems
  {
    var l := Q.FreeList(m.q.free);
    assert m.q.free[l[0]] && m.q.free[l[1]] && m.q.free[l[2]];
  }

  lemma CompleteStatus(m: Machine, h: nat, status: nat, n: nat)
    requires VirtioSystem.Inv(m) && Enabled(m, Complete(h, status)) && m.handled <= n < m.completed
    requires UsedEntry(m, n) in m.chains && m.chains[UsedEntry(m, n)].stage == Done(n)
    requires CompleteStep(m, h, status).q.Valid()
    ensures StatusOf(CompleteStep(m, h, status), n) == StatusOf(m, n)
  {
    BusyChain(m, h);
    FewPending(m);
    UsedAfterComplete(m, h, status, n);
  }

  lemma NewStatus(m: Machine, e: Event, t: Machine)
    requires InvAt(SEAL, m) && IsStep(m, e, t) && t.q.Valid() && e.Complete?
    ensures StatusOf(t, m.completed) == e.status
  {
    OpenInv(SEAL, m);
    BusyChain(m, e.h);
    FewPending(m);
    UsedAfterComplete(m, e.h, e.status, m.completed);
  }

  /** A request in flight is one made now, or one that was in flight already. */
  lemma StepChain(m: Machine, e: Event, t: Machine, h: nat)
    requires InvAt(SEAL, m) && IsStep(m, e, t) && h in t.chains
    ensures h in m.chains ==> t.chains[h] == m.chains[h].(stage := t.chains[h].stage)
    ensures h !in m.chains ==>
      e.Submit? && t.chains[h].id == m.submitted && e == Submit(t.chains[h].b, t.chains[h].blockno, t.chains[h].write)
  {
    hide ChainInv, StageInv, RingInv, UsedInv, FreeInv, LogInv;
    match e
    case Submit(b, blockno, write) =>
      if h in m.chains {
        OpenInv(SEAL, m);
        SubmitOld(m, b, blockno, write, h);
      }
    case Take =>
    case Complete(_, _) =>
    case Interrupt =>
      SameKeys(m);
      InterruptStages(m, h);
    case Finish(g) =>
      OpenInv(SEAL, m);
      FinishShape(m, g);
  }

  // Runs
  // ----

  lemma RunStep(ms: seq<Machine>, es: seq<Event>, i: nat)
    requires IsRun(ms, es) && i < |es|
    ensures InvAt(SEAL, ms[i]) && InvAt(SEAL, ms[i + 1]) && IsStep(ms[i], es[i], ms[i + 1]) && ms[i + 1].q.Valid()
  {
    RunKeeps(ms, es, i);
    RunKeeps(ms, es, i + 1);
    OpenInv(SEAL, ms[i + 1]);
  }

  lemma EmptyAtBoot(ms: seq<Machine>, es: seq<Event>)
    requires IsRun(ms, es)
    ensures ms[0].log == [] && ms[0].submitted == 0 && ms[0].chains == map[]
  {
  }

  lemma {:induction false} LogGrows(ms: seq<Machine>, es: seq<Event>, i: nat, k: nat)
    requires IsRun(ms, es) && i <= k < |ms|
    ensures ms[i].log <= ms[k].log && ms[i].submitted <= ms[k].submitted
  {
    hide IsStep;
    if i < k {
      LogGrows(ms, es, i, k - 1);
      RunStep(ms, es, k - 1);
      StepCounts(ms[k - 1], es[k - 1], ms[k]);
    }
  }

  /** Event j is the device's completion of request id. */
  ghost predicate Completes(ms: seq<Machine>, es: seq<Event>, j: nat, id: nat) {
    && j < |es| && j < |ms| && es[j].Complete?
    && es[j].h in ms[j].chains && ms[j].chains[es[j].h].id == id
  }

  /** No request is completed twice. */
  lemma NotTwice(ms: seq<Machine>, es: seq<Event>, j: nat, k: nat, id: nat)
    requires IsRun(ms, es) && j < k && Completes(ms, es, j, id)
    ensures !Completes(ms, es, k, id)
  {
    if Completes(ms, es, k, id) {
      RunStep(ms, es, j);
      StepCounts(ms[j], es[j], ms[j + 1]);
      assert ms[j + 1].log[|ms[j].log|] == id;
      LogGrows(ms, es, j + 1, k);
      assert ms[k].log[|ms[j].log|] == id;
      RunStep(ms, es, k);
      CompletesNew(ms[k], es[k]);
    }
  }

  /** Event j is the n-th completion, with the status it has left in state i
      unless the handler has seen it, and it has seen only a good one. */
  ghost predicate CompletionAt(ms: seq<Machine>, es: seq<Event>, i: nat, n: nat, j: nat)
    requires i < |ms| && n < |ms[i].log| && ms[i].q.Valid()
  {
    && j < i && Completes(ms, es, j, ms[i].log[n])
    && es[j].status == if n < ms[i].handled then 0 else StatusOf(ms[i], n)
  }

  lemma {:induction false} CompletionOf(ms: seq<Machine>, es: seq<Event>, i: nat, n: nat) returns (j: nat)
    requires IsRun(ms, es) && i < |ms| && n < |ms[i].log|
    ensures ms[i].q.Valid() && CompletionAt(ms, es, i, n, j)
  {
    hide IsStep, InterruptStep, StatusOf;
    EmptyAtBoot(ms, es);
    RunStep(ms, es, i - 1);
    StepCounts(ms[i - 1], es[i - 1], ms[i]);
    CountsLog(ms[i - 1]);
    if n < |ms[i - 1].log| {
      j := CompletionOf(ms, es, i - 1, n);
      if ms[i - 1].handled <= n {
        StepStatus(ms[i - 1], es[i - 1], ms[i], n);
      }
    } else {
      j := i - 1;
      NewStatus(ms[j], es[j], ms[i]);
    }
  }

  lemma CountsLog(m: Machine)
    requires InvAt(SEAL, m)
    ensures m.completed == |m.log| && m.handled <= m.completed
  {
    OpenInv(SEAL, m);
  }

  lemma {:induction false} SubmissionOf(ms: seq<Machine>, es: seq<Event>, i: nat, id: nat) returns (s: nat)
    requires IsRun(ms, es) && i < |ms| && id < ms[i].submitted
    ensures s < i && es[s].Submit? && ms[s].submitted == id
  {
    hide IsStep;
    EmptyAtBoot(ms, es);
    RunStep(ms, es, i - 1);
    StepCounts(ms[i - 1], es[i - 1], ms[i]);
    s := i - 1;
    if id < ms[i - 1].submitted {
      s := SubmissionOf(ms, es, i - 1, id);
    }
  }

  /** Requests are numbered in the order they are made. */
  lemma SubmittedOnce(ms: seq<Machine>, es: seq<Event>, s: nat, r: nat)
    requires IsRun(ms, es) && s < r < |es| && es[s].Submit?
    ensures ms[s].submitted < ms[r].submitted
  {
    RunStep(ms, es, s);
    StepCounts(ms[s], es[s], ms[s + 1]);
    LogGrows(ms, es, s + 1, r);
  }

  /** A request in flight is the one that was made under its number. */
  lemma {:induction false} ChainFrom(ms: seq<Machine>, es: seq<Event>, i: nat, h: nat, s: nat)
    requires IsRun(ms, es) && i < |ms| && h in ms[i].chains
    requires s < |es| && es[s].Submit? && ms[s].submitted == ms[i].chains[h].id
    ensures var c := ms[i].chains[h]; es[s] == Submit(c.b, c.blockno, c.write)
  {
    hide IsStep;
    EmptyAtBoot(ms, es);
    if i > 0 {
      RunStep(ms, es, i - 1);
      StepChain(ms[i - 1], es[i - 1], ms[i], h);
      if h in ms[i - 1].chains {
        ChainFrom(ms, es, i - 1, h, s);
      } else if s < i - 1 {
        SubmittedOnce(ms, es, s, i - 1);
      } else if i - 1 < s {
        SubmittedOnce(ms, es, i - 1, s);
      }
    }
  }

  /** Block `blockno` goes from the disk to buffer b, or the other way, and
      nothing else moves. */
  ghost predicate Moves(m: Machine, t: Machine, b: nat, blockno: nat, write: bool) {
    && blockno < |m.disk| && b in m.bufs
    && if write then t.disk == m.disk[blockno := m.bufs[b]] && t.bufs == m.bufs
       else t.bufs == m.bufs[b := m.disk[blockno]] && t.disk == m.disk
  }

  /** Event j carries out what event s has asked for: it alone completes the
      request, with status 0, and the block moves. */
  ghost predicate CarriesOut(ms: seq<Machine>, es: seq<Event>, s: nat, j: nat) {
    && s < |es| && j < |es| && |ms| == |es| + 1 && es[s].Submit? && es[j].Complete? && es[j].status == 0
    && (forall k: nat :: Completes(ms, es, k, ms[s].submitted) <==> k == j)
    && Moves(ms[j], ms[j + 1], es[s].b, es[s].blockno, es[s].write)
  }

  /** A completion that the handler has seen is the one time that its request
      was carried out. */
  lemma HandledOnce(ms: seq<Machine>, es: seq<Event>, i: nat, n: nat) returns (s: nat, j: nat)
    requires IsRun(ms, es) && i < |ms| && n < ms[i].handled && n < |ms[i].log|
    ensures s < j < i && ms[s].submitted == ms[i].log[n] && CarriesOut(ms, es, s, j)
  {
    j := CompletionOf(ms, es, i, n);
    RunStep(ms, es, j);
    CompletesNew(ms[j], es[j]);
    s := SubmissionOf(ms, es, j, ms[i].log[n]);
    ChainFrom(ms, es, j, es[j].h, s);
    OpenInv(SEAL, ms[j]);
    CompleteMoves(ms[j], es[j].h);
    forall k: nat ensures Completes(ms, es, k, ms[s].submitted) <==> k == j {
      if k < j && Completes(ms, es, k, ms[s].submitted) {
        NotTwice(ms, es, k, j, ms[s].submitted);
      } else if j < k {
        NotTwice(ms, es, j, k, ms[s].submitted);
      }
    }
  }

  lemma WaitingStage(m: Machine, h: nat, n: nat)
    requires VirtioSystem.Inv(m) && h in m.chains && m.handled <= n < m.completed && m.log[n] == m.chains[h].id
    ensures m.chains[h].stage == Done(n)
  {
    var g := UsedEntry(m, n);
    assert m.chains[g].stage == Done(n) && StageInv(m, g);
  }

  /** A handled request is among the completions that the handler has seen. */
  lemma HandledIndex(m: Machine, h: nat) returns (n: nat)
    requires InvAt(SEAL, m) && h in m.chains && m.chains[h].stage == Handled
    ensures n < m.handled && n < |m.log| && m.log[n] == m.chains[h].id
  {
    OpenInv(SEAL, m);
    assert StageInv(m, h);
    n :| n < |m.log| && m.log[n] == m.chains[h].id;
    if m.handled <= n {
      WaitingStage(m, h, n);
    }
  }

  /** When diskRW goes on after its wait, the device has carried out its request
      exactly once, and the buffer is the driver's again. */
  lemma FinishedOnce(ms: seq<Machine>, es: seq<Event>, i: nat, h: nat) returns (s: nat, j: nat)
    requires IsRun(ms, es) && i < |es| && es[i] == Finish(h)
    ensures h in ms[i].chains && s < j < i
    ensures var c := ms[i].chains[h];
      es[s] == Submit(c.b, c.blockno, c.write) && ms[s].submitted == c.id && c.b !in ms[i].q.owned
    ensures CarriesOut(ms, es, s, j)
  {
    RunStep(ms, es, i);
    OpenInv(SEAL, ms[i]);
    assert ChainInv(ms[i], h);
    var n := HandledIndex(ms[i], h);
    s, j := HandledOnce(ms, es, i, n);
    ChainFrom(ms, es, i, h, s);
  }

  /** With nothing in flight, every request made so far has been carried out
      exactly once. */
  lemma NothingLost(ms: seq<Machine>, es: seq<Event>, i: nat, s: nat) returns (j: nat)
    requires IsRun(ms, es) && i < |ms| && ms[i].chains == map[]
    requires s < i && es[s].Submit?
    ensures s < j < i && CarriesOut(ms, es, s, j)
  {
    hide IsStep, Moves, Completes;
    RunKeeps(ms, es, i);
    IdleCounts(ms[i]);
    RunStep(ms, es, s);
    StepCounts(ms[s], es[s], ms[s + 1]);
    LogGrows(ms, es, s + 1, i);
    CountsLog(ms[i]);
    assert ms[s].submitted in ms[i].log;
    var n: nat :| n < |ms[i].log| && ms[i].log[n] == ms[s].submitted;
    var r;
    r, j := HandledOnce(ms, es, i, n);
    if r < s {
      SubmittedOnce(ms, es, r, s);
    } else if s < r {
      SubmittedOnce(ms, es, s, r);
    }
  }
}
