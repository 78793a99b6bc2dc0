/**
 `recharge` and `reverse` with their several durable commits, run by any number of
 sessions that may crash between any two of them and be retried without limit.

 The PENDING row becomes durable no later than the credit: `add_balance` commits the
 flushed row together with the balance, or earlier when it has to reset the counters.
 */
module CreditProtocol {
  import opened Ledger

  datatype Entry = Entry(kind: TxKind, status: Status, amount: real)

  /** What survives a crash.  `credits` is the history of the balance updates. */
  datatype Db = Db(entries: map<Trace, Entry>, balance: real, credits: seq<Credit>)
  datatype Credit = Credit(job: Job, amount: real)

  datatype Job = Pay(trace: Trace, amount: real) | Undo(original: Trace, trace: Trace)

  /** `Inserted` holds the flushed row; `durable` tells whether it was committed already. */
  datatype Phase = Start | Cleared(amount: real) | Inserted(amount: real, durable: bool) | Credited(amount: real) | Finished | Refused

  datatype Worker = Worker(job: Job, phase: Phase)
  datatype System = System(db: Db, workers: seq<Worker>)

  datatype Step = Begin(w: nat) | Insert(w: nat) | EarlyCommit(w: nat) | CreditCommit(w: nat) | Finish(w: nat) | Restart(w: nat)

  function KindOf(job: Job): TxKind { if job.Pay? then Payment else Refund }

  /** The idempotency check, and for a reversal the checks on the original. */
  function AfterChecks(db: Db, job: Job): Phase {
    if job.Undo? && job.original !in db.entries then Refused
    else if job.Undo? && (db.entries[job.original].status == Reversed || db.entries[job.original].kind != Deduction) then Refused
    else if job.trace in db.entries then (if db.entries[job.trace].status == Committed then Finished else Refused)
    else Cleared(if job.Pay? then job.amount else db.entries[job.original].amount)
  }

  /** Another session has flushed, but not committed, a row with this trace id: the insert waits for it. */
  predicate Blocked(s: System, w: nat)
    requires w < |s.workers|
  {
    exists v :: 0 <= v < |s.workers| && v != w && s.workers[v].phase.Inserted? && !s.workers[v].phase.durable
             && s.workers[v].job.trace == s.workers[w].job.trace
  }

  function WithPhase(s: System, w: nat, p: Phase): System
    requires w < |s.workers|
  {
    s.(workers := s.workers[w := s.workers[w].(phase := p)])
  }

  function Next(s: System, step: Step): System {
    if step.w >= |s.workers| then s
    else
      var w := step.w;
      var Worker(job, phase) := s.workers[w];
      match step
      case Begin(_) => if phase.Start? then WithPhase(s, w, AfterChecks(s.db, job)) else s
      case Insert(_) =>
        if !phase.Cleared? || Blocked(s, w) then s
        else if job.trace in s.db.entries then WithPhase(s, w, Refused)
        else WithPhase(s, w, Inserted(phase.amount, false))
      case EarlyCommit(_) =>
        if phase.Inserted? && !phase.durable then
          WithPhase(s, w, Inserted(phase.amount, true)).(db := s.db.(entries := WithPending(s.db, job, phase.amount)))
        else s
      case CreditCommit(_) =>
        if phase.Inserted? then
          WithPhase(s, w, Credited(phase.amount)).(db := Db(WithPending(s.db, job, phase.amount),
            s.db.balance + phase.amount, s.db.credits + [Credit(job, phase.amount)]))
        else s
      case Finish(_) =>
        if phase.Credited? then WithPhase(s, w, Finished).(db := s.db.(entries := WithCommitted(s.db, job, phase.amount)))
        else s
      case Restart(_) => WithPhase(s, w, Start)
  }

  function WithPending(db: Db, job: Job, amount: real): map<Trace, Entry> {
    db.entries[job.trace := Entry(KindOf(job), Pending, amount)]
  }

  function WithCommitted(db: Db, job: Job, amount: real): map<Trace, Entry> {
    var entries := if job.Undo? && job.original in db.entries
                   then db.entries[job.original := db.entries[job.original].(status := Reversed)] else db.entries;
    entries[job.trace := Entry(KindOf(job), Committed, amount)]
  }

  function Run(s: System, steps: seq<Step>): System {
    if steps == [] then s else Next(Run(s, steps[..|steps| - 1]), steps[|steps| - 1])
  }

  ghost predicate Fresh(s: System) {
    && s.db.credits == []
    && (forall t :: t in s.db.entries ==> s.db.entries[t].kind == Deduction)
    && (forall w :: 0 <= w < |s.workers| ==> s.workers[w].phase == Start)
  }

  // ---- the invariant ----

  function Count(credits: seq<Credit>, t: Trace): nat {
    if credits == [] then 0
    else Count(credits[..|credits| - 1], t) + if credits[|credits| - 1].job.trace == t then 1 else 0
  }

  function Total(credits: seq<Credit>): real {
    if credits == [] then 0.0 else Total(credits[..|credits| - 1]) + credits[|credits| - 1].amount
  }

  /** The credits of a trace id agree with what the table says about it. */
  ghost predicate TraceSettled(db: Db, t: Trace) {
    && Count(db.credits, t) <= 1
    && (t !in db.entries || db.entries[t].kind == Deduction ==> Count(db.credits, t) == 0)
    && (t in db.entries && db.entries[t].kind != Deduction && db.entries[t].status != Pending ==>
          db.entries[t].status == Committed && Count(db.credits, t) == 1)
  }

  ghost predicate Owns(p: Phase) { p.Inserted? || p.Credited? }

  /** What a session between its insert and its last commit can rely on. */
  ghost predicate OwnerSound(db: Db, worker: Worker) {
    var t := worker.job.trace;
    match worker.phase
    case Inserted(a, durable) =>
      && Count(db.credits, t) == 0
      && (if durable then t in db.entries && db.entries[t] == Entry(KindOf(worker.job), Pending, a) else t !in db.entries)
    case Credited(a) => Count(db.credits, t) == 1 && t in db.entries && db.entries[t] == Entry(KindOf(worker.job), Pending, a)
    case _ => true
  }

  /** The deduction that a cleared reversal read is still a deduction. */
  ghost predicate OriginalSound(db: Db, worker: Worker) {
    worker.job.Undo? && (worker.phase.Cleared? || Owns(worker.phase)) ==>
      worker.job.original in db.entries && db.entries[worker.job.original].kind == Deduction
  }

  ghost predicate Inv(s: System) {
    && (forall t :: TraceSettled(s.db, t))
    && (forall w :: 0 <= w < |s.workers| ==> OwnerSound(s.db, s.workers[w]) && OriginalSound(s.db, s.workers[w]))
    && (forall v, w :: 0 <= v < w < |s.workers| && Owns(s.workers[v].phase) && Owns(s.workers[w].phase) ==>
          s.workers[v].job.trace != s.workers[w].job.trace)
  }

  lemma CountAppend(credits: seq<Credit>, c: Credit, t: Trace)
    ensures Count(credits + [c], t) == Count(credits, t) + if c.job.trace == t then 1 else 0
  {
  }

  lemma PendingStaysSettled(db: Db, worker: Worker, t: Trace)
    requires TraceSettled(db, t) && worker.phase.Inserted? && OwnerSound(db, worker)
    ensures TraceSettled(db.(entries := WithPending(db, worker.job, worker.phase.amount)), t)
  {
  }

  lemma CreditStaysSettled(db: Db, worker: Worker, t: Trace)
    requires TraceSettled(db, t) && worker.phase.Inserted? && OwnerSound(db, worker)
    ensures var amount := worker.phase.amount;
            TraceSettled(Db(WithPending(db, worker.job, amount), db.balance + amount, db.credits + [Credit(worker.job, amount)]), t)
  {
    CountAppend(db.credits, Credit(worker.job, worker.phase.amount), t);
  }

  lemma CommittedStaysSettled(db: Db, worker: Worker, t: Trace)
    requires TraceSettled(db, t) && worker.phase.Credited? && OwnerSound(db, worker) && OriginalSound(db, worker)
    ensures TraceSettled(db.(entries := WithCommitted(db, worker.job, worker.phase.amount)), t)
  {
  }

  lemma DbStep(s: System, step: Step, t: Trace)
    requires Inv(s)
    ensures TraceSettled(Next(s, step).db, t)
  {
    assert TraceSettled(s.db, t);
    if step.w < |s.workers| {
      var worker := s.workers[step.w];
      assert OwnerSound(s.db, worker) && OriginalSound(s.db, worker);
      if step.EarlyCommit? && worker.phase.Inserted? { PendingStaysSettled(s.db, worker, t); }
      else if step.CreditCommit? && worker.phase.Inserted? { CreditStaysSettled(s.db, worker, t); }
      else if step.Finish? && worker.phase.Credited? { CommittedStaysSettled(s.db, worker, t); }
    }
  }

  lemma OwnerStep(s: System, step: Step, v: nat)
    requires Inv(s) && v < |s.workers|
    ensures OwnerSound(Next(s, step).db, Next(s, step).workers[v])
  {
    assert OwnerSound(s.db, s.workers[v]);
    if step.w < |s.workers| {
      var worker := s.workers[step.w];
      assert OwnerSound(s.db, worker) && OriginalSound(s.db, worker);
      if step.CreditCommit? && worker.phase.Inserted? {
        CountAppend(s.db.credits, Credit(worker.job, worker.phase.amount), s.workers[v].job.trace);
      } else if step.Insert? {
        assert TraceSettled(s.db, worker.job.trace);
      }
    }
  }

  lemma OriginalStep(s: System, step: Step, v: nat)
    requires Inv(s) && v < |s.workers|
    ensures OriginalSound(Next(s, step).db, Next(s, step).workers[v])
  {
  }

  lemma InvStep(s: System, step: Step)
    requires Inv(s)
    ensures Inv(Next(s, step))
  {
    var s' := Next(s, step);
    forall t ensures TraceSettled(s'.db, t) { DbStep(s, step, t); }
    forall w | 0 <= w < |s'.workers| ensures OwnerSound(s'.db, s'.workers[w]) && OriginalSound(s'.db, s'.workers[w]) {
      OwnerStep(s, step, w);
      OriginalStep(s, step, w);
    }
    forall v, w | 0 <= v < w < |s'.workers| && Owns(s'.workers[v].phase) && Owns(s'.workers[w].phase)
      ensures s'.workers[v].job.trace != s'.workers[w].job.trace
    {
      assert OwnerSound(s.db, s.workers[v]) && OwnerSound(s.db, s.workers[w]);
    }
  }

  /**
   With crashes between any two commits and unlimited retries, each recharge or reversal
   trace id credits the balance at most once, and exactly once if its row is COMMITTED.
   */
  lemma {:induction false} CreditedAtMostOnce(s: System, steps: seq<Step>)
    requires Fresh(s)
    ensures Inv(Run(s, steps))
    ensures Run(s, steps).db.balance == s.db.balance + Total(Run(s, steps).db.credits)
  {
    if steps != [] {
      var before := Run(s, steps[..|steps| - 1]);
      CreditedAtMostOnce(s, steps[..|steps| - 1]);
      InvStep(before, steps[|steps| - 1]);
      var after := Run(s, steps);
      if after.db.credits != before.db.credits {
        assert after.db.credits[..|after.db.credits| - 1] == before.db.credits;
      }
    }
  }

  // ---- every credit pays what its call asked for ----

  /** What a job is to pay: the amount of the recharge, or that of the deduction it reverses. */
  function Owed(db: Db, job: Job): real {
    if job.Pay? then job.amount else if job.original in db.entries then db.entries[job.original].amount else 0.0
  }

  ghost predicate PaysOwed(s: System, worker: Worker) {
    worker.phase.Cleared? || Owns(worker.phase) ==> worker.phase.amount == Owed(s.db, worker.job)
  }

  ghost predicate IssuedBy(s: System, c: Credit, w: int) {
    0 <= w < |s.workers| && s.workers[w].job == c.job && OriginalIsDeduction(s.db, s.workers[w].job)
    && c.amount == Owed(s.db, s.workers[w].job)
  }

  ghost predicate OriginalIsDeduction(db: Db, job: Job) {
    job.Undo? ==> job.original in db.entries && db.entries[job.original].kind == Deduction
  }

  ghost predicate Issued(s: System, c: Credit) {
    exists w :: IssuedBy(s, c, w)
  }

  ghost predicate AmountsOwed(s: System) {
    && (forall w :: 0 <= w < |s.workers| ==> PaysOwed(s, s.workers[w]))
    && (forall i :: 0 <= i < |s.db.credits| ==> Issued(s, s.db.credits[i]))
  }

  /** What the reversal of a deduction owes does not change any more. */
  lemma OwedIsFixed(s: System, step: Step, job: Job)
    requires Inv(s) && OriginalIsDeduction(s.db, job)
    ensures OriginalIsDeduction(Next(s, step).db, job) && Owed(Next(s, step).db, job) == Owed(s.db, job)
  {
  }

  lemma PaysOwedStep(s: System, step: Step, v: nat)
    requires Inv(s) && AmountsOwed(s) && v < |s.workers|
    ensures PaysOwed(Next(s, step), Next(s, step).workers[v])
  {
  }

  lemma IssuedStep(s: System, step: Step, i: nat) returns (w: int)
    requires Inv(s) && AmountsOwed(s) && i < |Next(s, step).db.credits|
    ensures IssuedBy(Next(s, step), Next(s, step).db.credits[i], w)
  {
    if i < |s.db.credits| {
      w :| IssuedBy(s, s.db.credits[i], w);
      OwedIsFixed(s, step, s.workers[w].job);
    } else {
      w := step.w;
      assert PaysOwed(s, s.workers[w]) && OriginalSound(s.db, s.workers[w]);
      OwedIsFixed(s, step, s.workers[w].job);
    }
  }

  /** In every run each credit was issued by a call with its trace id, for exactly the amount that call had to pay. */
  lemma {:induction false} CreditsPayWhatIsOwed(s: System, steps: seq<Step>)
    requires Fresh(s)
    ensures AmountsOwed(Run(s, steps))
  {
    if steps != [] {
      var before, last := Run(s, steps[..|steps| - 1]), steps[|steps| - 1];
      CreditedAtMostOnce(s, steps[..|steps| - 1]);
      CreditsPayWhatIsOwed(s, steps[..|steps| - 1]);
      var after := Next(before, last);
      forall w | 0 <= w < |after.workers| ensures PaysOwed(after, after.workers[w]) { PaysOwedStep(before, last, w); }
      forall i | 0 <= i < |after.db.credits| ensures Issued(after, after.db.credits[i]) {
        var w := IssuedStep(before, last, i);
      }
    }
  }

  // ---- the guarantee is per reversal id, not per reversed deduction ----

  /** Some session reverses deduction `o` under id `t`. */
  ghost predicate Reverses(workers: seq<Worker>, o: Trace, t: Trace) {
    exists w :: 0 <= w < |workers| && workers[w].job == Undo(o, t)
  }

  /** How often the amount of deduction `o` was paid back. */
  function PaidBack(credits: seq<Credit>, o: Trace): nat {
    if credits == [] then 0
    else
      var job := credits[|credits| - 1].job;
      PaidBack(credits[..|credits| - 1], o) + if job.Undo? && job.original == o then 1 else 0
  }

  lemma PaidBackAppend(credits: seq<Credit>, c: Credit, o: Trace)
    ensures PaidBack(credits + [c], o) == PaidBack(credits, o) + if c.job.Undo? && c.job.original == o then 1 else 0
  {
    assert (credits + [c])[..|credits|] == credits;
  }

  ghost predicate OneReversalId(workers: seq<Worker>, o: Trace) {
    forall a, b :: Reverses(workers, o, a) && Reverses(workers, o, b) ==> a == b
  }

  lemma {:induction false} PaidBackCounts(credits: seq<Credit>, o: Trace, t: Trace)
    requires forall i :: 0 <= i < |credits| && credits[i].job.Undo? && credits[i].job.original == o ==> credits[i].job.trace == t
    ensures PaidBack(credits, o) <= Count(credits, t)
  {
    if credits != [] { PaidBackCounts(credits[..|credits| - 1], o, t); }
  }

  lemma {:induction false} JobsAreFixed(s: System, steps: seq<Step>)
    ensures |Run(s, steps).workers| == |s.workers|
    ensures forall w :: 0 <= w < |s.workers| ==> Run(s, steps).workers[w].job == s.workers[w].job
  {
    if steps != [] { JobsAreFixed(s, steps[..|steps| - 1]); }
  }

  /** A deduction that is only ever reversed under one id is paid back at most once, in every run. */
  lemma OneIdPaysOnce(s: System, steps: seq<Step>, o: Trace)
    requires Fresh(s) && OneReversalId(s.workers, o)
    ensures PaidBack(Run(s, steps).db.credits, o) <= 1
  {
    CreditedAtMostOnce(s, steps);
    CreditsPayWhatIsOwed(s, steps);
    JobsAreFixed(s, steps);
    var t: Trace := 0;
    if a :| Reverses(s.workers, o, a) { t := a; }
    var credits := Run(s, steps).db.credits;
    forall i | 0 <= i < |credits| && credits[i].job.Undo? && credits[i].job.original == o ensures credits[i].job.trace == t {
      assert Issued(Run(s, steps), credits[i]);
      assert Reverses(s.workers, o, credits[i].job.trace);
    }
    PaidBackCounts(credits, o, t);
    assert TraceSettled(Run(s, steps).db, t);
  }

  ghost predicate ReadyToReverse(s: System, v: nat, o: Trace, t: Trace) {
    v < |s.workers| && s.workers[v].job == Undo(o, t) && t !in s.db.entries
  }

  lemma RunSnoc(s: System, steps: seq<Step>, step: Step)
    ensures Run(s, steps + [step]) == Next(Run(s, steps), step)
  {
  }

  /** One session alone, from its insert to its last commit. */
  lemma ReverseAlone(s: System, steps: seq<Step>, v: nat, o: Trace, t: Trace, amount: real)
    requires var c := Run(s, steps);
             && ReadyToReverse(c, v, o, t) && o in c.db.entries && c.workers[v].phase == Cleared(amount)
             && forall u :: 0 <= u < |c.workers| ==> !c.workers[u].phase.Inserted?
    ensures var c, r := Run(s, steps), Run(s, steps + [Insert(v)] + [CreditCommit(v)] + [Finish(v)]);
            && r.db.credits == c.db.credits + [Credit(Undo(o, t), amount)] && r.db.balance == c.db.balance + amount
            && r.workers == c.workers[v := Worker(Undo(o, t), Finished)]
            && r.db.entries == c.db.entries[o := c.db.entries[o].(status := Reversed)][t := Entry(Refund, Committed, amount)]
  {
    var c := Run(s, steps);
    RunSnoc(s, steps, Insert(v));
    var a := Run(s, steps + [Insert(v)]);
    assert a == c.(workers := c.workers[v := Worker(Undo(o, t), Inserted(amount, false))]);
    RunSnoc(s, steps + [Insert(v)], CreditCommit(v));
    var b := Run(s, steps + [Insert(v)] + [CreditCommit(v)]);
    assert b.workers == c.workers[v := Worker(Undo(o, t), Credited(amount))];
    assert b.db == Db(WithPending(c.db, Undo(o, t), amount), c.db.balance + amount, c.db.credits + [Credit(Undo(o, t), amount)]);
    RunSnoc(s, steps + [Insert(v)] + [CreditCommit(v)], Finish(v));
    assert Run(s, steps + [Insert(v)] + [CreditCommit(v)] + [Finish(v)]).workers == c.workers[v := Worker(Undo(o, t), Finished)];
  }

  lemma BothClear(s: System, v: nat, w: nat, o: Trace, t: Trace, u: Trace)
    requires Fresh(s) && v != w && ReadyToReverse(s, v, o, t) && ReadyToReverse(s, w, o, u)
    requires o in s.db.entries && s.db.entries[o].status == Committed
    ensures var cleared := Cleared(s.db.entries[o].amount);
            Run(s, [] + [Begin(v)] + [Begin(w)]) ==
            s.(workers := s.workers[v := Worker(Undo(o, t), cleared)][w := Worker(Undo(o, u), cleared)])
  {
    RunSnoc(s, [], Begin(v));
    RunSnoc(s, [] + [Begin(v)], Begin(w));
  }

  /** Two sessions that reverse one committed deduction under different ids can both pay it back. */
  lemma TwoIdsPayTwice(s: System, v: nat, w: nat, o: Trace, t: Trace, u: Trace) returns (steps: seq<Step>)
    requires Fresh(s) && v != w && t != u && ReadyToReverse(s, v, o, t) && ReadyToReverse(s, w, o, u)
    requires o in s.db.entries && s.db.entries[o].status == Committed
    ensures Run(s, steps).db.balance == s.db.balance + 2.0 * s.db.entries[o].amount
    ensures PaidBack(Run(s, steps).db.credits, o) == 2
  {
    var amount := s.db.entries[o].amount;
    BothClear(s, v, w, o, t, u);
    steps := [] + [Begin(v)] + [Begin(w)];
    ReverseAlone(s, steps, v, o, t, amount);
    steps := steps + [Insert(v)] + [CreditCommit(v)] + [Finish(v)];
    ReverseAlone(s, steps, w, o, u, amount);
    steps := steps + [Insert(w)] + [CreditCommit(w)] + [Finish(w)];
    PaidTwice(Run(s, steps).db.credits, Undo(o, t), Undo(o, u), amount);
  }

  lemma PaidTwice(credits: seq<Credit>, a: Job, b: Job, amount: real)
    requires credits == [Credit(a, amount), Credit(b, amount)] && a.Undo? && b.Undo? && a.original == b.original
    ensures PaidBack(credits, a.original) == 2
  {
    assert credits[..1] == [Credit(a, amount)] && credits[..1][..0] == [];
    assert PaidBack(credits[..1], a.original) == 1;
  }

  /** A committed deduction is paid back at most once in every run exactly when all its reversals carry one id. */
  lemma PaidOnceIffOneId(s: System, o: Trace)
    requires Fresh(s) && o in s.db.entries && s.db.entries[o].status == Committed
    requires forall t :: Reverses(s.workers, o, t) ==> t !in s.db.entries
    ensures OneReversalId(s.workers, o) <==> forall steps :: PaidBack(Run(s, steps).db.credits, o) <= 1
  {
    if OneReversalId(s.workers, o) {
      forall steps ensures PaidBack(Run(s, steps).db.credits, o) <= 1 { OneIdPaysOnce(s, steps, o); }
    } else {
      var t, u :| Reverses(s.workers, o, t) && Reverses(s.workers, o, u) && t != u;
      var v :| 0 <= v < |s.workers| && s.workers[v].job == Undo(o, t);
      var w :| 0 <= w < |s.workers| && s.workers[w].job == Undo(o, u);
      var steps := TwoIdsPayTwice(s, v, w, o, t, u);
    }
  }
}
