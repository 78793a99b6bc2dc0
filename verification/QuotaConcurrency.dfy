/**
 Any number of sessions deducting from one quota row with the optimistic lock of
 `check_and_deduct`, while others top it up, reset its counters and change its limits.

 A step is one database round trip.  A worker reads the row and checks its request
 (`Snapshot`), then issues the compare-and-swap (`Cas`) and starts over if it lost.
 Top-ups and deductions bump the version; resets and limit changes do not.
 */
module QuotaConcurrency {
  import opened Common
  import opened Quota

  /** `Checked` remembers the row as read and reset, and which counters the reset found stale. */
  datatype Phase = Idle | Checked(view: Row, daily: bool, monthly: bool, today: int) | Done | Rejected(shortage: Shortage)

  /** `mark` is the length of the log when the worker took its first snapshot. */
  datatype Worker = Worker(req: Request, phase: Phase, retries: nat, mark: nat)

  /** The successful version-bumping writes, in order. */
  datatype Event = Spent(worker: nat, amount: real) | Topped(amount: real)

  datatype System = System(row: Row, workers: seq<Worker>, log: seq<Event>)

  datatype Step =
    | Snapshot(w: nat, today: int)
    | Cas(w: nat)
    | AddBalance(amount: real)
    | StaleReset(daily: bool, monthly: bool, today: int)
    | UpdateLimits(limits: Limits)

  function Next(s: System, step: Step): System {
    match step
    case Snapshot(w, today) =>
      if w < |s.workers| && s.workers[w].phase.Idle? && today >= 1 then TakeSnapshot(s, w, today) else s
    case Cas(w) =>
      if w < |s.workers| && s.workers[w].phase.Checked? && s.workers[w].phase.today >= 1 then CompareAndSwap(s, w) else s
    case AddBalance(a) => s.(row := Credited(s.row, a), log := s.log + [Topped(a)])
    case StaleReset(d, m, today) => if today >= 1 then s.(row := ResetWrite(s.row, d, m, today)) else s
    case UpdateLimits(l) => s.(row := WithLimits(s.row, l))
  }

  function TakeSnapshot(s: System, w: nat, today: int): System
    requires w < |s.workers| && today >= 1
  {
    var worker := s.workers[w];
    var view := Reset(s.row, today);
    var phase := match Check(view, worker.req)
      case Some(e) => Rejected(e)
      case None => Checked(view, DailyStale(s.row, today), MonthlyStale(s.row, today), today);
    var mark := if worker.retries == 0 then |s.log| else worker.mark;
    s.(workers := s.workers[w := worker.(phase := phase, mark := mark)])
  }

  function CompareAndSwap(s: System, w: nat): System
    requires w < |s.workers| && s.workers[w].phase.Checked? && s.workers[w].phase.today >= 1
  {
    var worker := s.workers[w];
    var Checked(view, daily, monthly, today) := worker.phase;
    if s.row.version == view.version then
      System(Deducted(ResetWrite(s.row, daily, monthly, today), worker.req),
             s.workers[w := worker.(phase := Done)], s.log + [Spent(w, worker.req.amount)])
    else s.(workers := s.workers[w := worker.(phase := Idle, retries := worker.retries + 1)])
  }

  function Run(s: System, steps: seq<Step>): System {
    if steps == [] then s else Next(Run(s, steps[..|steps| - 1]), steps[|steps| - 1])
  }

  ghost predicate Fresh(s: System) {
    s.log == [] && forall w :: 0 <= w < |s.workers| ==> s.workers[w].phase == Idle && s.workers[w].retries == 0
  }

  // ---- no deduction or top-up is lost ----

  function Total(log: seq<Event>): real {
    if log == [] then 0.0
    else Total(log[..|log| - 1]) + match log[|log| - 1] case Spent(_, a) => -a case Topped(a) => a
  }

  /** How often worker `w` deducted. */
  function SpentBy(log: seq<Event>, w: nat): nat {
    if log == [] then 0
    else SpentBy(log[..|log| - 1], w) + if log[|log| - 1].Spent? && log[|log| - 1].worker == w then 1 else 0
  }

  ghost predicate Bookkeeping(opening: Row, s: System) {
    && s.row.balance == opening.balance + Total(s.log)
    && s.row.version == opening.version + |s.log|
    && (forall w :: 0 <= w < |s.workers| ==> SpentBy(s.log, w) == if s.workers[w].phase.Done? then 1 else 0)
    && (forall i :: 0 <= i < |s.log| && s.log[i].Spent? ==>
          s.log[i].worker < |s.workers| && s.log[i].amount == s.workers[s.log[i].worker].req.amount)
    && (forall w :: 0 <= w < |s.workers| ==> RetriesPaid(opening, s, s.workers[w]))
  }

  /** Every lost race of a worker was caused by a success of somebody else since its first snapshot. */
  ghost predicate RetriesPaid(opening: Row, s: System, worker: Worker) {
    && (worker.retries > 0 ==> worker.mark + worker.retries <= |s.log|)
    && (worker.phase.Done? ==> worker.mark + worker.retries < |s.log|)
    && (worker.phase.Checked? ==>
          opening.version + worker.mark + worker.retries <= worker.phase.view.version <= s.row.version)
  }

  lemma RetriesStep(opening: Row, s: System, step: Step, w: nat)
    requires Bookkeeping(opening, s) && w < |Next(s, step).workers|
    ensures RetriesPaid(opening, Next(s, step), Next(s, step).workers[w])
  {
    assert RetriesPaid(opening, s, s.workers[w]);
  }

  lemma SpentStep(opening: Row, s: System, step: Step, w: nat)
    requires Bookkeeping(opening, s) && w < |Next(s, step).workers|
    ensures SpentBy(Next(s, step).log, w) == if Next(s, step).workers[w].phase.Done? then 1 else 0
  {
    var s' := Next(s, step);
    if s'.log != s.log {
      assert s'.log[..|s'.log| - 1] == s.log;
    }
  }

  lemma BookkeepingStep(opening: Row, s: System, step: Step)
    requires Bookkeeping(opening, s)
    ensures Bookkeeping(opening, Next(s, step))
  {
    var s' := Next(s, step);
    if s'.log != s.log {
      assert s'.log[..|s'.log| - 1] == s.log;
    }
    forall w | 0 <= w < |s'.workers|
      ensures RetriesPaid(opening, s', s'.workers[w]) && SpentBy(s'.log, w) == if s'.workers[w].phase.Done? then 1 else 0
    {
      RetriesStep(opening, s, step, w);
      SpentStep(opening, s, step, w);
    }
  }

  /**
   In every interleaving: balance = opening + top-ups - successful deductions, the version
   counts the successes, each finished worker deducted its amount exactly once and each
   unfinished one not at all, and retries never outnumber the others' successes.
   */
  lemma {:induction false} NothingIsLost(s: System, steps: seq<Step>)
    requires Fresh(s)
    ensures Bookkeeping(s.row, Run(s, steps))
    ensures |Run(s, steps).workers| == |s.workers|
  {
    if steps != [] {
      NothingIsLost(s, steps[..|steps| - 1]);
      BookkeepingStep(s.row, Run(s, steps[..|steps| - 1]), steps[|steps| - 1]);
    }
  }

  // ---- the quota bounds ----

  ghost predicate MayGoNegative(s: System) {
    exists w :: 0 <= w < |s.workers| && s.workers[w].req.allowNegative
  }

  /** Usage within its quotas, and the balance covered unless some worker may go negative. */
  ghost predicate Covered(s: System, r: Row) {
    UsageCovered(r) && (MayGoNegative(s) || BalanceCovered(r))
  }

  /** The request as far as the bounds of this system are concerned. */
  ghost function Excused(s: System, req: Request): Request {
    req.(allowNegative := MayGoNegative(s))
  }

  /** A checked worker whose compare-and-swap can still succeed would pass its checks on row `r`, too. */
  ghost predicate StillPasses(s: System, r: Row, worker: Worker) {
    worker.phase.Checked? && worker.phase.view.version == r.version ==>
      && worker.phase.today >= 1
      && Check(ResetWrite(r, worker.phase.daily, worker.phase.monthly, worker.phase.today), Excused(s, worker.req)) == None
  }

  ghost predicate WorkerSound(s: System, worker: Worker) {
    && NonNegative(worker.req) && StillPasses(s, s.row, worker)
    && (worker.phase.Checked? ==> worker.phase.today >= 1 && worker.phase.view.version <= s.row.version)
  }

  ghost predicate WithinQuota(s: System) {
    Covered(s, s.row) && forall w :: 0 <= w < |s.workers| ==> WorkerSound(s, s.workers[w])
  }

  /**
   A limit change that may lower limits as well as raise them: the new limits cover the present
   usage, and every request that was checked on the present version still passes.
   */
  ghost predicate SafeLimits(s: System, l: Limits) {
    && Covered(s, WithLimits(s.row, l))
    && forall w :: 0 <= w < |s.workers| ==> StillPasses(s, WithLimits(s.row, l), s.workers[w])
  }

  ghost predicate Allowed(s: System, step: Step) {
    match step
    case AddBalance(a) => a >= 0.0
    case UpdateLimits(l) => SafeLimits(s, l)
    case _ => true
  }

  ghost predicate AllowedRun(s: System, steps: seq<Step>) {
    steps == [] || (AllowedRun(s, steps[..|steps| - 1]) && Allowed(Run(s, steps[..|steps| - 1]), steps[|steps| - 1]))
  }

  lemma SameRequests(s: System, step: Step)
    ensures |Next(s, step).workers| == |s.workers|
    ensures forall w :: 0 <= w < |s.workers| ==> Next(s, step).workers[w].req == s.workers[w].req
    ensures MayGoNegative(Next(s, step)) <==> MayGoNegative(s)
  {
    var s' := Next(s, step);
    assert forall w :: 0 <= w < |s.workers| ==> s'.workers[w].req == s.workers[w].req;
    if MayGoNegative(s) {
      var w :| 0 <= w < |s.workers| && s.workers[w].req.allowNegative;
      assert s'.workers[w].req.allowNegative;
    }
  }

  /** On a covered row, a checked request keeps the bounds exactly when it still passes. */
  lemma CasStaysCoveredIff(s: System, r: Row, worker: Worker)
    requires NonNegative(worker.req) && Covered(s, r) && worker.phase.Checked? && worker.phase.today >= 1
    requires worker.phase.view.version == r.version
    ensures var p := worker.phase;
            Covered(s, Deducted(ResetWrite(r, p.daily, p.monthly, p.today), worker.req)) <==> StillPasses(s, r, worker)
  {
    var p := worker.phase;
    AcceptedIffCovered(ResetWrite(r, p.daily, p.monthly, p.today), Excused(s, worker.req));
  }

  lemma RowStaysCovered(s: System, step: Step)
    requires WithinQuota(s) && Allowed(s, step)
    ensures Covered(Next(s, step), Next(s, step).row)
  {
    SameRequests(s, step);
    if step.Cas? && step.w < |s.workers| && s.workers[step.w].phase.Checked? && s.workers[step.w].phase.view.version == s.row.version {
      assert WorkerSound(s, s.workers[step.w]);
      CasStaysCoveredIff(s, s.row, s.workers[step.w]);
    }
  }

  /** A check that passed on the view passes on the row that the view was made from, and for the bounds of the system. */
  lemma SnapshotPasses(s: System, w: nat, today: int)
    requires w < |s.workers| && today >= 1 && Check(Reset(s.row, today), s.workers[w].req) == None
    ensures var r := ResetWrite(s.row, DailyStale(s.row, today), MonthlyStale(s.row, today), today);
            Check(r, Excused(s, s.workers[w].req)) == None
  {
  }

  lemma WorkerStaysSound(s: System, step: Step, w: nat)
    requires WithinQuota(s) && Allowed(s, step) && w < |s.workers|
    ensures w < |Next(s, step).workers| && WorkerSound(Next(s, step), Next(s, step).workers[w])
  {
    SameRequests(s, step);
    assert WorkerSound(s, s.workers[w]);
    if step.Snapshot? && step.w == w && s.workers[w].phase.Idle? && step.today >= 1
       && Check(Reset(s.row, step.today), s.workers[w].req) == None {
      SnapshotPasses(s, w, step.today);
    }
  }

  lemma WithinQuotaStep(s: System, step: Step)
    requires WithinQuota(s) && Allowed(s, step)
    ensures WithinQuota(Next(s, step))
  {
    var s' := Next(s, step);
    RowStaysCovered(s, step);
    forall w | 0 <= w < |s'.workers| ensures WorkerSound(s', s'.workers[w]) {
      SameRequests(s, step);
      WorkerStaysSound(s, step, w);
    }
  }

  lemma {:induction false} WithinQuotaRun(s: System, steps: seq<Step>)
    requires WithinQuota(s)
    ensures AllowedRun(s, steps) ==> WithinQuota(Run(s, steps))
  {
    if steps != [] && AllowedRun(s, steps) {
      WithinQuotaRun(s, steps[..|steps| - 1]);
      WithinQuotaStep(Run(s, steps[..|steps| - 1]), steps[|steps| - 1]);
    }
  }

  /**
   In every interleaving of non-negative requests with top-ups, resets and safe limit changes,
   the used counters never pass their quotas, and balance plus credit never goes below zero
   unless some worker was allowed to.
   */
  lemma QuotaNeverExceeded(s: System, steps: seq<Step>)
    requires Fresh(s) && Covered(s, s.row)
    requires forall w :: 0 <= w < |s.workers| ==> NonNegative(s.workers[w].req)
    ensures AllowedRun(s, steps) ==> WithinQuota(Run(s, steps))
  {
    WithinQuotaRun(s, steps);
  }

  // ---- which limit changes are respected ----

  /** A limit change that only loosens; a token quota of zero or less means no limit. */
  ghost predicate Loosens(r: Row, l: Limits) {
    var n := WithLimits(r, l);
    && n.creditLimit >= r.creditLimit && n.dailyQuota >= r.dailyQuota && n.monthlyQuota >= r.monthlyQuota
    && (n.tokenQuota > 0 ==> r.tokenQuota > 0 && n.tokenQuota >= r.tokenQuota)
  }

  /** Loosening limits is always safe. */
  lemma LooseningIsSafe(s: System, l: Limits)
    requires WithinQuota(s) && Loosens(s.row, l)
    ensures SafeLimits(s, l)
  {
    forall w | 0 <= w < |s.workers| ensures StillPasses(s, WithLimits(s.row, l), s.workers[w]) {
      assert WorkerSound(s, s.workers[w]);
    }
  }

  /** Steps that change no limits. */
  ghost predicate Quiet(steps: seq<Step>) {
    forall i :: 0 <= i < |steps| ==> !steps[i].UpdateLimits? && (steps[i].AddBalance? ==> steps[i].amount >= 0.0)
  }

  lemma {:induction false} QuietIsAllowed(s: System, steps: seq<Step>)
    requires Quiet(steps)
    ensures AllowedRun(s, steps)
  {
    if steps != [] { QuietIsAllowed(s, steps[..|steps| - 1]); }
  }

  /** An unsafe change leaves the bounds at once, or with the next compare-and-swap of a worker that was checked before it. */
  lemma UnsafeLeavesBounds(s: System, l: Limits) returns (steps: seq<Step>)
    requires WithinQuota(s) && !SafeLimits(s, l)
    ensures Quiet(steps) && |steps| <= 1
    ensures var r := Run(Next(s, UpdateLimits(l)), steps);
            !Covered(r, r.row)
  {
    var s' := Next(s, UpdateLimits(l));
    steps := [];
    if Covered(s, s'.row) {
      var w :| 0 <= w < |s.workers| && !StillPasses(s, s'.row, s.workers[w]);
      assert WorkerSound(s, s.workers[w]);
      CasStaysCoveredIff(s, s'.row, s.workers[w]);
      steps := [Cas(w)];
      assert steps[..0] == [];
      assert Run(s', steps) == Next(s', Cas(w));
      SameRequests(s', Cas(w));
    }
  }

  /**
   A limit change of any kind keeps the bounds in every continuation exactly when it is safe.
   It does not bump the version, so a check under way does not see it.
   */
  lemma LimitChangeRespectedIff(s: System, l: Limits)
    requires WithinQuota(s)
    ensures SafeLimits(s, l) <==>
            forall steps :: Quiet(steps) ==>
              var r := Run(Next(s, UpdateLimits(l)), steps);
              Covered(r, r.row)
  {
    var s' := Next(s, UpdateLimits(l));
    if SafeLimits(s, l) {
      WithinQuotaStep(s, UpdateLimits(l));
      forall steps | Quiet(steps) ensures Covered(Run(s', steps), Run(s', steps).row) {
        QuietIsAllowed(s', steps);
        WithinQuotaRun(s', steps);
      }
    } else {
      var steps := UnsafeLeavesBounds(s, l);
    }
  }

  /** One of the four limits, lowered by one below what `OPEN` grants. */
  function Lowered(kind: Kind): Limits {
    match kind
    case Balance => Limits(None, None, None, Some(-1.0))
    case DailyRequests => Limits(Some(9), None, None, None)
    case MonthlyRequests => Limits(None, Some(9), None, None)
    case Tokens => Limits(None, None, Some(9), None)
  }

  const OPEN := Row(10.0, 0.0, 10, 0, None, 10, 0, None, 10, 0, 1)
  const ALL := Request(10.0, 10, 10, 10, false)

  /** Each of the four limits can be overrun: the change itself is covered by the present usage, the swap that follows is not. */
  lemma TighteningIsOverrun(kind: Kind, today: int)
    requires today >= 1
    ensures var start := System(OPEN, [Worker(ALL, Idle, 0, 0)], []);
            var s := Next(Next(start, Snapshot(0, today)), UpdateLimits(Lowered(kind)));
            var r := Next(s, Cas(0));
            && Fresh(start) && Covered(start, start.row) && Covered(s, s.row)
            && r.workers[0].phase == Done && !Covered(r, r.row)
  {
    var start := System(OPEN, [Worker(ALL, Idle, 0, 0)], []);
    var checked := Next(start, Snapshot(0, today));
    ResetClearsStale(OPEN, today);
    assert checked == System(OPEN, [Worker(ALL, Checked(Reset(OPEN, today), true, true, today), 0, 0)], []);
    var s := Next(checked, UpdateLimits(Lowered(kind)));
    assert s.row == WithLimits(OPEN, Lowered(kind)) && s.workers == checked.workers;
  }
}
