/**
 Requests that are pre-deducted by their estimate on the Redis hash and settled later
 with their actual cost, in any interleaving.
 */
module Settlement {
  import opened Common
  import opened Quota
  import opened RedisQuota
  import Calendar
  import Costs

  /** `Waived` is a request whose actual cost was not positive: it returns before any adjustment. */
  datatype Phase = New | Refused | Reserved | Settled | Waived
  datatype Job = Job(estimate: real, actual: real, phase: Phase)
  datatype System = System(hash: Hash, jobs: seq<Job>)

  datatype Step = Precheck(i: nat, today: int) | Settle(i: nat)

  /** `record_and_adjust` after its transaction row: only a difference above one micro-unit is adjusted. */
  function SettledHash(h: Hash, estimate: real, actual: real): Hash {
    var diff := actual - estimate;
    if diff > Costs.MICRO || -diff > Costs.MICRO then Adjusted(h, diff) else h
  }

  function Next(s: System, step: Step): System {
    match step
    case Precheck(i, today) =>
      if i < |s.jobs| && s.jobs[i].phase.New? && today >= 1 then
        match Script(Some(s.hash), s.jobs[i].estimate, 1, 1, today, Calendar.MonthKey(today), false)
        case Ok(h) => System(h, s.jobs[i := s.jobs[i].(phase := Reserved)])
        case Err(_) => s.(jobs := s.jobs[i := s.jobs[i].(phase := Refused)])
      else s
    case Settle(i) =>
      if i < |s.jobs| && s.jobs[i].phase.Reserved? then
        if s.jobs[i].actual <= 0.0 then s.(jobs := s.jobs[i := s.jobs[i].(phase := Waived)])
        else System(SettledHash(s.hash, s.jobs[i].estimate, s.jobs[i].actual), s.jobs[i := s.jobs[i].(phase := Phase.Settled)])
      else s
  }

  function Run(s: System, steps: seq<Step>): System {
    if steps == [] then s else Next(Run(s, steps[..|steps| - 1]), steps[|steps| - 1])
  }

  ghost predicate Fresh(s: System) {
    forall i :: 0 <= i < |s.jobs| ==> s.jobs[i].phase == New
  }

  // ---- one step ----

  /** A new request is reserved, and its estimate taken, exactly when the hash affords one more request of today; otherwise it is refused and nothing changes. */
  lemma PrecheckLaw(s: System, i: nat, today: int)
    requires i < |s.jobs| && s.jobs[i].phase == New && today >= 1
    ensures var s', q, j := Next(s, Precheck(i, today)), s.hash, s.jobs[i];
            var affords :=
              && j.estimate <= q.balance + q.creditLimit
              && (if q.dailyDate == today then q.dailyUsed else 0) + 1 <= q.dailyQuota
              && (if q.month == Calendar.MonthKey(today) then q.monthlyUsed else 0) + 1 <= q.monthlyQuota;
            && (affords ==> s'.jobs == s.jobs[i := j.(phase := Reserved)] && s'.hash.balance == q.balance - j.estimate)
            && (!affords ==> s'.jobs == s.jobs[i := j.(phase := Refused)] && s'.hash == q)
  {
    ScriptOutcome(s.hash, s.jobs[i].estimate, 1, 1, today, Calendar.MonthKey(today), false);
  }

  /** A reserved request is settled: its actual cost replaces the estimate, unless they differ by a micro-unit or less, or nothing was used. */
  lemma SettleLaw(s: System, i: nat)
    requires i < |s.jobs| && s.jobs[i].phase == Reserved
    ensures var s', j := Next(s, Settle(i)), s.jobs[i];
            && (j.actual <= 0.0 ==> s'.hash == s.hash && s'.jobs == s.jobs[i := j.(phase := Waived)])
            && (j.actual > 0.0 ==> s'.jobs == s.jobs[i := j.(phase := Phase.Settled)])
            && (j.actual > 0.0 && -0.000001 <= j.actual - j.estimate <= 0.000001 ==> s'.hash == s.hash)
            && (j.actual > 0.0 && !(-0.000001 <= j.actual - j.estimate <= 0.000001) ==>
                  s'.hash == s.hash.(balance := s.hash.balance + j.estimate - j.actual, version := s.hash.version + 1))
  {
  }

  // ---- what a job has cost the hash, and what it should have cost ----

  function Charged(j: Job): real {
    match j.phase
    case New => 0.0
    case Refused => 0.0
    case Reserved => j.estimate
    case Waived => j.estimate
    case Settled =>
      if j.actual - j.estimate > Costs.MICRO || j.estimate - j.actual > Costs.MICRO then j.actual else j.estimate
  }

  function Due(j: Job): real {
    if j.phase == Phase.Settled then j.actual else Charged(j)
  }

  function TotalCharged(jobs: seq<Job>): real {
    if jobs == [] then 0.0 else Charged(jobs[0]) + TotalCharged(jobs[1..])
  }

  function TotalDue(jobs: seq<Job>): real {
    if jobs == [] then 0.0 else Due(jobs[0]) + TotalDue(jobs[1..])
  }

  function CountSettled(jobs: seq<Job>): nat {
    if jobs == [] then 0 else (if jobs[0].phase == Phase.Settled then 1 else 0) + CountSettled(jobs[1..])
  }

  lemma {:induction false} ChargeOne(jobs: seq<Job>, i: nat, j: Job)
    requires i < |jobs|
    ensures TotalCharged(jobs[i := j]) == TotalCharged(jobs) - Charged(jobs[i]) + Charged(j)
  {
    if i == 0 {
      assert jobs[i := j][1..] == jobs[1..];
    } else {
      ChargeOne(jobs[1..], i - 1, j);
      assert jobs[i := j][1..] == jobs[1..][i - 1 := j];
    }
  }

  lemma {:induction false} ChargedNearDue(jobs: seq<Job>)
    ensures TotalDue(jobs) - CountSettled(jobs) as real * Costs.MICRO <= TotalCharged(jobs)
    ensures TotalCharged(jobs) <= TotalDue(jobs) + CountSettled(jobs) as real * Costs.MICRO
  {
    if jobs != [] { ChargedNearDue(jobs[1..]); }
  }

  /** A step takes from the balance what it adds to the charge of the one job it moves. */
  lemma StepCharges(s: System, step: Step)
    ensures |Next(s, step).jobs| == |s.jobs|
    ensures Next(s, step).hash.balance + TotalCharged(Next(s, step).jobs) == s.hash.balance + TotalCharged(s.jobs)
  {
    if step.i < |s.jobs| {
      var j := Next(s, step).jobs[step.i];
      ChargeOne(s.jobs, step.i, j);
      assert Next(s, step).jobs == s.jobs[step.i := j];
    }
  }

  lemma {:induction false} BalanceIsCharged(s: System, steps: seq<Step>)
    requires Fresh(s)
    ensures var r := Run(s, steps);
            |r.jobs| == |s.jobs| && r.hash.balance == s.hash.balance - TotalCharged(r.jobs)
  {
    if steps == [] {
      NothingCharged(s.jobs);
    } else {
      BalanceIsCharged(s, steps[..|steps| - 1]);
      StepCharges(Run(s, steps[..|steps| - 1]), steps[|steps| - 1]);
    }
  }

  lemma {:induction false} NothingCharged(jobs: seq<Job>)
    requires forall i :: 0 <= i < |jobs| ==> jobs[i].phase == New
    ensures TotalCharged(jobs) == 0.0
  {
    if jobs != [] { NothingCharged(jobs[1..]); }
  }

  /**
   After any interleaving the cached balance differs from the opening balance minus what is
   due by at most one micro-unit per settled request.  A settled request owes its actual
   cost; one that is still open, or was waived, keeps its estimate.
   */
  lemma SettlementLaw(s: System, steps: seq<Step>)
    requires Fresh(s)
    ensures var r := Run(s, steps);
            var expected := s.hash.balance - TotalDue(r.jobs);
            var slack := CountSettled(r.jobs) as real * Costs.MICRO;
            expected - slack <= r.hash.balance <= expected + slack
  {
    BalanceIsCharged(s, steps);
    ChargedNearDue(Run(s, steps).jobs);
  }

  /** How often a job has written the hash. */
  function Writes(j: Job): nat {
    match j.phase
    case New => 0
    case Refused => 0
    case Reserved => 1
    case Waived => 1
    case Settled => if j.actual - j.estimate > 0.000001 || j.estimate - j.actual > 0.000001 then 2 else 1
  }

  function TotalWrites(jobs: seq<Job>): nat {
    if jobs == [] then 0 else Writes(jobs[0]) + TotalWrites(jobs[1..])
  }

  lemma {:induction false} WriteOne(jobs: seq<Job>, i: nat, j: Job)
    requires i < |jobs|
    ensures TotalWrites(jobs[i := j]) == TotalWrites(jobs) - Writes(jobs[i]) + Writes(j)
  {
    if i == 0 {
      assert jobs[i := j][1..] == jobs[1..];
    } else {
      WriteOne(jobs[1..], i - 1, j);
      assert jobs[i := j][1..] == jobs[1..][i - 1 := j];
    }
  }

  lemma {:induction false} NothingWritten(jobs: seq<Job>)
    requires forall i :: 0 <= i < |jobs| ==> jobs[i].phase == New
    ensures TotalWrites(jobs) == 0
  {
    if jobs != [] { NothingWritten(jobs[1..]); }
  }

  /** The version of the hash counts the pre-deductions and the adjustments, and a difference of one micro-unit or less is not adjusted. */
  lemma {:induction false} VersionCountsWrites(s: System, steps: seq<Step>)
    requires Fresh(s)
    ensures var r := Run(s, steps);
            |r.jobs| == |s.jobs| && r.hash.version == s.hash.version + TotalWrites(r.jobs)
  {
    if steps == [] {
      NothingWritten(s.jobs);
    } else {
      var before, step := Run(s, steps[..|steps| - 1]), steps[|steps| - 1];
      VersionCountsWrites(s, steps[..|steps| - 1]);
      if step.i < |before.jobs| {
        var after := Next(before, step);
        WriteOne(before.jobs, step.i, after.jobs[step.i]);
        assert after.jobs == before.jobs[step.i := after.jobs[step.i]];
      }
    }
  }

  function TotalActual(jobs: seq<Job>): real {
    if jobs == [] then 0.0 else jobs[0].actual + TotalActual(jobs[1..])
  }

  lemma {:induction false} AllSettled(jobs: seq<Job>)
    requires forall i :: 0 <= i < |jobs| ==> jobs[i].phase == Phase.Settled
    ensures TotalDue(jobs) == TotalActual(jobs) && CountSettled(jobs) == |jobs|
  {
    if jobs != [] { AllSettled(jobs[1..]); }
  }

  lemma {:induction false} SameActual(a: seq<Job>, b: seq<Job>)
    requires |a| == |b| && forall i :: 0 <= i < |a| ==> a[i].actual == b[i].actual
    ensures TotalActual(a) == TotalActual(b)
  {
    if a != [] { SameActual(a[1..], b[1..]); }
  }

  lemma {:induction false} CostsAreFixed(s: System, steps: seq<Step>)
    ensures var r := Run(s, steps);
            && |r.jobs| == |s.jobs| && r.hash.creditLimit == s.hash.creditLimit
            && forall i :: 0 <= i < |s.jobs| ==> r.jobs[i].actual == s.jobs[i].actual && r.jobs[i].estimate == s.jobs[i].estimate
  {
    if steps != [] { CostsAreFixed(s, steps[..|steps| - 1]); }
  }

  /** With all `n` requests settled, the balance is the opening one minus all actual costs, up to `n` micro-units. */
  lemma FullySettled(s: System, steps: seq<Step>)
    requires Fresh(s) && forall i :: 0 <= i < |Run(s, steps).jobs| ==> Run(s, steps).jobs[i].phase == Phase.Settled
    ensures var expected := s.hash.balance - TotalActual(s.jobs);
            var slack := |s.jobs| as real * Costs.MICRO;
            expected - slack <= Run(s, steps).hash.balance <= expected + slack
  {
    SettlementLaw(s, steps);
    AllSettled(Run(s, steps).jobs);
    CostsAreFixed(s, steps);
    SameActual(Run(s, steps).jobs, s.jobs);
  }

  // ---- requests that respect the token limit they were estimated for never overdraw ----

  ghost predicate Affordable(h: Hash) {
    h.balance + h.creditLimit >= 0.0
  }

  /** The estimate and the actual cost of a request that used no more tokens than it was estimated for. */
  ghost predicate CostedWithin(j: Job, input: int, output: int, maxTokens: int, p: Costs.Pricing) {
    && p.input >= 0.0 && p.output >= 0.0 && input <= maxTokens && output <= maxTokens && maxTokens >= 0
    && j.estimate == Costs.EstimateCost(Some(p), maxTokens)
    && j.actual == Costs.CalculateCost(input, output, p).2
  }

  ghost predicate TokenLimited(j: Job) {
    exists input, output, maxTokens, p :: CostedWithin(j, input, output, maxTokens, p)
  }

  /** Settling such a request only gives money back: an excess of one micro-unit is not collected. */
  lemma SettlementNeverLowers(s: System, i: nat)
    requires i < |s.jobs| && TokenLimited(s.jobs[i])
    ensures Next(s, Settle(i)).hash.balance >= s.hash.balance
  {
    var input, output, maxTokens, p :| CostedWithin(s.jobs[i], input, output, maxTokens, p);
    Costs.ActualWithinEstimate(input, output, maxTokens, p);
  }

  /** So in every interleaving the pre-checked balance stays covered by the credit limit. */
  lemma {:induction false} NeverOverdrawn(s: System, steps: seq<Step>)
    requires Affordable(s.hash) && forall i :: 0 <= i < |s.jobs| ==> TokenLimited(s.jobs[i])
    ensures Affordable(Run(s, steps).hash)
  {
    if steps != [] {
      var before, last := Run(s, steps[..|steps| - 1]), steps[|steps| - 1];
      NeverOverdrawn(s, steps[..|steps| - 1]);
      CostsAreFixed(s, steps[..|steps| - 1]);
      if last.Settle? && last.i < |before.jobs| {
        var input, output, maxTokens, p :| CostedWithin(s.jobs[last.i], input, output, maxTokens, p);
        assert CostedWithin(before.jobs[last.i], input, output, maxTokens, p);
        SettlementNeverLowers(before, last.i);
      }
    }
  }

  // ---- a top-up overwrites the hash with a row that never saw the pre-deductions ----

  /** The sync of `add_balance` raises the cached balance by the top-up plus everything charged so far. */
  lemma TopUpForgetsCharges(row: Row, jobs: seq<Job>, steps: seq<Step>, amount: real, today: int)
    requires today >= 1 && Plausible(row, today) && forall i :: 0 <= i < |jobs| ==> jobs[i].phase == New
    ensures var r := Run(System(Synced(row, today), jobs), steps);
            Synced(Credited(row, amount), today).balance == r.hash.balance + amount + TotalCharged(r.jobs)
  {
    BalanceIsCharged(System(Synced(row, today), jobs), steps);
  }

  /** A deduction on the Redis path copies the hash into the row and so brings everything charged so far into the books. */
  lemma RedisDeductionCollects(row: Row, jobs: seq<Job>, steps: seq<Step>, amount: real, allowNegative: bool, today: int, day: int)
    requires today >= 1 && day >= 1 && Plausible(row, today) && forall i :: 0 <= i < |jobs| ==> jobs[i].phase == New
    ensures var r := Run(System(Synced(row, today), jobs), steps);
            var script := Script(Some(r.hash), amount, 1, 1, day, Calendar.MonthKey(day), allowNegative);
            script.Ok? ==> CopiedInto(Reset(row, day), script.value).balance == row.balance - TotalCharged(r.jobs) - amount
  {
    BalanceIsCharged(System(Synced(row, today), jobs), steps);
  }
}
