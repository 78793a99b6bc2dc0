/**
 What a finished reversal means for all sessions that come later, and how often a deduction is
 paid back when sessions overlap, follow each other or crash.
 */
module ReversalRuns {
  import Ledger
  import opened CreditProtocol
  type Trace = Ledger.Trace

  // ---- a finished reversal is final ----

  ghost predicate IsDeduction(db: Db, o: Trace) {
    o in db.entries && db.entries[o].kind == Ledger.Deduction
  }

  ghost predicate IsReversed(db: Db, o: Trace) {
    IsDeduction(db, o) && db.entries[o].status == Ledger.Reversed
  }

  /** The session's job is to reverse deduction `o`. */
  predicate Undoes(worker: Worker, o: Trace) {
    worker.job.Undo? && worker.job.original == o
  }

  /** A deduction keeps its amount, and its status only ever changes to REVERSED, by the last commit of a session that reverses it. */
  lemma DeductionStep(s: System, step: Step, o: Trace)
    requires Inv(s) && IsDeduction(s.db, o)
    ensures var db' := Next(s, step).db;
            && IsDeduction(db', o) && db'.entries[o].amount == s.db.entries[o].amount
            && db'.entries[o].status ==
               if step.Finish? && step.w < |s.workers| && s.workers[step.w].phase.Credited? && Undoes(s.workers[step.w], o)
               then Ledger.Reversed else s.db.entries[o].status
  {
    if step.w < |s.workers| {
      assert OwnerSound(s.db, s.workers[step.w]) && OriginalSound(s.db, s.workers[step.w]);
    }
  }

  /** A session that has not begun, or was refused, for a deduction that is already reversed. */
  ghost predicate Shut(s: System, o: Trace, v: nat) {
    && IsReversed(s.db, o) && v < |s.workers| && Undoes(s.workers[v], o)
    && (s.workers[v].phase.Start? || s.workers[v].phase.Refused?)
  }

  lemma {:induction false} StaysShut(s: System, steps: seq<Step>, o: Trace, v: nat)
    requires Inv(s) && Shut(s, o, v)
    ensures Inv(Run(s, steps)) && Shut(Run(s, steps), o, v)
  {
    if steps != [] {
      var before := Run(s, steps[..|steps| - 1]);
      StaysShut(s, steps[..|steps| - 1], o, v);
      InvStep(before, steps[|steps| - 1]);
      DeductionStep(before, steps[|steps| - 1], o);
    }
  }

  lemma {:induction false} ReversedForGood(s: System, steps: seq<Step>, o: Trace)
    requires Inv(s) && IsReversed(s.db, o)
    ensures Inv(Run(s, steps)) && IsReversed(Run(s, steps).db, o)
  {
    if steps != [] {
      var before := Run(s, steps[..|steps| - 1]);
      ReversedForGood(s, steps[..|steps| - 1], o);
      InvStep(before, steps[|steps| - 1]);
      DeductionStep(before, steps[|steps| - 1], o);
    }
  }

  lemma FinishReverses(s: System, w: nat, o: Trace)
    requires Inv(s) && w < |s.workers| && s.workers[w].phase.Credited? && Undoes(s.workers[w], o)
    ensures Inv(Next(s, Finish(w))) && IsReversed(Next(s, Finish(w)).db, o)
    ensures Next(s, Finish(w)).workers == s.workers[w := Worker(s.workers[w].job, Finished)]
  {
    assert OwnerSound(s.db, s.workers[w]) && OriginalSound(s.db, s.workers[w]);
    InvStep(s, Finish(w));
    DeductionStep(s, Finish(w), o);
  }

  /**
   Once a session that reverses `o` has made its last commit, `o` is REVERSED in all later states,
   and a session for `o` that begins later is refused, whatever id it carries and whatever happens in between.
   */
  lemma FinishedReversalIsFinal(s: System, w: nat, o: Trace, steps: seq<Step>, v: nat)
    requires Inv(s) && w < |s.workers| && s.workers[w].phase.Credited? && Undoes(s.workers[w], o)
    requires v < |s.workers| && v != w && Undoes(s.workers[v], o) && s.workers[v].phase.Start?
    ensures var r := Run(Next(s, Finish(w)), steps);
            && IsReversed(r.db, o) && v < |r.workers|
            && (r.workers[v].phase.Start? || r.workers[v].phase.Refused?)
            && (r.workers[v].phase.Start? ==> Next(r, Begin(v)).workers[v].phase == Refused)
  {
    FinishReverses(s, w, o);
    StaysShut(Next(s, Finish(w)), steps, o, v);
  }

  // ---- how often a deduction is paid back ----

  /** The step lets a session for `o` pass its checks. */
  ghost predicate Clears(s: System, step: Step, o: Trace) {
    && step.Begin? && step.w < |s.workers| && s.workers[step.w].phase.Start? && Undoes(s.workers[step.w], o)
    && AfterChecks(s.db, s.workers[step.w].job).Cleared?
  }

  ghost function Clearances(s: System, steps: seq<Step>, o: Trace): nat {
    if steps == [] then 0
    else
      Clearances(s, steps[..|steps| - 1], o)
      + if Clears(Run(s, steps[..|steps| - 1]), steps[|steps| - 1], o) then 1 else 0
  }

  /** The session has passed its checks and has not credited yet. */
  predicate OnTheWay(worker: Worker, o: Trace) {
    Undoes(worker, o) && (worker.phase.Cleared? || worker.phase.Inserted?)
  }

  function CountOnTheWay(workers: seq<Worker>, o: Trace): nat {
    if workers == [] then 0 else (if OnTheWay(workers[0], o) then 1 else 0) + CountOnTheWay(workers[1..], o)
  }

  lemma {:induction false} CountUpdate(workers: seq<Worker>, w: nat, worker: Worker, o: Trace)
    requires w < |workers|
    ensures CountOnTheWay(workers[w := worker], o) + (if OnTheWay(workers[w], o) then 1 else 0) ==
            CountOnTheWay(workers, o) + if OnTheWay(worker, o) then 1 else 0
  {
    if w == 0 {
      assert workers[w := worker][1..] == workers[1..];
    } else {
      CountUpdate(workers[1..], w - 1, worker, o);
      assert workers[w := worker][1..] == workers[1..][w - 1 := worker];
    }
  }

  lemma {:induction false} NobodyOnTheWay(workers: seq<Worker>, o: Trace)
    requires forall w :: 0 <= w < |workers| ==> workers[w].phase == Start
    ensures CountOnTheWay(workers, o) == 0
  {
    if workers != [] { NobodyOnTheWay(workers[1..], o); }
  }

  lemma ClearanceStep(s: System, step: Step, o: Trace)
    ensures var s' := Next(s, step);
            PaidBack(s'.db.credits, o) + CountOnTheWay(s'.workers, o) <=
            PaidBack(s.db.credits, o) + CountOnTheWay(s.workers, o) + if Clears(s, step, o) then 1 else 0
  {
    var s' := Next(s, step);
    if step.w < |s.workers| {
      var worker := s.workers[step.w];
      assert s'.workers == s.workers[step.w := s'.workers[step.w]];
      CountUpdate(s.workers, step.w, s'.workers[step.w], o);
      if step.CreditCommit? && worker.phase.Inserted? {
        PaidBackAppend(s.db.credits, Credit(worker.job, worker.phase.amount), o);
      }
    }
  }

  lemma {:induction false} PaidBackWithinClearances(s: System, steps: seq<Step>, o: Trace)
    requires Fresh(s)
    ensures PaidBack(Run(s, steps).db.credits, o) + CountOnTheWay(Run(s, steps).workers, o) <= Clearances(s, steps, o)
  {
    if steps == [] {
      NobodyOnTheWay(s.workers, o);
    } else {
      PaidBackWithinClearances(s, steps[..|steps| - 1], o);
      ClearanceStep(Run(s, steps[..|steps| - 1]), steps[|steps| - 1], o);
    }
  }

  lemma {:induction false} NoClearanceAfterwards(s: System, steps: seq<Step>, more: seq<Step>, o: Trace)
    requires Fresh(s) && IsReversed(Run(s, steps).db, o)
    ensures Clearances(s, steps + more, o) == Clearances(s, steps, o)
    ensures Inv(Run(s, steps + more)) && IsReversed(Run(s, steps + more).db, o)
  {
    if more == [] {
      assert steps + more == steps;
      CreditedAtMostOnce(s, steps);
    } else {
      var before, last := more[..|more| - 1], more[|more| - 1];
      NoClearanceAfterwards(s, steps, before, o);
      assert (steps + more)[..|steps + more| - 1] == steps + before;
      InvStep(Run(s, steps + before), last);
      DeductionStep(Run(s, steps + before), last, o);
    }
  }

  /** However a run goes on after `o` was reversed, `o` is paid back at most as often as sessions had passed their checks before. */
  lemma PaidBackAtMostCleared(s: System, steps: seq<Step>, more: seq<Step>, o: Trace)
    requires Fresh(s) && IsReversed(Run(s, steps).db, o)
    ensures PaidBack(Run(s, steps + more).db.credits, o) <= Clearances(s, steps, o)
  {
    PaidBackWithinClearances(s, steps + more, o);
    NoClearanceAfterwards(s, steps, more, o);
  }

  // ---- sessions that follow each other ----

  /** The session is between its checks and its last commit. */
  ghost predicate Active(s: System, o: Trace, w: nat) {
    w < |s.workers| && (OnTheWay(s.workers[w], o) || (Undoes(s.workers[w], o) && s.workers[w].phase.Credited?))
  }

  ghost predicate Owing(s: System, o: Trace, w: nat) {
    Active(s, o, w) && s.workers[w].phase.Credited?
  }

  /** Sessions for `o` begin only when no other is active, and none crashes between its credit and its last commit. */
  ghost predicate Orderly(s: System, step: Step, o: Trace) {
    step.w < |s.workers| && Undoes(s.workers[step.w], o) ==>
      && (step.Begin? && s.workers[step.w].phase.Start? ==> forall v: nat :: !Active(s, o, v))
      && (step.Restart? ==> !s.workers[step.w].phase.Credited?)
  }

  ghost predicate OrderlyRun(s: System, steps: seq<Step>, o: Trace) {
    steps == [] ||
    (OrderlyRun(s, steps[..|steps| - 1], o) && Orderly(Run(s, steps[..|steps| - 1]), steps[|steps| - 1], o))
  }

  /** At most one session is active; `o` has been paid back once if it is REVERSED or that session has credited, and otherwise not at all. */
  ghost predicate OneByOne(s: System, o: Trace) {
    && IsDeduction(s.db, o)
    && (forall v: nat, w: nat :: Active(s, o, v) && Active(s, o, w) ==> v == w)
    && (IsReversed(s.db, o) ==> forall v: nat :: !Active(s, o, v))
    && PaidBack(s.db.credits, o) == if IsReversed(s.db, o) || exists w: nat :: Owing(s, o, w) then 1 else 0
  }

  lemma OthersStayActive(s: System, step: Step, o: Trace, v: nat)
    requires v != step.w
    ensures Active(Next(s, step), o, v) <==> Active(s, o, v)
    ensures Owing(Next(s, step), o, v) <==> Owing(s, o, v)
  {
  }

  lemma OneByOneForeign(s: System, step: Step, o: Trace)
    requires Inv(s) && OneByOne(s, o) && (step.w < |s.workers| ==> !Undoes(s.workers[step.w], o))
    ensures OneByOne(Next(s, step), o)
  {
    var s' := Next(s, step);
    DeductionStep(s, step, o);
    forall v: nat ensures (Active(s', o, v) <==> Active(s, o, v)) && (Owing(s', o, v) <==> Owing(s, o, v)) {
      if v != step.w { OthersStayActive(s, step, o, v); }
    }
    if step.CreditCommit? && step.w < |s.workers| && s.workers[step.w].phase.Inserted? {
      PaidBackAppend(s.db.credits, Credit(s.workers[step.w].job, s.workers[step.w].phase.amount), o);
    }
  }

  /** What a step of session `w` leaves: the other sessions as they were. */
  ghost predicate OnlyMoves(s: System, s': System, o: Trace, w: nat) {
    && w < |s.workers| && w < |s'.workers| && IsDeduction(s'.db, o)
    && forall v: nat :: v != w ==> (Active(s', o, v) <==> Active(s, o, v)) && (Owing(s', o, v) <==> Owing(s, o, v))
  }

  /** The session passes its checks, is refused, or crashes before its credit. */
  lemma UncreditedMove(s: System, s': System, o: Trace, w: nat)
    requires OneByOne(s, o) && OnlyMoves(s, s', o, w) && !Owing(s, o, w) && !Owing(s', o, w)
    requires s'.db.credits == s.db.credits && (IsReversed(s'.db, o) <==> IsReversed(s.db, o))
    requires Active(s', o, w) && !Active(s, o, w) ==> !IsReversed(s.db, o) && forall v: nat :: !Active(s, o, v)
    ensures OneByOne(s', o)
  {
    assert forall v: nat :: Owing(s', o, v) <==> Owing(s, o, v);
  }

  lemma CreditMove(s: System, s': System, o: Trace, w: nat)
    requires OneByOne(s, o) && OnlyMoves(s, s', o, w) && Active(s, o, w) && !Owing(s, o, w) && Owing(s', o, w)
    requires PaidBack(s'.db.credits, o) == PaidBack(s.db.credits, o) + 1 && (IsReversed(s'.db, o) <==> IsReversed(s.db, o))
    ensures OneByOne(s', o)
  {
    assert forall v: nat :: Owing(s, o, v) ==> Active(s, o, v);
  }

  lemma FinishMove(s: System, s': System, o: Trace, w: nat)
    requires OneByOne(s, o) && OnlyMoves(s, s', o, w) && Owing(s, o, w) && !Active(s', o, w)
    requires s'.db.credits == s.db.credits && IsReversed(s'.db, o)
    ensures OneByOne(s', o)
  {
    assert forall v: nat :: Active(s', o, v) ==> v != w;
  }

  lemma OwnOnlyMoves(s: System, step: Step, o: Trace)
    requires Inv(s) && IsDeduction(s.db, o) && step.w < |s.workers|
    ensures OnlyMoves(s, Next(s, step), o, step.w)
  {
    DeductionStep(s, step, o);
    forall v: nat | v != step.w
      ensures (Active(Next(s, step), o, v) <==> Active(s, o, v)) && (Owing(Next(s, step), o, v) <==> Owing(s, o, v))
    {
      OthersStayActive(s, step, o, v);
    }
  }

  lemma OneByOneCredit(s: System, w: nat, o: Trace)
    requires Inv(s) && OneByOne(s, o) && w < |s.workers| && Undoes(s.workers[w], o) && s.workers[w].phase.Inserted?
    ensures OneByOne(Next(s, CreditCommit(w)), o)
  {
    OwnOnlyMoves(s, CreditCommit(w), o);
    DeductionStep(s, CreditCommit(w), o);
    PaidBackAppend(s.db.credits, Credit(s.workers[w].job, s.workers[w].phase.amount), o);
    CreditMove(s, Next(s, CreditCommit(w)), o, w);
  }

  lemma OneByOneFinish(s: System, w: nat, o: Trace)
    requires Inv(s) && OneByOne(s, o) && w < |s.workers| && Undoes(s.workers[w], o) && s.workers[w].phase.Credited?
    ensures OneByOne(Next(s, Finish(w)), o)
  {
    OwnOnlyMoves(s, Finish(w), o);
    DeductionStep(s, Finish(w), o);
    FinishMove(s, Next(s, Finish(w)), o, w);
  }

  lemma OneByOneUncredited(s: System, step: Step, o: Trace)
    requires Inv(s) && OneByOne(s, o) && Orderly(s, step, o) && step.w < |s.workers| && Undoes(s.workers[step.w], o)
    requires !step.CreditCommit? && !step.Finish? && Next(s, step).workers[step.w] != s.workers[step.w]
    ensures OneByOne(Next(s, step), o)
  {
    OwnOnlyMoves(s, step, o);
    DeductionStep(s, step, o);
    UncreditedMove(s, Next(s, step), o, step.w);
  }

  lemma OneByOneOwn(s: System, step: Step, o: Trace)
    requires Inv(s) && OneByOne(s, o) && Orderly(s, step, o) && step.w < |s.workers| && Undoes(s.workers[step.w], o)
    ensures OneByOne(Next(s, step), o)
  {
    if step.CreditCommit? && s.workers[step.w].phase.Inserted? {
      OneByOneCredit(s, step.w, o);
    } else if step.Finish? && s.workers[step.w].phase.Credited? {
      OneByOneFinish(s, step.w, o);
    } else if Next(s, step).workers[step.w] != s.workers[step.w] {
      OneByOneUncredited(s, step, o);
    } else {
      assert Next(s, step) == s;
    }
  }

  /**
   When the sessions for a deduction follow each other, under whatever ids and with crashes anywhere
   but between credit and last commit, it is paid back at most once, and once they have ended
   exactly once if it is REVERSED and not at all otherwise.
   */
  lemma {:induction false} SerialReversalsPayOnce(s: System, steps: seq<Step>, o: Trace)
    requires Fresh(s) && IsDeduction(s.db, o) && !IsReversed(s.db, o) && OrderlyRun(s, steps, o)
    ensures OneByOne(Run(s, steps), o) && PaidBack(Run(s, steps).db.credits, o) <= 1
  {
    if steps != [] {
      var before := Run(s, steps[..|steps| - 1]);
      var last := steps[|steps| - 1];
      SerialReversalsPayOnce(s, steps[..|steps| - 1], o);
      CreditedAtMostOnce(s, steps[..|steps| - 1]);
      if last.w < |before.workers| && Undoes(before.workers[last.w], o) {
        OneByOneOwn(before, last, o);
      } else {
        OneByOneForeign(before, last, o);
      }
    }
  }

  // ---- a crash between credit and last commit ----

  /** From its checks to its credit, a session for a committed deduction runs alone. */
  lemma CreditReached(s: System, v: nat, o: Trace, t: Trace) returns (r: System)
    requires v < |s.workers| && s.workers[v] == Worker(Undo(o, t), Start) && t !in s.db.entries
    requires IsDeduction(s.db, o) && s.db.entries[o].status == Ledger.Committed
    requires forall k :: 0 <= k < |s.workers| ==> !s.workers[k].phase.Inserted?
    ensures r == Next(Next(Next(s, Begin(v)), Insert(v)), CreditCommit(v))
    ensures var amount := s.db.entries[o].amount;
            r == System(Db(WithPending(s.db, Undo(o, t), amount), s.db.balance + amount, s.db.credits + [Credit(Undo(o, t), amount)]),
                        s.workers[v := Worker(Undo(o, t), Credited(amount))])
  {
    var amount := s.db.entries[o].amount;
    var b := Next(s, Begin(v));
    assert b == s.(workers := s.workers[v := Worker(Undo(o, t), Cleared(amount))]);
    var c := Next(b, Insert(v));
    assert c == b.(workers := b.workers[v := Worker(Undo(o, t), Inserted(amount, false))]);
    r := Next(c, CreditCommit(v));
  }

  /** A session that crashes after its credit leaves the deduction unmarked: a later session under another id pays once more. */
  lemma CrashPaysTwice(s: System, v: nat, w: nat, o: Trace, t: Trace, u: Trace) returns (m: System, r: System)
    requires Fresh(s) && v < |s.workers| && w < |s.workers| && v != w && t != u && IsDeduction(s.db, o)
    requires s.workers[v] == Worker(Undo(o, t), Start) && s.workers[w] == Worker(Undo(o, u), Start)
    requires s.db.entries[o].status == Ledger.Committed && t !in s.db.entries && u !in s.db.entries
    ensures m == Next(Next(Next(s, Begin(v)), Insert(v)), CreditCommit(v))
    ensures r == Next(Next(Next(Next(m, Restart(v)), Begin(w)), Insert(w)), CreditCommit(w))
    ensures PaidBack(r.db.credits, o) == 2 && r.db.balance == s.db.balance + 2.0 * s.db.entries[o].amount
  {
    var amount := s.db.entries[o].amount;
    m := CreditReached(s, v, o, t);
    var a := Next(m, Restart(v));
    assert a == m.(workers := s.workers[v := Worker(Undo(o, t), Start)]);
    r := CreditReached(a, w, o, u);
    PaidTwice(r.db.credits, Undo(o, t), Undo(o, u), amount);
  }

  // ---- one session alone ----

  /** A recharge under a new id, alone: one credit of its amount, and a COMMITTED payment with that amount. */
  lemma RechargeAlone(s: System, w: nat, t: Trace, amount: real) returns (r: System)
    requires w < |s.workers| && s.workers[w] == Worker(Pay(t, amount), Start) && t !in s.db.entries
    requires forall k :: 0 <= k < |s.workers| ==> !s.workers[k].phase.Inserted?
    ensures r == Next(Next(Next(Next(s, Begin(w)), Insert(w)), CreditCommit(w)), Finish(w))
    ensures r.db == Db(s.db.entries[t := Entry(Ledger.Payment, Ledger.Committed, amount)], s.db.balance + amount,
                       s.db.credits + [Credit(Pay(t, amount), amount)])
    ensures r.workers == s.workers[w := Worker(Pay(t, amount), Finished)]
  {
    var job := Pay(t, amount);
    var a := Next(s, Begin(w));
    assert a == s.(workers := s.workers[w := Worker(job, Cleared(amount))]);
    var b := Next(a, Insert(w));
    assert b == a.(workers := a.workers[w := Worker(job, Inserted(amount, false))]);
    var c := Next(b, CreditCommit(w));
    assert c == System(Db(WithPending(s.db, job, amount), s.db.balance + amount, s.db.credits + [Credit(job, amount)]),
                       b.workers[w := Worker(job, Credited(amount))]);
    r := Next(c, Finish(w));
    assert r.db.entries == s.db.entries[t := Entry(Ledger.Payment, Ledger.Committed, amount)];
  }

  /** A retry after that finds the COMMITTED row and ends without a credit; a PENDING row makes it end refused. */
  lemma RetryIsAnswered(s: System, w: nat, t: Trace, amount: real)
    requires w < |s.workers| && s.workers[w] == Worker(Pay(t, amount), Start) && t in s.db.entries
    ensures var r := Next(s, Begin(w));
            r.db == s.db && r.workers[w].phase == if s.db.entries[t].status == Ledger.Committed then Finished else Refused
  {
  }

  /** A reversal is refused for an unknown id, for a row that is no deduction, for a reversed one, and for an id of its own that is taken but not COMMITTED. */
  lemma ReversalChecks(s: System, w: nat, o: Trace, t: Trace)
    requires w < |s.workers| && s.workers[w] == Worker(Undo(o, t), Start)
    ensures var r := Next(s, Begin(w));
            && r.db == s.db
            && (!IsDeduction(s.db, o) || IsReversed(s.db, o) ==> r.workers[w].phase == Refused)
            && (IsDeduction(s.db, o) && !IsReversed(s.db, o) ==>
                  r.workers[w].phase ==
                    if t !in s.db.entries then Cleared(s.db.entries[o].amount)
                    else if s.db.entries[t].status == Ledger.Committed then Finished else Refused)
  {
  }
}
