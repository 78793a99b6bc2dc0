/**
 What each call of `BillingRepository` does, told from its arguments and the stored columns,
 and what a whole run of calls makes of the balances.
 */
module LedgerCalls {
  import opened Common
  import opened Quota
  import opened Ledger
  import Calendar

  // ---- an account as its columns show it on a given day ----

  function Credit(quotas: map<Tenant, Row>, t: Tenant): real {
    if t in quotas then quotas[t].creditLimit else 0.0
  }

  function DailyQuota(quotas: map<Tenant, Row>, t: Tenant): int {
    if t in quotas then quotas[t].dailyQuota else 10000
  }

  function MonthlyQuota(quotas: map<Tenant, Row>, t: Tenant): int {
    if t in quotas then quotas[t].monthlyQuota else 300000
  }

  /** Usage counts from the day of the last reset, and not at all when that day has passed. */
  function UsedToday(quotas: map<Tenant, Row>, t: Tenant, today: Day): int {
    if t in quotas && quotas[t].dailyResetAt.Some? && today <= quotas[t].dailyResetAt.value then quotas[t].dailyUsed else 0
  }

  function UsedThisMonth(quotas: map<Tenant, Row>, t: Tenant, today: Day): int {
    if t in quotas && quotas[t].monthlyResetAt.Some? && Calendar.FirstOfMonth(today) <= quotas[t].monthlyResetAt.value
    then quotas[t].monthlyUsed else 0
  }

  /** One more request for this amount fits: into balance and credit, into the day and into the month. */
  ghost predicate Affords(quotas: map<Tenant, Row>, t: Tenant, amount: real, allowNegative: bool, today: Day) {
    && (amount <= 0.0 || allowNegative || amount <= Ledger.Balance(quotas, t) + Credit(quotas, t))
    && UsedToday(quotas, t, today) + 1 <= DailyQuota(quotas, t)
    && UsedThisMonth(quotas, t, today) + 1 <= MonthlyQuota(quotas, t)
  }

  /** The amount is gone from the balance, one request is counted, and nothing else of the account or of others has changed. */
  ghost predicate Charged(quotas: map<Tenant, Row>, quotas': map<Tenant, Row>, t: Tenant, amount: real, today: Day) {
    && OthersKept(quotas, quotas', t) && t in quotas'
    && quotas'[t].balance == Ledger.Balance(quotas, t) - amount
    && quotas'[t].dailyUsed == UsedToday(quotas, t, today) + 1
    && quotas'[t].monthlyUsed == UsedThisMonth(quotas, t, today) + 1
    && Credit(quotas', t) == Credit(quotas, t)
    && DailyQuota(quotas', t) == DailyQuota(quotas, t) && MonthlyQuota(quotas', t) == MonthlyQuota(quotas, t)
    && quotas'[t].version == (if t in quotas then quotas[t].version else 1) + 1
  }

  lemma DeductsIffAffords(quotas: map<Tenant, Row>, t: Tenant, amount: real, allowNegative: bool, today: Day)
    ensures var r := TryDeduct(quotas, t, Request(amount, 1, 1, 0, allowNegative), today);
            && (r.Ok? <==> Affords(quotas, t, amount, allowNegative, today))
            && (r.Ok? ==> Charged(quotas, quotas[t := r.value], t, amount, today))
  {
    if t in quotas { ResetClearsStale(quotas[t], today); }
  }

  // ---- one call ----

  ghost predicate Unused(rows: seq<Tx>, trace: Trace) {
    forall i: nat :: !HasRow(rows, trace, i)
  }

  ghost predicate HasRow(rows: seq<Tx>, trace: Trace, i: nat) {
    i < |rows| && rows[i].trace == trace
  }

  /** The answer to a repeated call: the row it wrote, if it is COMMITTED. */
  function Repeated(tx: Tx): Result<Tx, BillingError> {
    if tx.status == Committed then Ok(tx) else Err(Duplicate)
  }

  /** The table is left alone, and so is every balance. */
  ghost predicate NothingMoves(b: Books, b': Books) {
    b'.rows == b.rows && b'.quotas == b.quotas
  }

  /** `amount` is added to the balance of `t`; no other account changes. */
  ghost predicate Raised(quotas: map<Tenant, Row>, quotas': map<Tenant, Row>, t: Tenant, amount: real) {
    OthersKept(quotas, quotas', t) && Ledger.Balance(quotas', t) == Ledger.Balance(quotas, t) + amount
    && Credit(quotas', t) == Credit(quotas, t)
  }

  lemma FindsRow(rows: seq<Tx>, trace: Trace, i: nat)
    requires Unique(rows) && HasRow(rows, trace, i)
    ensures Find(rows, trace) == Some(i)
  {
  }

  lemma FindsNone(rows: seq<Tx>, trace: Trace)
    ensures Unused(rows, trace) <==> Find(rows, trace) == None
  {
    if Find(rows, trace).Some? { assert HasRow(rows, trace, Find(rows, trace).value); }
  }

  lemma LoadedRaised(quotas: map<Tenant, Row>, t: Tenant, amount: real, today: Day)
    ensures Raised(quotas, quotas[t := Credited(Loaded(quotas, t, today), amount)], t, amount)
    ensures Raised(quotas, quotas[t := Loaded(quotas, t, today)], t, 0.0)
  {
  }

  /** A new id: the balance rises by exactly the given amount and one committed payment says so.  A used id: nothing happens. */
  lemma RechargeLaw(b: Books, t: Tenant, trace: Trace, amount: real, today: Day)
    requires Unique(b.rows)
    ensures var (b', r) := Next(b, Recharge(t, trace, amount), today);
            && (Unused(b.rows, trace) ==>
                  && r == Ok(Tx(t, trace, Payment, Committed, amount, None, false))
                  && b'.rows == b.rows + [r.value] && b'.keys == b.keys && Raised(b.quotas, b'.quotas, t, amount))
            && (forall i: nat :: HasRow(b.rows, trace, i) ==> b' == b && r == Repeated(b.rows[i]))
  {
    FindsNone(b.rows, trace);
    LoadedRaised(b.quotas, t, amount, today);
    forall i: nat | HasRow(b.rows, trace, i) ensures Find(b.rows, trace) == Some(i) { FindsRow(b.rows, trace, i); }
  }

  /** A new id with Redis answering: charged in full and recorded if the account affords it, refused without a trace otherwise. */
  lemma DeductLaw(b: Books, t: Tenant, trace: Trace, amount: real, allowNegative: bool, redis: bool, today: Day)
    requires Unique(b.rows)
    ensures var (b', r) := Next(b, Deduct(t, trace, amount, allowNegative, redis), today);
            var free := redis && (t, trace) !in b.keys;
            && (Unused(b.rows, trace) && free && Affords(b.quotas, t, amount, allowNegative, today) ==>
                  && r == Ok(Tx(t, trace, Deduction, Committed, amount, None, true))
                  && b'.rows == b.rows + [r.value] && b'.keys == b.keys + {(t, trace)}
                  && Charged(b.quotas, b'.quotas, t, amount, today))
            && (Unused(b.rows, trace) && free && !Affords(b.quotas, t, amount, allowNegative, today) ==>
                  b' == b && r == Err(InsufficientBalance))
            && (Unused(b.rows, trace) && !free ==> b' == b && r == Err(Duplicate))
            && (forall i: nat :: HasRow(b.rows, trace, i) ==> NothingMoves(b, b') && r == Repeated(b.rows[i]))
  {
    FindsNone(b.rows, trace);
    DeductsIffAffords(b.quotas, t, amount, allowNegative, today);
    forall i: nat | HasRow(b.rows, trace, i) ensures Find(b.rows, trace) == Some(i) { FindsRow(b.rows, trace, i); }
  }

  /** A pending row is charged with the actual cost if the account affords it; every other row is left alone. */
  lemma CommitLaw(b: Books, trace: Trace, cost: real, allowNegative: bool, today: Day, i: nat)
    requires Unique(b.rows) && HasRow(b.rows, trace, i)
    ensures var (b', r) := Next(b, CommitPending(trace, cost, allowNegative), today);
            var tx := b.rows[i];
            && (tx.status == Pending && Affords(b.quotas, tx.tenant, cost, allowNegative, today) ==>
                  && r == Ok(Tx(tx.tenant, trace, tx.kind, Committed, cost, tx.reversedBy, true))
                  && b'.rows == b.rows[i := r.value] && b'.keys == b.keys
                  && Charged(b.quotas, b'.quotas, tx.tenant, cost, today))
            && (tx.status == Pending && !Affords(b.quotas, tx.tenant, cost, allowNegative, today) ==>
                  b' == b && r == Err(NoFailedStatus))
            && (tx.status == Committed ==> b' == b && r == Ok(tx))
            && (tx.status == Reversed ==> b' == b && r == Err(InvalidStatus))
  {
    FindsRow(b.rows, trace, i);
    DeductsIffAffords(b.quotas, b.rows[i].tenant, cost, allowNegative, today);
  }

  lemma CommitWithoutRow(b: Books, trace: Trace, cost: real, allowNegative: bool, today: Day)
    requires Unused(b.rows, trace)
    ensures Next(b, CommitPending(trace, cost, allowNegative), today) == (b, Err(NotFound))
  {
    FindsNone(b.rows, trace);
  }

  /** A new id: one committed deduction with the given amount and no money moved. */
  lemma RecordLaw(b: Books, t: Tenant, trace: Trace, amount: real, today: Day)
    requires Unique(b.rows)
    ensures var (b', r) := Next(b, Record(t, trace, amount), today);
            && (Unused(b.rows, trace) ==>
                  && r == Ok(Tx(t, trace, Deduction, Committed, amount, None, false))
                  && b'.rows == b.rows + [r.value] && b'.keys == b.keys && Raised(b.quotas, b'.quotas, t, 0.0))
            && (forall i: nat :: HasRow(b.rows, trace, i) ==> b' == b && r == Repeated(b.rows[i]))
  {
    FindsNone(b.rows, trace);
    LoadedRaised(b.quotas, t, 0.0, today);
    forall i: nat | HasRow(b.rows, trace, i) ensures Find(b.rows, trace) == Some(i) { FindsRow(b.rows, trace, i); }
  }

  /** A new id: one pending deduction with the estimate and no money moved; a used id is answered with its row, whatever its status. */
  lemma CreatePendingLaw(b: Books, t: Tenant, trace: Trace, estimate: real, today: Day)
    requires Unique(b.rows)
    ensures var (b', r) := Next(b, CreatePending(t, trace, estimate), today);
            && (Unused(b.rows, trace) ==>
                  && r == Ok(Tx(t, trace, Deduction, Pending, estimate, None, false))
                  && b'.rows == b.rows + [r.value] && b'.keys == b.keys && Raised(b.quotas, b'.quotas, t, 0.0))
            && (forall i: nat :: HasRow(b.rows, trace, i) ==> b' == b && r == Ok(b.rows[i]))
  {
    FindsNone(b.rows, trace);
    LoadedRaised(b.quotas, t, 0.0, today);
    forall i: nat | HasRow(b.rows, trace, i) ensures Find(b.rows, trace) == Some(i) { FindsRow(b.rows, trace, i); }
  }

  /** A deduction that is not reversed, and a new id: its tenant gets the amount back, it is marked, and one refund says so. */
  lemma ReverseLaw(b: Books, original: Trace, trace: Trace, today: Day, i: nat)
    requires Unique(b.rows) && HasRow(b.rows, original, i)
    ensures var (b', r) := Next(b, Reverse(original, trace), today);
            var tx := b.rows[i];
            && (tx.status == Reversed ==> b' == b && r == Err(AlreadyReversed))
            && (tx.status != Reversed && tx.kind != Deduction ==> b' == b && r == Err(NotADeduction))
            && (tx.status != Reversed && tx.kind == Deduction && Unused(b.rows, trace) ==>
                  && r == Ok(Tx(tx.tenant, trace, Refund, Committed, tx.amount, None, false))
                  && b'.rows == b.rows[i := tx.(status := Reversed, reversedBy := Some(trace))] + [r.value]
                  && b'.keys == b.keys && Raised(b.quotas, b'.quotas, tx.tenant, tx.amount))
            && (tx.status != Reversed && tx.kind == Deduction ==>
                  forall j: nat :: HasRow(b.rows, trace, j) ==> b' == b && r == Repeated(b.rows[j]))
  {
    FindsRow(b.rows, original, i);
    FindsNone(b.rows, trace);
    LoadedRaised(b.quotas, b.rows[i].tenant, b.rows[i].amount, today);
    forall j: nat | HasRow(b.rows, trace, j) ensures Find(b.rows, trace) == Some(j) { FindsRow(b.rows, trace, j); }
  }

  lemma ReverseWithoutRow(b: Books, original: Trace, trace: Trace, today: Day)
    requires Unused(b.rows, original)
    ensures Next(b, Reverse(original, trace), today) == (b, Err(NotFound))
  {
    FindsNone(b.rows, original);
  }

  // ---- whole runs, from the arguments of their calls ----

  ghost predicate DeductActs(b: Books, op: Op, today: Day) {
    && op.Deduct? && op.redis && (op.tenant, op.trace) !in b.keys && Unused(b.rows, op.trace)
    && Affords(b.quotas, op.tenant, op.amount, op.allowNegative, today)
  }

  /** The pending row `i` is committed by the call. */
  ghost predicate CommitActs(b: Books, op: Op, today: Day, i: nat) {
    && op.CommitPending? && HasRow(b.rows, op.trace, i) && b.rows[i].status == Pending
    && Affords(b.quotas, b.rows[i].tenant, op.cost, op.allowNegative, today)
  }

  /** Deduction `i` is reversed by the call. */
  ghost predicate ReverseActs(b: Books, op: Op, i: nat) {
    && op.Reverse? && HasRow(b.rows, op.original, i) && b.rows[i].kind == Deduction && b.rows[i].status != Reversed
    && Unused(b.rows, op.trace)
  }

  /** The amount that the calls have set for a deduction: its estimate, then its cost. */
  ghost function Agreed(b: Books, calls: seq<Call>, trace: Trace): real {
    if calls == [] then 0.0
    else
      var before, last := Run(b, calls[..|calls| - 1]), calls[|calls| - 1];
      var op := last.op;
      if op.trace != trace then Agreed(b, calls[..|calls| - 1], trace)
      else if op.CreatePending? && Unused(before.rows, trace) then op.estimate
      else if op.Record? && Unused(before.rows, trace) then op.amount
      else if DeductActs(before, op, last.today) then op.amount
      else if exists i: nat :: CommitActs(before, op, last.today, i) then op.cost
      else Agreed(b, calls[..|calls| - 1], trace)
  }

  /** What one call adds to the balance of `t`, given the amount agreed on for the deduction it reverses. */
  ghost function Effect(b: Books, op: Op, today: Day, t: Tenant, agreed: real): real {
    match op
    case Recharge(u, trace, amount) => if u == t && Unused(b.rows, trace) then amount else 0.0
    case Deduct(u, _, amount, _, _) => if u == t && DeductActs(b, op, today) then -amount else 0.0
    case CommitPending(_, cost, _) => if exists i: nat :: CommitActs(b, op, today, i) && b.rows[i].tenant == t then -cost else 0.0
    case Reverse(_, _) => if exists i: nat :: ReverseActs(b, op, i) && b.rows[i].tenant == t then agreed else 0.0
    case _ => 0.0
  }

  ghost function Effects(b: Books, calls: seq<Call>, t: Tenant): real {
    if calls == [] then 0.0
    else
      var before, last := calls[..|calls| - 1], calls[|calls| - 1];
      Effects(b, before, t)
      + Effect(Run(b, before), last.op, last.today, t, if last.op.Reverse? then Agreed(b, before, last.op.original) else 0.0)
  }

  lemma CommitEffect(b: Books, op: Op, today: Day, t: Tenant, agreed: real)
    requires Unique(b.rows) && op.CommitPending?
    ensures Ledger.Balance(Next(b, op, today).0.quotas, t) == Ledger.Balance(b.quotas, t) + Effect(b, op, today, t, agreed)
  {
    if Unused(b.rows, op.trace) {
      CommitWithoutRow(b, op.trace, op.cost, op.allowNegative, today);
    } else {
      var i: nat :| HasRow(b.rows, op.trace, i);
      CommitLaw(b, op.trace, op.cost, op.allowNegative, today, i);
      assert forall j: nat :: CommitActs(b, op, today, j) ==> j == i;
      assert b.rows[i].status == Pending && Affords(b.quotas, b.rows[i].tenant, op.cost, op.allowNegative, today) ==> CommitActs(b, op, today, i);
    }
  }

  lemma ReverseEffect(b: Books, op: Op, today: Day, t: Tenant, agreed: real)
    requires Unique(b.rows) && op.Reverse?
    requires forall i: nat :: HasRow(b.rows, op.original, i) && b.rows[i].kind == Deduction ==> b.rows[i].amount == agreed
    ensures Ledger.Balance(Next(b, op, today).0.quotas, t) == Ledger.Balance(b.quotas, t) + Effect(b, op, today, t, agreed)
  {
    if Unused(b.rows, op.original) {
      ReverseWithoutRow(b, op.original, op.trace, today);
    } else {
      var i: nat :| HasRow(b.rows, op.original, i);
      ReverseLaw(b, op.original, op.trace, today, i);
      assert forall j: nat :: ReverseActs(b, op, j) ==> j == i;
      if ReverseActs(b, op, i) { } else if !Unused(b.rows, op.trace) { var j: nat :| HasRow(b.rows, op.trace, j); }
    }
  }

  lemma OtherEffect(b: Books, op: Op, today: Day, t: Tenant, agreed: real)
    requires Unique(b.rows) && !op.CommitPending? && !op.Reverse?
    ensures Ledger.Balance(Next(b, op, today).0.quotas, t) == Ledger.Balance(b.quotas, t) + Effect(b, op, today, t, agreed)
  {
    if !Unused(b.rows, op.trace) { var i: nat :| HasRow(b.rows, op.trace, i); }
    match op
    case Recharge(u, trace, amount) => RechargeLaw(b, u, trace, amount, today);
    case Deduct(u, trace, amount, allowNegative, redis) => DeductLaw(b, u, trace, amount, allowNegative, redis, today);
    case Record(u, trace, amount) => RecordLaw(b, u, trace, amount, today);
    case CreatePending(u, trace, e) => CreatePendingLaw(b, u, trace, e, today);
    case ExpireKey(_, _) =>
  }

  ghost predicate AllAgreed(b: Books, calls: seq<Call>) {
    var rows := Run(b, calls).rows;
    forall i :: 0 <= i < |rows| && rows[i].kind == Deduction ==> rows[i].amount == Agreed(b, calls, rows[i].trace)
  }

  /** What one call does to the amount of an old row, and which amount a new one gets. */
  lemma AmountStep(b: Books, op: Op, today: Day, i: nat)
    requires Unique(b.rows) && i < |Next(b, op, today).0.rows|
    ensures var rows' := Next(b, op, today).0.rows;
            && |b.rows| <= |rows'|
            && (i < |b.rows| ==> rows'[i].trace == b.rows[i].trace && rows'[i].kind == b.rows[i].kind
                                 && rows'[i].amount == if CommitActs(b, op, today, i) then op.cost else b.rows[i].amount)
            && (i >= |b.rows| && rows'[i].kind == Deduction ==>
                  && rows'[i].trace == op.trace && Unused(b.rows, op.trace)
                  && (op.CreatePending? || op.Record? || DeductActs(b, op, today))
                  && rows'[i].amount == if op.CreatePending? then op.estimate else op.amount)
  {
    if op.CommitPending? {
      if Unused(b.rows, op.trace) {
        CommitWithoutRow(b, op.trace, op.cost, op.allowNegative, today);
      } else {
        var j: nat :| HasRow(b.rows, op.trace, j);
        CommitLaw(b, op.trace, op.cost, op.allowNegative, today, j);
      }
    } else if op.Deduct? {
      DeductLaw(b, op.tenant, op.trace, op.amount, op.allowNegative, op.redis, today);
      if !Unused(b.rows, op.trace) { var j: nat :| HasRow(b.rows, op.trace, j); }
    } else {
      FindsNone(b.rows, op.trace);
    }
  }

  lemma {:induction false} AmountsAgreed(b: Books, calls: seq<Call>)
    requires b.rows == []
    ensures AllAgreed(b, calls)
  {
    if calls != [] {
      var before, last := calls[..|calls| - 1], calls[|calls| - 1];
      var r := Run(b, before);
      AmountsAgreed(b, before);
      MoneyIsConserved(b, before, 0);
      var rows' := Run(b, calls).rows;
      forall i | 0 <= i < |rows'| && rows'[i].kind == Deduction ensures rows'[i].amount == Agreed(b, calls, rows'[i].trace) {
        AmountStep(r, last.op, last.today, i);
        AgreedStep(b, calls, i);
      }
    }
  }

  lemma AgreedStep(b: Books, calls: seq<Call>, i: nat)
    requires calls != [] && i < |Run(b, calls).rows| && Run(b, calls).rows[i].kind == Deduction
    requires var r := Run(b, calls[..|calls| - 1]);
             Unique(r.rows) && AllAgreed(b, calls[..|calls| - 1])
    ensures Run(b, calls).rows[i].amount == Agreed(b, calls, Run(b, calls).rows[i].trace)
  {
    var before, last := calls[..|calls| - 1], calls[|calls| - 1];
    var r := Run(b, before);
    AmountStep(r, last.op, last.today, i);
    if i < |r.rows| {
      assert HasRow(r.rows, r.rows[i].trace, i);
      if j: nat :| CommitActs(r, last.op, last.today, j) && last.op.trace == r.rows[i].trace { assert j == i; }
    }
  }

  /**
   Over every run from an empty table, balance = opening + what the calls that acted were asked
   to add and to take; a reversal adds the amount its deduction had been agreed at.
   */
  lemma {:induction false} BalanceFollowsCalls(b: Books, calls: seq<Call>, t: Tenant)
    requires b.rows == []
    ensures Ledger.Balance(Run(b, calls).quotas, t) == Ledger.Balance(b.quotas, t) + Effects(b, calls, t)
  {
    if calls != [] {
      var before, last := calls[..|calls| - 1], calls[|calls| - 1];
      var r := Run(b, before);
      BalanceFollowsCalls(b, before, t);
      AmountsAgreed(b, before);
      MoneyIsConserved(b, before, t);
      if last.op.CommitPending? { CommitEffect(r, last.op, last.today, t, 0.0); }
      else if last.op.Reverse? { ReverseEffect(r, last.op, last.today, t, Agreed(b, before, last.op.original)); }
      else { OtherEffect(r, last.op, last.today, t, 0.0); }
    }
  }
}
