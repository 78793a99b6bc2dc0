/**
 The billing ledger of `BillingRepository` on its database path, one call at a time.

 The transaction table is a sequence of rows in insertion order.  `charged` is a
 history bit of this model, not a column: it records whether the row's amount was
 ever taken from the balance.  `StatusTellsCharges` proves how a caller can tell it.
 */
module Ledger {
  import opened Common
  import opened Quota

  /** Trace ids are only ever compared. */
  type Trace = nat

  datatype TxKind = Deduction | Payment | Refund
  datatype Status = Pending | Committed | Reversed

  datatype Tx = Tx(tenant: Tenant, trace: Trace, kind: TxKind, status: Status, amount: real, reversedBy: Option<Trace>, charged: bool)

  datatype BillingError = Duplicate | InsufficientBalance | NotFound | InvalidStatus | NoFailedStatus | AlreadyReversed | NotADeduction

  /** The table, the quota rows and the Redis idempotency keys. */
  datatype Books = Books(rows: seq<Tx>, quotas: map<Tenant, Row>, keys: set<(Tenant, Trace)>)

  datatype Op =
    | CreatePending(tenant: Tenant, trace: Trace, estimate: real)
    | CommitPending(trace: Trace, cost: real, allowNegative: bool)
    | Record(tenant: Tenant, trace: Trace, amount: real)
    | Deduct(tenant: Tenant, trace: Trace, amount: real, allowNegative: bool, redis: bool)
    | Recharge(tenant: Tenant, trace: Trace, amount: real)
    | Reverse(original: Trace, trace: Trace)
    | ExpireKey(tenant: Tenant, trace: Trace)

  /** `get_by_trace_id`: the position of the row, if there is one. */
  function Find(rows: seq<Tx>, trace: Trace): (r: Option<nat>)
    ensures r.Some? ==> r.value < |rows| && rows[r.value].trace == trace
    ensures r.None? ==> forall i :: 0 <= i < |rows| ==> rows[i].trace != trace
  {
    if rows == [] then None
    else if rows[|rows| - 1].trace == trace then Some(|rows| - 1)
    else Find(rows[..|rows| - 1], trace)
  }

  /** A hit on an idempotency key: the committed row is returned, anything else is a duplicate. */
  function Existing(rows: seq<Tx>, trace: Trace): Result<Tx, BillingError> {
    match Find(rows, trace)
    case Some(i) => if rows[i].status == Committed then Ok(rows[i]) else Err(Duplicate)
    case None => Err(Duplicate)
  }

  function Next(b: Books, op: Op, today: int): (Books, Result<Tx, BillingError>)
    requires today >= 1
  {
    match op
    case CreatePending(t, trace, estimate) =>
      if Find(b.rows, trace).Some? then (b, Ok(b.rows[Find(b.rows, trace).value]))
      else
        var tx := Tx(t, trace, Deduction, Pending, estimate, None, false);
        (b.(rows := b.rows + [tx], quotas := b.quotas[t := Loaded(b.quotas, t, today)]), Ok(tx))
    case CommitPending(trace, cost, allowNegative) => CommitNext(b, trace, cost, allowNegative, today)
    case Record(t, trace, amount) =>
      if Find(b.rows, trace).Some? then (b, Existing(b.rows, trace))
      else
        var tx := Tx(t, trace, Deduction, Committed, amount, None, false);
        (b.(rows := b.rows + [tx], quotas := b.quotas[t := Loaded(b.quotas, t, today)]), Ok(tx))
    case Deduct(t, trace, amount, allowNegative, redis) => DeductNext(b, t, trace, amount, allowNegative, redis, today)
    case Recharge(t, trace, amount) =>
      if Find(b.rows, trace).Some? then (b, Existing(b.rows, trace))
      else
        var tx := Tx(t, trace, Payment, Committed, amount, None, false);
        (b.(rows := b.rows + [tx], quotas := b.quotas[t := Credited(Loaded(b.quotas, t, today), amount)]), Ok(tx))
    case Reverse(original, trace) => ReverseNext(b, original, trace, today)
    case ExpireKey(t, trace) => (b.(keys := b.keys - {(t, trace)}), Err(NotFound))
  }

  function CommitNext(b: Books, trace: Trace, cost: real, allowNegative: bool, today: int): (Books, Result<Tx, BillingError>)
    requires today >= 1
  {
    match Find(b.rows, trace)
    case None => (b, Err(NotFound))
    case Some(i) =>
      if b.rows[i].status == Committed then (b, Ok(b.rows[i]))
      else if b.rows[i].status != Pending then (b, Err(InvalidStatus))
      else
        match TryDeduct(b.quotas, b.rows[i].tenant, Request(cost, 1, 1, 0, allowNegative), today)
        case Err(_) => (b, Err(NoFailedStatus))  // the branch names a status that the enumeration lacks
        case Ok(row) =>
          var tx := b.rows[i].(amount := cost, status := Committed, charged := true);
          (b.(rows := b.rows[i := tx], quotas := b.quotas[tx.tenant := row]), Ok(tx))
  }

  /** Without Redis the key cannot be set, and the call is treated as a repetition. */
  function DeductNext(b: Books, t: Tenant, trace: Trace, amount: real, allowNegative: bool, redis: bool, today: int)
    : (Books, Result<Tx, BillingError>)
    requires today >= 1
  {
    if !redis || (t, trace) in b.keys then (b, Existing(b.rows, trace))
    else if Find(b.rows, trace).Some? then (b.(keys := b.keys + {(t, trace)}), Existing(b.rows, trace))
    else
      match TryDeduct(b.quotas, t, Request(amount, 1, 1, 0, allowNegative), today)
      case Err(_) => (b, Err(InsufficientBalance))
      case Ok(row) =>
        var tx := Tx(t, trace, Deduction, Committed, amount, None, true);
        (Books(b.rows + [tx], b.quotas[t := row], b.keys + {(t, trace)}), Ok(tx))
  }

  function ReverseNext(b: Books, original: Trace, trace: Trace, today: int): (Books, Result<Tx, BillingError>)
    requires today >= 1
  {
    match Find(b.rows, original)
    case None => (b, Err(NotFound))
    case Some(i) =>
      var tx := b.rows[i];
      if tx.status == Reversed then (b, Err(AlreadyReversed))
      else if tx.kind != Deduction then (b, Err(NotADeduction))
      else if Find(b.rows, trace).Some? then (b, Existing(b.rows, trace))
      else
        var refund := Tx(tx.tenant, trace, Refund, Committed, tx.amount, None, false);
        var reversed := tx.(status := Reversed, reversedBy := Some(trace));
        (b.(rows := b.rows[i := reversed] + [refund],
            quotas := b.quotas[tx.tenant := Credited(Loaded(b.quotas, tx.tenant, today), tx.amount)]), Ok(refund))
  }

  type Day = d: int | 1 <= d witness 1

  datatype Call = Call(op: Op, today: Day)

  function Run(b: Books, calls: seq<Call>): Books {
    if calls == [] then b
    else Next(Run(b, calls[..|calls| - 1]), calls[|calls| - 1].op, calls[|calls| - 1].today).0
  }

  // ---- sums over the table ----

  function Sum(rows: seq<Tx>, t: Tenant, f: Tx -> real): real {
    if rows == [] then 0.0
    else Sum(rows[..|rows| - 1], t, f) + (if rows[|rows| - 1].tenant == t then f(rows[|rows| - 1]) else 0.0)
  }

  function ToppedUp(tx: Tx): real { if tx.kind == Payment then tx.amount else 0.0 }
  function Refunded(tx: Tx): real { if tx.kind == Refund then tx.amount else 0.0 }
  function Charge(tx: Tx): real { if tx.charged then tx.amount else 0.0 }
  function ReversedAmount(tx: Tx): real { if tx.status == Reversed then tx.amount else 0.0 }
  function Kept(tx: Tx): real { if tx.charged && tx.status == Committed then tx.amount else 0.0 }
  function Minted(tx: Tx): real { if !tx.charged && tx.status == Reversed then tx.amount else 0.0 }

  lemma SumAppend(rows: seq<Tx>, tx: Tx, t: Tenant, f: Tx -> real)
    ensures Sum(rows + [tx], t, f) == Sum(rows, t, f) + if tx.tenant == t then f(tx) else 0.0
  {
  }

  lemma {:induction false} SumUpdate(rows: seq<Tx>, i: nat, tx: Tx, t: Tenant, f: Tx -> real)
    requires i < |rows| && tx.tenant == rows[i].tenant
    ensures Sum(rows[i := tx], t, f) == Sum(rows, t, f) + if tx.tenant == t then f(tx) - f(rows[i]) else 0.0
  {
    var n := |rows| - 1;
    if i == n {
      assert rows[i := tx][..n] == rows[..n];
    } else {
      SumUpdate(rows[..n], i, tx, t, f);
      assert rows[i := tx][..n] == rows[..n][i := tx];
    }
  }

  lemma SumReversal(rows: seq<Tx>, i: nat, reversed: Tx, refund: Tx, t: Tenant, f: Tx -> real)
    requires i < |rows| && reversed.tenant == refund.tenant == rows[i].tenant
    ensures Sum(rows[i := reversed] + [refund], t, f) ==
            Sum(rows, t, f) + if refund.tenant == t then f(reversed) - f(rows[i]) + f(refund) else 0.0
  {
    SumUpdate(rows, i, reversed, t, f);
    SumAppend(rows[i := reversed], refund, t, f);
  }

  function Balance(quotas: map<Tenant, Row>, t: Tenant): real {
    if t in quotas then quotas[t].balance else 0.0
  }

  // ---- the invariant ----

  ghost predicate Unique(rows: seq<Tx>) {
    forall i, j :: 0 <= i < j < |rows| ==> rows[i].trace != rows[j].trace
  }

  ghost predicate RowShape(tx: Tx) {
    && (tx.status != Committed ==> tx.kind == Deduction)
    && (tx.charged ==> tx.kind == Deduction && tx.status != Pending)
    && (tx.reversedBy.Some? <==> tx.status == Reversed)
  }

  /** Row `i` was reversed by row `j`, its refund. */
  ghost predicate RefundOf(rows: seq<Tx>, i: int, j: int) {
    && 0 <= i < |rows| && 0 <= j < |rows|
    && rows[i].kind == Deduction && rows[i].status == Reversed && rows[i].reversedBy == Some(rows[j].trace)
    && rows[j].kind == Refund && rows[j].amount == rows[i].amount && rows[j].tenant == rows[i].tenant
  }

  /** Refunds and reversed deductions correspond one to one, with equal amounts. */
  ghost predicate RefundsMatch(rows: seq<Tx>) {
    ReversalsRefunded(rows) && RefundsReverse(rows) && ReversersDiffer(rows)
  }

  ghost predicate IsReversed(rows: seq<Tx>, i: int) { 0 <= i < |rows| && rows[i].status == Reversed }

  ghost predicate IsRefund(rows: seq<Tx>, j: int) { 0 <= j < |rows| && rows[j].kind == Refund }

  ghost predicate ReversalsRefunded(rows: seq<Tx>) {
    forall i {:trigger IsReversed(rows, i)} :: IsReversed(rows, i) ==> exists j :: RefundOf(rows, i, j)
  }

  ghost predicate RefundsReverse(rows: seq<Tx>) {
    forall j {:trigger IsRefund(rows, j)} :: IsRefund(rows, j) ==> exists i :: RefundOf(rows, i, j)
  }

  ghost predicate ReversersDiffer(rows: seq<Tx>) {
    forall i, k :: 0 <= i < k < |rows| && rows[i].status == Reversed && rows[k].status == Reversed ==>
      rows[i].reversedBy != rows[k].reversedBy
  }

  ghost predicate Wellformed(b: Books) {
    RowsWellformed(b.rows)
  }

  ghost predicate Shaped(rows: seq<Tx>) {
    forall i :: 0 <= i < |rows| ==> RowShape(rows[i])
  }

  ghost predicate Conserved(opening: map<Tenant, Row>, b: Books, t: Tenant) {
    && Balance(b.quotas, t) == Balance(opening, t) + Sum(b.rows, t, ToppedUp) + Sum(b.rows, t, Refunded) - Sum(b.rows, t, Charge)
    && Sum(b.rows, t, Refunded) == Sum(b.rows, t, ReversedAmount)
  }

  lemma LoadedKeepsBalance(quotas: map<Tenant, Row>, t: Tenant, today: int)
    requires today >= 1
    ensures Loaded(quotas, t, today).balance == Balance(quotas, t)
  {
  }

  lemma AppendConserves(opening: map<Tenant, Row>, b: Books, tx: Tx, row: Row, keys: set<(Tenant, Trace)>, t: Tenant)
    requires Conserved(opening, b, t) && tx.status != Reversed && tx.kind != Refund
    requires row.balance == Balance(b.quotas, tx.tenant) + ToppedUp(tx) - Charge(tx)
    ensures Conserved(opening, Books(b.rows + [tx], b.quotas[tx.tenant := row], keys), t)
  {
  }

  lemma CommitConserves(opening: map<Tenant, Row>, b: Books, op: Op, today: int, t: Tenant)
    requires today >= 1 && Wellformed(b) && Conserved(opening, b, t) && op.CommitPending?
    ensures Conserved(opening, Next(b, op, today).0, t)
  {
    var b' := Next(b, op, today).0;
    if b'.rows != b.rows {
      var i := Find(b.rows, op.trace).value;
      var tx := b'.rows[i];
      LoadedKeepsBalance(b.quotas, tx.tenant, today);
      assert RowShape(b.rows[i]);
      SumUpdate(b.rows, i, tx, t, ToppedUp);
      SumUpdate(b.rows, i, tx, t, Refunded);
      SumUpdate(b.rows, i, tx, t, Charge);
      SumUpdate(b.rows, i, tx, t, ReversedAmount);
    }
  }

  /** A reversed row and its refund, with the amount credited. */
  lemma ReversalConserves(opening: map<Tenant, Row>, b: Books, i: nat, trace: Trace, row: Row, t: Tenant)
    requires i < |b.rows| && b.rows[i].kind == Deduction && b.rows[i].status != Reversed && Conserved(opening, b, t)
    requires row.balance == Balance(b.quotas, b.rows[i].tenant) + b.rows[i].amount
    ensures var tx := b.rows[i];
            var refund := Tx(tx.tenant, trace, Refund, Committed, tx.amount, None, false);
            var rows := b.rows[i := tx.(status := Reversed, reversedBy := Some(trace))] + [refund];
            Conserved(opening, Books(rows, b.quotas[tx.tenant := row], b.keys), t)
  {
    var tx := b.rows[i];
    var reversed := tx.(status := Reversed, reversedBy := Some(trace));
    var refund := Tx(tx.tenant, trace, Refund, Committed, tx.amount, None, false);
    SumReversal(b.rows, i, reversed, refund, t, ToppedUp);
    SumReversal(b.rows, i, reversed, refund, t, Refunded);
    SumReversal(b.rows, i, reversed, refund, t, Charge);
    SumReversal(b.rows, i, reversed, refund, t, ReversedAmount);
  }

  lemma ReverseConserves(opening: map<Tenant, Row>, b: Books, op: Op, today: int, t: Tenant)
    requires today >= 1 && Conserved(opening, b, t) && op.Reverse?
    ensures Conserved(opening, Next(b, op, today).0, t)
  {
    var b' := Next(b, op, today).0;
    if b'.rows != b.rows {
      var i := Find(b.rows, op.original).value;
      LoadedKeepsBalance(b.quotas, b.rows[i].tenant, today);
      ReversalConserves(opening, b, i, op.trace, b'.quotas[b.rows[i].tenant], t);
    }
  }

  lemma StepConserves(opening: map<Tenant, Row>, b: Books, op: Op, today: int, t: Tenant)
    requires today >= 1 && Wellformed(b) && Conserved(opening, b, t)
    ensures Conserved(opening, Next(b, op, today).0, t)
  {
    if op.CommitPending? {
      CommitConserves(opening, b, op, today, t);
    } else if op.Reverse? {
      ReverseConserves(opening, b, op, today, t);
    } else if !op.ExpireKey? {
      var b' := Next(b, op, today).0;
      if b'.rows != b.rows {
        LoadedKeepsBalance(b.quotas, op.tenant, today);
        AppendConserves(opening, b, b'.rows[|b.rows|], b'.quotas[op.tenant], b'.keys, t);
      }
    }
  }

  /** What one call may do to the table: a row is added, a pending row is committed, or a deduction is reversed. */
  ghost predicate RowAdded(rows: seq<Tx>, rows': seq<Tx>) {
    && |rows'| == |rows| + 1 && rows'[..|rows|] == rows
    && RowShape(rows'[|rows|]) && rows'[|rows|].kind != Refund && rows'[|rows|].status != Reversed
    && forall i :: 0 <= i < |rows| ==> rows[i].trace != rows'[|rows|].trace
  }

  ghost predicate RowCommitted(rows: seq<Tx>, rows': seq<Tx>, i: int) {
    && 0 <= i < |rows| == |rows'| && rows[i].status == Pending
    && rows' == rows[i := rows[i].(amount := rows'[i].amount, status := Committed, charged := true)]
  }

  ghost predicate RowReversed(rows: seq<Tx>, rows': seq<Tx>, i: int) {
    && 0 <= i < |rows| && rows[i].kind == Deduction && rows[i].status != Reversed && |rows'| == |rows| + 1
    && rows'[|rows|] == Tx(rows[i].tenant, rows'[|rows|].trace, Refund, Committed, rows[i].amount, None, false)
    && rows'[..|rows|] == rows[i := rows[i].(status := Reversed, reversedBy := Some(rows'[|rows|].trace))]
    && forall k :: 0 <= k < |rows| ==> rows[k].trace != rows'[|rows|].trace
  }

  lemma StepShapes(b: Books, op: Op, today: int)
    requires today >= 1
    ensures var rows' := Next(b, op, today).0.rows;
            rows' == b.rows || RowAdded(b.rows, rows') || (exists i :: RowCommitted(b.rows, rows', i)) || exists i :: RowReversed(b.rows, rows', i)
  {
    var rows' := Next(b, op, today).0.rows;
    if rows' != b.rows {
      if op.CommitPending? {
        assert RowCommitted(b.rows, rows', Find(b.rows, op.trace).value);
      } else if op.Reverse? {
        assert RowReversed(b.rows, rows', Find(b.rows, op.original).value);
      } else {
        assert RowAdded(b.rows, rows');
      }
    }
  }

  /** Reversed rows and refunds of `rows` are untouched in `rows'`. */
  ghost predicate KeepsMatched(rows: seq<Tx>, rows': seq<Tx>) {
    && |rows| <= |rows'|
    && forall k :: 0 <= k < |rows| && (rows[k].status == Reversed || rows[k].kind == Refund) ==> rows'[k] == rows[k]
  }

  lemma ReversalKept(rows: seq<Tx>, rows': seq<Tx>, i: int)
    requires KeepsMatched(rows, rows') && ReversalsRefunded(rows) && IsReversed(rows, i)
    ensures exists j :: RefundOf(rows', i, j) && j < |rows|
  {
    var j :| RefundOf(rows, i, j);
    assert RefundOf(rows', i, j);
  }

  lemma RefundKept(rows: seq<Tx>, rows': seq<Tx>, j: int)
    requires KeepsMatched(rows, rows') && RefundsReverse(rows) && IsRefund(rows, j)
    ensures exists i :: RefundOf(rows', i, j)
  {
    var i :| RefundOf(rows, i, j);
    assert RefundOf(rows', i, j);
  }

  /** The correspondence extends to a table whose new reversals and refunds are all accounted for by one pair. */
  lemma MatchKept(rows: seq<Tx>, rows': seq<Tx>, c: int, n: int)
    requires KeepsMatched(rows, rows') && ReversalsRefunded(rows) && RefundsReverse(rows)
    requires forall i :: IsReversed(rows', i) && !IsReversed(rows, i) ==> i == c && RefundOf(rows', c, n)
    requires forall j :: IsRefund(rows', j) && !IsRefund(rows, j) ==> j == n && RefundOf(rows', c, n)
    ensures ReversalsRefunded(rows') && RefundsReverse(rows')
  {
    forall i {:trigger IsReversed(rows', i)} | IsReversed(rows', i) ensures exists j :: RefundOf(rows', i, j) {
      if IsReversed(rows, i) { ReversalKept(rows, rows', i); }
    }
    forall j {:trigger IsRefund(rows', j)} | IsRefund(rows', j) ensures exists i :: RefundOf(rows', i, j) {
      if IsRefund(rows, j) { RefundKept(rows, rows', j); }
    }
  }

  ghost predicate RowsWellformed(rows: seq<Tx>) {
    Unique(rows) && Shaped(rows) && RefundsMatch(rows)
  }

  lemma AddedStaysWellformed(rows: seq<Tx>, rows': seq<Tx>)
    requires RowsWellformed(rows) && RowAdded(rows, rows')
    ensures RowsWellformed(rows')
  {
    assert forall k :: 0 <= k < |rows| ==> rows'[k] == rows'[..|rows|][k] == rows[k];
    MatchKept(rows, rows', 0, 0);
  }

  lemma CommittedStaysWellformed(rows: seq<Tx>, rows': seq<Tx>, c: int)
    requires RowsWellformed(rows) && RowCommitted(rows, rows', c)
    ensures RowsWellformed(rows')
  {
    assert RowShape(rows[c]);
    assert forall k :: 0 <= k < |rows| && k != c ==> rows'[k] == rows[k];
    MatchKept(rows, rows', 0, 0);
  }

  lemma ReversedStaysWellformed(rows: seq<Tx>, rows': seq<Tx>, c: int)
    requires RowsWellformed(rows) && RowReversed(rows, rows', c)
    ensures RowsWellformed(rows')
  {
    var n := |rows|;
    assert RowShape(rows[c]);
    assert forall k :: 0 <= k < n ==> rows'[k] == rows'[..n][k];
    assert forall k :: 0 <= k < n && k != c ==> rows'[k] == rows[k];
    assert RefundOf(rows', c, n);
    MatchKept(rows, rows', c, n);
    forall i | 0 <= i < n && i != c && rows'[i].status == Reversed ensures rows'[i].reversedBy != Some(rows'[n].trace) {
      assert IsReversed(rows, i);
      ReversalKept(rows, rows', i);
    }
  }

  lemma StepStaysWellformed(b: Books, op: Op, today: int)
    requires today >= 1 && Wellformed(b)
    ensures Wellformed(Next(b, op, today).0)
  {
    var rows' := Next(b, op, today).0.rows;
    StepShapes(b, op, today);
    if RowAdded(b.rows, rows') { AddedStaysWellformed(b.rows, rows'); }
    else if i :| RowCommitted(b.rows, rows', i) { CommittedStaysWellformed(b.rows, rows', i); }
    else if i :| RowReversed(b.rows, rows', i) { ReversedStaysWellformed(b.rows, rows', i); }
  }

  // ---- the laws over whole runs ----

  /**
   Over every run of calls on an empty table: trace ids stay unique, refunds and reversed
   deductions match one to one with equal amounts, and for every tenant
   balance = opening + recharges + refunds - the deductions that took effect.
   */
  lemma {:induction false} MoneyIsConserved(b: Books, calls: seq<Call>, t: Tenant)
    requires b.rows == []
    ensures Wellformed(Run(b, calls)) && Conserved(b.quotas, Run(b, calls), t)
  {
    if calls != [] {
      var last := calls[|calls| - 1];
      MoneyIsConserved(b, calls[..|calls| - 1], t);
      StepStaysWellformed(Run(b, calls[..|calls| - 1]), last.op, last.today);
      StepConserves(b.quotas, Run(b, calls[..|calls| - 1]), last.op, last.today, t);
    }
  }

  lemma {:induction false} ChargesSplit(rows: seq<Tx>, t: Tenant)
    requires Shaped(rows)
    ensures Sum(rows, t, Charge) == Sum(rows, t, Kept) + Sum(rows, t, ReversedAmount) - Sum(rows, t, Minted)
  {
    if rows != [] { ChargesSplit(rows[..|rows| - 1], t); }
  }

  /**
   Exactly what a tenant ends up with: recharges minus the charges that still stand, plus
   the amount of every deduction that was reversed without ever having been charged.
   */
  lemma MintedExactly(b: Books, calls: seq<Call>, t: Tenant)
    requires b.rows == []
    ensures var r := Run(b, calls);
            Balance(r.quotas, t) == Balance(b.quotas, t) + Sum(r.rows, t, ToppedUp) - Sum(r.rows, t, Kept) + Sum(r.rows, t, Minted)
  {
    MoneyIsConserved(b, calls, t);
    ChargesSplit(Run(b, calls).rows, t);
  }

  // ---- which deductions took effect, told from the run and the status column ----

  /** `record_transaction` wrote the row of this trace id: its charge was taken on Redis, not here. */
  ghost predicate RecordedIn(b: Books, calls: seq<Call>, trace: Trace) {
    calls != [] &&
    var last := calls[|calls| - 1].op;
    || RecordedIn(b, calls[..|calls| - 1], trace)
    || (last.Record? && last.trace == trace && Find(Run(b, calls[..|calls| - 1]).rows, trace).None?)
  }

  /** A deduction that is not reversed was charged exactly when it is COMMITTED and was not merely recorded. */
  ghost predicate StatusTells(rows: seq<Tx>, recorded: iset<Trace>) {
    && (forall i :: 0 <= i < |rows| ==> StatusTellsRow(rows[i], recorded))
    && (forall trace :: trace in recorded ==> Find(rows, trace).Some?)
  }

  ghost predicate StatusTellsRow(tx: Tx, recorded: iset<Trace>) {
    && (tx.kind == Deduction && tx.status != Reversed ==> (tx.charged <==> tx.status == Committed && tx.trace !in recorded))
    && (tx.status == Pending ==> tx.trace !in recorded)
  }

  ghost function Recorded(b: Books, calls: seq<Call>): iset<Trace> {
    iset trace: Trace | RecordedIn(b, calls, trace)
  }

  lemma FindKept(rows: seq<Tx>, rows': seq<Tx>, trace: Trace)
    requires Find(rows, trace).Some? && |rows| <= |rows'| && forall i :: 0 <= i < |rows| ==> rows'[i].trace == rows[i].trace
    ensures Find(rows', trace).Some?
  {
    assert rows'[Find(rows, trace).value].trace == trace;
  }

  /** What one call does to the set of recorded ids. */
  ghost function RecordedNext(b: Books, op: Op, recorded: iset<Trace>): iset<Trace> {
    if op.Record? && Find(b.rows, op.trace).None? then recorded + iset{op.trace} else recorded
  }

  lemma StatusStep(b: Books, op: Op, today: int, recorded: iset<Trace>)
    requires today >= 1 && StatusTells(b.rows, recorded)
    ensures StatusTells(Next(b, op, today).0.rows, RecordedNext(b, op, recorded))
  {
    RecordedStep(b, op, today, recorded);
    var rows' := Next(b, op, today).0.rows;
    forall i | 0 <= i < |rows'| ensures StatusTellsRow(rows'[i], RecordedNext(b, op, recorded)) {
      StatusRow(b, op, today, recorded, i);
    }
  }

  lemma StatusRow(b: Books, op: Op, today: int, recorded: iset<Trace>, i: nat)
    requires today >= 1 && StatusTells(b.rows, recorded) && i < |Next(b, op, today).0.rows|
    ensures StatusTellsRow(Next(b, op, today).0.rows[i], RecordedNext(b, op, recorded))
  {
    if i < |b.rows| { assert StatusTellsRow(b.rows[i], recorded); }
  }

  lemma RecordedStep(b: Books, op: Op, today: int, recorded: iset<Trace>)
    requires today >= 1 && forall trace :: trace in recorded ==> Find(b.rows, trace).Some?
    ensures forall trace :: trace in RecordedNext(b, op, recorded) ==> Find(Next(b, op, today).0.rows, trace).Some?
  {
    var rows' := Next(b, op, today).0.rows;
    StepLater(b, op, today);
    forall trace | trace in RecordedNext(b, op, recorded) ensures Find(rows', trace).Some? {
      if trace in recorded { FindKept(b.rows, rows', trace); } else { assert rows'[|b.rows|].trace == trace; }
    }
  }

  /** Over every run, the status column and the recorded ids tell exactly which deductions took effect. */
  lemma {:induction false} StatusTellsCharges(b: Books, calls: seq<Call>)
    requires b.rows == []
    ensures StatusTells(Run(b, calls).rows, Recorded(b, calls))
  {
    if calls != [] {
      var before, last := calls[..|calls| - 1], calls[|calls| - 1];
      StatusTellsCharges(b, before);
      StatusStep(Run(b, before), last.op, last.today, Recorded(b, before));
      assert Recorded(b, calls) == RecordedNext(Run(b, before), last.op, Recorded(b, before));
    }
  }

  /**
   After any run, reversing a deduction gives back exactly what had been taken for it if and only
   if its status is COMMITTED and it was not merely recorded, or its amount is zero.
   */
  lemma ReversalUndoesIffCommitted(b: Books, calls: seq<Call>, original: Trace, trace: Trace, today: Day, i: nat)
    requires b.rows == []
    requires var r := Run(b, calls);
             && i < |r.rows| && r.rows[i].trace == original && r.rows[i].kind == Deduction
             && r.rows[i].status != Reversed && Find(r.rows, trace) == None
    ensures var r := Run(b, calls);
            var r', tx := Next(r, Reverse(original, trace), today).0, r.rows[i];
            && Balance(r'.quotas, tx.tenant) == Balance(r.quotas, tx.tenant) + tx.amount
            && (Balance(r'.quotas, tx.tenant) - Balance(r.quotas, tx.tenant) == Charge(tx) <==>
                  (tx.status == Committed && !RecordedIn(b, calls, original)) || tx.amount == 0.0)
  {
    var r := Run(b, calls);
    MoneyIsConserved(b, calls, r.rows[i].tenant);
    StatusTellsCharges(b, calls);
    assert Find(r.rows, original) == Some(i);
    LoadedKeepsBalance(r.quotas, r.rows[i].tenant, today);
  }

  /** A pending deduction that is reversed pays out its estimate, with nothing ever charged. */
  lemma PendingReversalMints(t: Tenant, e: real, today: Day)
    ensures var b := Books([], map[], {});
            var r := Run(b, [Call(CreatePending(t, 1, e), today), Call(Reverse(1, 2), today)]);
            Balance(b.quotas, t) == 0.0 && Balance(r.quotas, t) == e && Sum(r.rows, t, Charge) == 0.0
  {
    var b := Books([], map[], {});
    var create, reverse := Call(CreatePending(t, 1, e), today), Call(Reverse(1, 2), today);
    assert [create, reverse][..1] == [create] && [create][..0] == [];
    var tx := Tx(t, 1, Deduction, Pending, e, None, false);
    assert Run(b, [create]) == Books([tx], map[t := FRESH], {});
    ReverseOnlyRow(Books([tx], map[t := FRESH], {}), tx, today);
  }

  lemma ReverseOnlyRow(b: Books, tx: Tx, today: Day)
    requires b.rows == [tx] && tx.trace == 1 && tx.kind == Deduction && tx.status == Pending && !tx.charged && tx.tenant in b.quotas
    ensures var r := Next(b, Reverse(1, 2), today).0;
            Balance(r.quotas, tx.tenant) == Balance(b.quotas, tx.tenant) + tx.amount && Sum(r.rows, tx.tenant, Charge) == 0.0
  {
    assert [tx][..0] == [] && Find([tx], 1) == Some(0) && Find([tx], 2) == None;
    var r := Next(b, Reverse(1, 2), today).0;
    LoadedKeepsBalance(b.quotas, tx.tenant, today);
    NothingCharged(r.rows, tx.tenant);
  }

  lemma {:induction false} NothingCharged(rows: seq<Tx>, t: Tenant)
    requires forall i :: 0 <= i < |rows| ==> !rows[i].charged
    ensures Sum(rows, t, Charge) == 0.0
  {
    if rows != [] { NothingCharged(rows[..|rows| - 1], t); }
  }

  // ---- which runs mint money ----

  /** The call reverses a deduction that was never charged and is not zero. */
  ghost predicate ReversesUncharged(b: Books, op: Op, recorded: iset<Trace>) {
    && op.Reverse? && Find(b.rows, op.original).Some? && Find(b.rows, op.trace).None?
    && var tx := b.rows[Find(b.rows, op.original).value];
       tx.kind == Deduction && tx.amount != 0.0 && (tx.status == Pending || (tx.status == Committed && tx.trace in recorded))
  }

  ghost predicate SomeUnchargedReversal(b: Books, calls: seq<Call>) {
    calls != [] &&
    var before := calls[..|calls| - 1];
    || SomeUnchargedReversal(b, before)
    || ReversesUncharged(Run(b, before), calls[|calls| - 1].op, Recorded(b, before))
  }

  ghost predicate SomeMinted(rows: seq<Tx>) {
    exists i :: 0 <= i < |rows| && Minted(rows[i]) != 0.0
  }

  lemma MintedKept(rows: seq<Tx>, rows': seq<Tx>)
    requires SomeMinted(rows) && |rows| <= |rows'| && forall i :: 0 <= i < |rows| ==> Later(rows[i], rows'[i])
    ensures SomeMinted(rows')
  {
    var i :| 0 <= i < |rows| && Minted(rows[i]) != 0.0;
    assert rows'[i] == rows[i];
  }

  lemma MintedStep(b: Books, op: Op, today: int, recorded: iset<Trace>)
    requires today >= 1 && StatusTells(b.rows, recorded)
    ensures SomeMinted(Next(b, op, today).0.rows) <==> SomeMinted(b.rows) || ReversesUncharged(b, op, recorded)
  {
    var rows' := Next(b, op, today).0.rows;
    StepLater(b, op, today);
    if SomeMinted(b.rows) {
      MintedKept(b.rows, rows');
    } else if op.Reverse? && rows' != b.rows {
      var c := Find(b.rows, op.original).value;
      assert Minted(rows'[c]) != 0.0 <==> ReversesUncharged(b, op, recorded);
      assert forall i :: 0 <= i < |b.rows| && i != c ==> rows'[i] == b.rows[i];
    }
  }

  /** A run pays out money that was never taken exactly when one of its calls reverses a row that is pending, or merely recorded. */
  lemma {:induction false} MintsIffReversesUncharged(b: Books, calls: seq<Call>)
    requires b.rows == []
    ensures SomeMinted(Run(b, calls).rows) <==> SomeUnchargedReversal(b, calls)
  {
    if calls != [] {
      var before, last := calls[..|calls| - 1], calls[|calls| - 1];
      MintsIffReversesUncharged(b, before);
      StatusTellsCharges(b, before);
      MintedStep(Run(b, before), last.op, last.today, Recorded(b, before));
    }
  }

  /** A deduction that is COMMITTED and was taken from this balance. */
  ghost function Standing(tx: Tx, recorded: iset<Trace>): real {
    if tx.kind == Deduction && tx.status == Committed && tx.trace !in recorded then tx.amount else 0.0
  }

  ghost function TotalStanding(rows: seq<Tx>, t: Tenant, recorded: iset<Trace>): real {
    if rows == [] then 0.0
    else TotalStanding(rows[..|rows| - 1], t, recorded)
         + (if rows[|rows| - 1].tenant == t then Standing(rows[|rows| - 1], recorded) else 0.0)
  }

  lemma {:induction false} StandingIsKept(rows: seq<Tx>, t: Tenant, recorded: iset<Trace>)
    requires Shaped(rows) && !SomeMinted(rows)
    requires forall i :: 0 <= i < |rows| ==> StatusTellsRow(rows[i], recorded)
    ensures Sum(rows, t, Minted) == 0.0 && Sum(rows, t, Kept) == TotalStanding(rows, t, recorded)
  {
    if rows != [] {
      assert RowShape(rows[|rows| - 1]) && Minted(rows[|rows| - 1]) == 0.0 && StatusTellsRow(rows[|rows| - 1], recorded);
      StandingIsKept(rows[..|rows| - 1], t, recorded);
    }
  }

  /** Any other run is explained by its table: balance = opening + recharges - the COMMITTED deductions taken here. */
  lemma CarefulRunMintsNothing(b: Books, calls: seq<Call>, t: Tenant)
    requires b.rows == []
    ensures !SomeUnchargedReversal(b, calls) ==>
              var r := Run(b, calls);
              Balance(r.quotas, t) == Balance(b.quotas, t) + Sum(r.rows, t, ToppedUp) - TotalStanding(r.rows, t, Recorded(b, calls))
  {
    if !SomeUnchargedReversal(b, calls) {
      MoneyIsConserved(b, calls, t);
      MintedExactly(b, calls, t);
      MintsIffReversesUncharged(b, calls);
      StatusTellsCharges(b, calls);
      StandingIsKept(Run(b, calls).rows, t, Recorded(b, calls));
    }
  }

  function Rank(s: Status): nat {
    match s case Pending => 0 case Committed => 1 case Reversed => 2
  }

  /** What later calls can still change in a row: its status moves forward only, and only a pending amount moves. */
  ghost predicate Later(a: Tx, b: Tx) {
    && a.tenant == b.tenant && a.trace == b.trace && a.kind == b.kind
    && Rank(a.status) <= Rank(b.status)
    && (a.status != Pending ==> a.amount == b.amount && a.charged == b.charged)
    && (a.status == Reversed ==> a == b)
  }

  lemma StepLater(b: Books, op: Op, today: int)
    requires today >= 1
    ensures var rows' := Next(b, op, today).0.rows;
            |b.rows| <= |rows'| && forall i :: 0 <= i < |b.rows| ==> Later(b.rows[i], rows'[i])
  {
    var rows' := Next(b, op, today).0.rows;
    StepShapes(b, op, today);
    if i :| RowCommitted(b.rows, rows', i) {
    } else if rows' != b.rows {
      assert forall k :: 0 <= k < |b.rows| ==> rows'[k] == rows'[..|b.rows|][k];
    }
  }

  /** Rows are never removed, and statuses only move from pending to committed to reversed. */
  lemma {:induction false} StatusesMoveForward(b: Books, calls: seq<Call>)
    ensures |b.rows| <= |Run(b, calls).rows|
    ensures forall i :: 0 <= i < |b.rows| ==> Later(b.rows[i], Run(b, calls).rows[i])
  {
    if calls != [] {
      StatusesMoveForward(b, calls[..|calls| - 1]);
      StepLater(Run(b, calls[..|calls| - 1]), calls[|calls| - 1].op, calls[|calls| - 1].today);
    }
  }

  // ---- a trace id moves money once ----

  /** The call changes the balance of some tenant. */
  ghost predicate MovesMoney(b: Books, op: Op, today: int)
    requires today >= 1
  {
    exists t :: Balance(Next(b, op, today).0.quotas, t) != Balance(b.quotas, t)
  }

  /** How many calls of the run carry this id as their own and move money. */
  ghost function Moves(b: Books, calls: seq<Call>, trace: Trace): nat {
    if calls == [] then 0
    else
      var before, last := calls[..|calls| - 1], calls[|calls| - 1];
      Moves(b, before, trace) + if last.op.trace == trace && MovesMoney(Run(b, before), last.op, last.today) then 1 else 0
  }

  /** The id has a row that is past its pending state. */
  ghost predicate Settled(rows: seq<Tx>, trace: Trace) {
    exists i :: 0 <= i < |rows| && rows[i].trace == trace && rows[i].status != Pending
  }

  lemma SettledKept(rows: seq<Tx>, rows': seq<Tx>, trace: Trace)
    requires Settled(rows, trace) && |rows| <= |rows'| && forall i :: 0 <= i < |rows| ==> Later(rows[i], rows'[i])
    ensures Settled(rows', trace)
  {
    var i :| 0 <= i < |rows| && rows[i].trace == trace && rows[i].status != Pending;
    assert Later(rows[i], rows'[i]);
  }

  /** A call moves money only under an id that is not settled, and settles it. */
  lemma MoveSettles(b: Books, op: Op, today: int)
    requires today >= 1 && Unique(b.rows) && MovesMoney(b, op, today)
    ensures !Settled(b.rows, op.trace) && Settled(Next(b, op, today).0.rows, op.trace)
  {
    var (b', _) := Next(b, op, today);
    var t :| Balance(b'.quotas, t) != Balance(b.quotas, t);
    LoadedKeepsBalance(b.quotas, t, today);
    match Find(b.rows, op.trace)
    case Some(i) => assert b'.rows[i].trace == op.trace;
    case None => assert b'.rows[|b.rows|].trace == op.trace;
  }

  /** In every run at most one call that carries a given trace id moves money, commits and reversals included, whatever keys expired. */
  lemma {:induction false} TraceActsOnce(b: Books, calls: seq<Call>, trace: Trace)
    requires Wellformed(b)
    ensures Wellformed(Run(b, calls)) && Moves(b, calls, trace) <= 1
    ensures Moves(b, calls, trace) == 1 ==> !Settled(b.rows, trace) && Settled(Run(b, calls).rows, trace)
    ensures Settled(b.rows, trace) ==> Settled(Run(b, calls).rows, trace)
  {
    if calls != [] {
      var before, last := Run(b, calls[..|calls| - 1]), calls[|calls| - 1];
      TraceActsOnce(b, calls[..|calls| - 1], trace);
      StepStaysWellformed(before, last.op, last.today);
      StepLater(before, last.op, last.today);
      if Settled(before.rows, trace) { SettledKept(before.rows, Run(b, calls).rows, trace); }
      if last.op.trace == trace && MovesMoney(before, last.op, last.today) { MoveSettles(before, last.op, last.today); }
    }
  }

  // ---- the repository object ----

  class BillingRepository {
    var rows: seq<Tx>
    var quotas: map<Tenant, Row>
    var keys: set<(Tenant, Trace)>

    ghost function Contents(): Books reads this { Books(rows, quotas, keys) }

    method CreatePendingCall(t: Tenant, trace: Trace, estimate: real, today: Day) returns (r: Result<Tx, BillingError>)
      modifies this
      ensures (Contents(), r) == Next(old(Contents()), CreatePending(t, trace, estimate), today)
    {
      var found := Find(rows, trace);
      if found.Some? { return Ok(rows[found.value]); }
      quotas := quotas[t := Loaded(quotas, t, today)];
      rows := rows + [Tx(t, trace, Deduction, Pending, estimate, None, false)];
      return Ok(rows[|rows| - 1]);
    }

    method RecordCall(t: Tenant, trace: Trace, amount: real, today: Day) returns (r: Result<Tx, BillingError>)
      modifies this
      ensures (Contents(), r) == Next(old(Contents()), Record(t, trace, amount), today)
    {
      var found := Find(rows, trace);
      if found.Some? {
        if rows[found.value].status == Committed { return Ok(rows[found.value]); }
        return Err(Duplicate);
      }
      quotas := quotas[t := Loaded(quotas, t, today)];
      rows := rows + [Tx(t, trace, Deduction, Committed, amount, None, false)];
      return Ok(rows[|rows| - 1]);
    }

    method DeductCall(t: Tenant, trace: Trace, amount: real, allowNegative: bool, redis: bool, today: Day)
      returns (r: Result<Tx, BillingError>)
      modifies this
      ensures (Contents(), r) == Next(old(Contents()), Deduct(t, trace, amount, allowNegative, redis), today)
    {
      var locked := false;
      if redis && (t, trace) !in keys {
        keys := keys + {(t, trace)};
        locked := true;
      }
      var found := Find(rows, trace);
      if !locked || found.Some? {
        if found.Some? && rows[found.value].status == Committed { return Ok(rows[found.value]); }
        return Err(Duplicate);
      }
      var view := Loaded(quotas, t, today);
      var shortage := Check(view, Request(amount, 1, 1, 0, allowNegative));
      if shortage.Some? {
        keys := keys - {(t, trace)};
        assert keys == old(keys);
        return Err(InsufficientBalance);
      }
      var tx := Tx(t, trace, Deduction, Pending, amount, None, false);
      quotas := quotas[t := Deducted(view, Request(amount, 1, 1, 0, allowNegative))];
      tx := tx.(status := Committed, charged := true);
      rows := rows + [tx];
      return Ok(tx);
    }

    method CommitPendingCall(trace: Trace, cost: real, allowNegative: bool, today: Day) returns (r: Result<Tx, BillingError>)
      modifies this
      ensures (Contents(), r) == Next(old(Contents()), CommitPending(trace, cost, allowNegative), today)
    {
      var found := Find(rows, trace);
      if found.None? { return Err(NotFound); }
      var tx := rows[found.value];
      if tx.status == Committed { return Ok(tx); }
      if tx.status != Pending { return Err(InvalidStatus); }
      var req := Request(cost, 1, 1, 0, allowNegative);
      var view := Loaded(quotas, tx.tenant, today);
      if Check(view, req).Some? { return Err(NoFailedStatus); }
      quotas := quotas[tx.tenant := Deducted(view, req)];
      tx := tx.(amount := cost);
      tx := tx.(status := Committed, charged := true);
      rows := rows[found.value := tx];
      return Ok(tx);
    }

    method RechargeCall(t: Tenant, trace: Trace, amount: real, today: Day) returns (r: Result<Tx, BillingError>)
      modifies this
      ensures (Contents(), r) == Next(old(Contents()), Recharge(t, trace, amount), today)
    {
      var found := Find(rows, trace);
      if found.Some? {
        if rows[found.value].status == Committed { return Ok(rows[found.value]); }
        return Err(Duplicate);
      }
      var row := Loaded(quotas, t, today);
      rows := rows + [Tx(t, trace, Payment, Pending, amount, None, false)];
      quotas := quotas[t := Credited(row, amount)];
      var tx := rows[|rows| - 1].(status := Committed);
      rows := rows[|rows| - 1 := tx];
      assert rows == old(rows) + [tx];
      return Ok(tx);
    }

    method ReverseCall(original: Trace, trace: Trace, today: Day) returns (r: Result<Tx, BillingError>)
      modifies this
      ensures (Contents(), r) == Next(old(Contents()), Reverse(original, trace), today)
    {
      var found := Find(rows, original);
      if found.None? { return Err(NotFound); }
      var tx := rows[found.value];
      if tx.status == Reversed { return Err(AlreadyReversed); }
      if tx.kind != Deduction { return Err(NotADeduction); }
      var taken := Find(rows, trace);
      if taken.Some? {
        if rows[taken.value].status == Committed { return Ok(rows[taken.value]); }
        return Err(Duplicate);
      }
      var row := Loaded(quotas, tx.tenant, today);
      rows := rows + [Tx(tx.tenant, trace, Refund, Pending, tx.amount, None, false)];
      quotas := quotas[tx.tenant := Credited(row, tx.amount)];
      rows := rows[found.value := tx.(status := Reversed, reversedBy := Some(trace))];
      var refund := rows[|rows| - 1].(status := Committed);
      rows := rows[|rows| - 1 := refund];
      assert rows == old(rows)[found.value := tx.(status := Reversed, reversedBy := Some(trace))] + [refund];
      return Ok(refund);
    }
  }
}
