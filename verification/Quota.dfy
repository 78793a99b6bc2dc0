/**
 The tenant quota row and the operations of `QuotaRepository` on it.

 Days are calendar ordinals; money is exact.  The operations are pure functions of
 rows, used by the ledger and by the concurrent model, and the class below performs
 them on the stored table.
 */
module Quota {
  import opened Common
  import Calendar

  type Tenant = nat

  datatype Row = Row(
    balance: real, creditLimit: real,
    dailyQuota: int, dailyUsed: int, dailyResetAt: Option<int>,
    monthlyQuota: int, monthlyUsed: int, monthlyResetAt: Option<int>,
    tokenQuota: int, tokenUsed: int, version: int)

  /** What one call of `check_and_deduct` asks for. */
  datatype Request = Request(amount: real, daily: int, monthly: int, tokens: int, allowNegative: bool)

  datatype Kind = Balance | DailyRequests | MonthlyRequests | Tokens

  /** `InsufficientQuotaError`. */
  datatype Shortage = Shortage(kind: Kind, required: real, available: real)

  /** What `check_and_deduct` raises; the violation comes from the unique tenant id when two sessions create the row. */
  datatype DeductError = Short(shortage: Shortage) | UniqueViolation

  /** `update_limits`: an absent value keeps the stored one. */
  datatype Limits = Limits(daily: Option<int>, monthly: Option<int>, token: Option<int>, credit: Option<real>)

  const FRESH := Row(0.0, 0.0, 10000, 0, None, 300000, 0, None, 0, 0, 1)

  function Or<T>(o: Option<T>, default: T): T {
    match o case Some(v) => v case None => default
  }

  predicate DailyStale(r: Row, today: int) {
    r.dailyResetAt.None? || r.dailyResetAt.value < today
  }

  predicate MonthlyStale(r: Row, today: int)
    requires today >= 1
  {
    r.monthlyResetAt.None? || r.monthlyResetAt.value < Calendar.FirstOfMonth(today)
  }

  /** The unconditional write that a reset issues for the periods it found stale. */
  function ResetWrite(r: Row, daily: bool, monthly: bool, today: int): Row
    requires today >= 1
  {
    var d := if daily then r.(dailyUsed := 0, dailyResetAt := Some(today)) else r;
    if monthly then d.(monthlyUsed := 0, monthlyResetAt := Some(Calendar.FirstOfMonth(today))) else d
  }

  /** The row after `_maybe_reset_quotas`. */
  function Reset(r: Row, today: int): Row
    requires today >= 1
  {
    ResetWrite(r, DailyStale(r, today), MonthlyStale(r, today), today)
  }

  /** The row that `get_or_create` hands out: a new row is not reset. */
  function Loaded(rows: map<Tenant, Row>, tenant: Tenant, today: int): Row
    requires today >= 1
  {
    if tenant in rows then Reset(rows[tenant], today) else FRESH
  }

  /** The checks of `check_and_deduct`, in order. */
  function Check(r: Row, req: Request): Option<Shortage> {
    if req.amount > 0.0 && !req.allowNegative && r.balance + r.creditLimit < req.amount then
      Some(Shortage(Balance, req.amount, r.balance + r.creditLimit))
    else if req.daily > 0 && r.dailyQuota - r.dailyUsed < req.daily then
      Some(Shortage(DailyRequests, req.daily as real, (r.dailyQuota - r.dailyUsed) as real))
    else if req.monthly > 0 && r.monthlyQuota - r.monthlyUsed < req.monthly then
      Some(Shortage(MonthlyRequests, req.monthly as real, (r.monthlyQuota - r.monthlyUsed) as real))
    else if req.tokens > 0 && r.tokenQuota > 0 && r.tokenQuota - r.tokenUsed < req.tokens then
      Some(Shortage(Tokens, req.tokens as real, (r.tokenQuota - r.tokenUsed) as real))
    else None
  }

  /** The SET clause of the compare-and-swap. */
  function Deducted(r: Row, req: Request): Row {
    r.(balance := r.balance - req.amount, dailyUsed := r.dailyUsed + req.daily,
       monthlyUsed := r.monthlyUsed + req.monthly, tokenUsed := r.tokenUsed + req.tokens, version := r.version + 1)
  }

  function Credited(r: Row, amount: real): Row {
    r.(balance := r.balance + amount, version := r.version + 1)
  }

  function WithLimits(r: Row, l: Limits): Row {
    r.(dailyQuota := Or(l.daily, r.dailyQuota), monthlyQuota := Or(l.monthly, r.monthlyQuota),
       tokenQuota := Or(l.token, r.tokenQuota), creditLimit := Or(l.credit, r.creditLimit))
  }

  /** `check_and_deduct` when nobody interferes. */
  function TryDeduct(rows: map<Tenant, Row>, tenant: Tenant, req: Request, today: int): Result<Row, Shortage>
    requires today >= 1
  {
    var view := Loaded(rows, tenant, today);
    match Check(view, req)
    case Some(e) => Err(e)
    case None => Ok(Deducted(view, req))
  }

  /** `check_and_deduct` for a tenant without a row, when another session may insert one first. */
  function Created(rows: map<Tenant, Row>, tenant: Tenant, req: Request, rival: Option<Row>)
    : (map<Tenant, Row>, Result<Row, DeductError>)
  {
    match rival
    case Some(row) => (rows[tenant := row], Err(UniqueViolation))
    case None =>
      match Check(FRESH, req)
      case Some(e) => (rows, Err(Short(e)))
      case None => (rows[tenant := Deducted(FRESH, req)], Ok(Deducted(FRESH, req)))
  }

  /** Without a rival it does what `TryDeduct` says. */
  lemma CreatedAlone(rows: map<Tenant, Row>, tenant: Tenant, req: Request, today: int)
    requires today >= 1 && tenant !in rows
    ensures Created(rows, tenant, req, None).1 ==
            match TryDeduct(rows, tenant, req, today) case Ok(row) => Ok(row) case Err(e) => Err(Short(e))
  {
  }

  // ---- the bounds that a quota row is meant to respect ----

  ghost predicate BalanceCovered(r: Row) { r.balance + r.creditLimit >= 0.0 }

  ghost predicate UsageCovered(r: Row) {
    && 0 <= r.dailyUsed <= r.dailyQuota
    && 0 <= r.monthlyUsed <= r.monthlyQuota
    && (r.tokenQuota > 0 ==> r.tokenUsed <= r.tokenQuota)
  }

  ghost predicate NonNegative(req: Request) {
    req.amount >= 0.0 && req.daily >= 0 && req.monthly >= 0 && req.tokens >= 0
  }

  /** On a row within its bounds, a request is accepted exactly when the row stays within them. */
  lemma AcceptedIffCovered(r: Row, req: Request)
    requires NonNegative(req) && (req.allowNegative || BalanceCovered(r)) && UsageCovered(r)
    ensures Check(r, req) == None <==>
            (req.allowNegative || BalanceCovered(Deducted(r, req))) && UsageCovered(Deducted(r, req))
  {
  }

  /** A refusal names the first bound in the order balance, day, month, tokens that the request does not fit into, and what was left of it. */
  lemma RefusalExplains(r: Row, req: Request)
    requires Check(r, req).Some?
    ensures var e := Check(r, req).value;
            var money := req.allowNegative || req.amount <= 0.0 || req.amount <= r.balance + r.creditLimit;
            var daily := req.daily <= 0 || r.dailyUsed + req.daily <= r.dailyQuota;
            var monthly := req.monthly <= 0 || r.monthlyUsed + req.monthly <= r.monthlyQuota;
            && e.available < e.required
            && (!money ==> e == Shortage(Balance, req.amount, r.balance + r.creditLimit))
            && (money && !daily ==> e == Shortage(DailyRequests, req.daily as real, (r.dailyQuota - r.dailyUsed) as real))
            && (money && daily && !monthly ==> e == Shortage(MonthlyRequests, req.monthly as real, (r.monthlyQuota - r.monthlyUsed) as real))
            && (money && daily && monthly ==> e == Shortage(Tokens, req.tokens as real, (r.tokenQuota - r.tokenUsed) as real))
  {
  }

  /** What the first request of a tenant is granted: no money beyond the permission to go negative, and the default quotas. */
  ghost predicate FirstGranted(req: Request) {
    (req.amount <= 0.0 || req.allowNegative) && req.daily <= 10000 && req.monthly <= 300000
  }

  /**
   The first request of a tenant, when nobody interferes.  A granted one leaves a row with the
   negated amount, no credit, the default quotas, the requested counters and version 2; a refused
   one leaves nothing and names what was missing.
   */
  lemma FirstRequest(rows: map<Tenant, Row>, tenant: Tenant, req: Request)
    ensures var (rows', r) := Created(rows, tenant, req, None);
            && (r.Ok? <==> FirstGranted(req))
            && (FirstGranted(req) ==>
                  && r == Ok(Row(-req.amount, 0.0, 10000, req.daily, None, 300000, req.monthly, None, 0, req.tokens, 2))
                  && rows' == rows[tenant := r.value])
            && (!FirstGranted(req) ==>
                  && rows' == rows
                  && r == Err(Short(
                       if req.amount > 0.0 && !req.allowNegative then Shortage(Balance, req.amount, 0.0)
                       else if req.daily > 10000 then Shortage(DailyRequests, req.daily as real, 10000.0)
                       else Shortage(MonthlyRequests, req.monthly as real, 300000.0))))
  {
  }

  /** A tenant without a row is loaded as an empty account with the default quotas. */
  lemma NewRowIsEmpty(rows: map<Tenant, Row>, tenant: Tenant, today: int)
    requires today >= 1 && tenant !in rows
    ensures Loaded(rows, tenant, today) == Row(0.0, 0.0, 10000, 0, None, 300000, 0, None, 0, 0, 1)
  {
  }

  /** Each limit that is given replaces its own column, and nothing else of the row changes. */
  lemma LimitsReplaceTheirColumn(r: Row, d: int, m: int, k: int, c: real)
    ensures WithLimits(r, Limits(None, None, None, None)) == r
    ensures WithLimits(r, Limits(Some(d), None, None, None)) == r.(dailyQuota := d)
    ensures WithLimits(r, Limits(None, Some(m), None, None)) == r.(monthlyQuota := m)
    ensures WithLimits(r, Limits(None, None, Some(k), None)) == r.(tokenQuota := k)
    ensures WithLimits(r, Limits(None, None, None, Some(c))) == r.(creditLimit := c)
  {
  }

  /** Several limits given together do what they do one after another. */
  lemma LimitsCompose(r: Row, l: Limits)
    ensures var a := WithLimits(r, Limits(l.daily, None, None, None));
            var b := WithLimits(a, Limits(None, l.monthly, None, None));
            var c := WithLimits(b, Limits(None, None, l.token, None));
            WithLimits(r, l) == WithLimits(c, Limits(None, None, None, l.credit))
  {
  }

  /** A reset dates the day by today and the month by its first day, and keeps a date that is not stale. */
  lemma ResetDates(r: Row, today: int)
    requires today >= 1
    ensures Reset(r, today).dailyResetAt == if DailyStale(r, today) then Some(today) else r.dailyResetAt
    ensures Reset(r, today).monthlyResetAt == if MonthlyStale(r, today) then Some(Calendar.FirstOfMonth(today)) else r.monthlyResetAt
  {
  }

  /** A reset clears exactly the stale counters, is absorbed by a second one, and never touches money, limits, tokens or the version. */
  lemma ResetClearsStale(r: Row, today: int)
    requires today >= 1
    ensures var n := Reset(r, today);
            && (DailyStale(r, today) ==> n.dailyUsed == 0) && (!DailyStale(r, today) ==> n.dailyUsed == r.dailyUsed)
            && (MonthlyStale(r, today) ==> n.monthlyUsed == 0) && (!MonthlyStale(r, today) ==> n.monthlyUsed == r.monthlyUsed)
            && !DailyStale(n, today) && !MonthlyStale(n, today) && Reset(n, today) == n
            && n.(dailyUsed := r.dailyUsed, dailyResetAt := r.dailyResetAt,
                  monthlyUsed := r.monthlyUsed, monthlyResetAt := r.monthlyResetAt) == r
  {
  }

  /** A row created by the very deduction that uses it keeps no reset date, so the next call forgets that usage. */
  lemma FirstUsageForgotten(tenant: Tenant, req: Request, today: int)
    requires today >= 1 && Check(FRESH, req) == None
    ensures TryDeduct(map[], tenant, req, today) == Ok(Deducted(FRESH, req))
    ensures Loaded(map[tenant := Deducted(FRESH, req)], tenant, today).dailyUsed == 0
    ensures Loaded(map[tenant := Deducted(FRESH, req)], tenant, today).monthlyUsed == 0
  {
  }

  /** The next call of the same day still sees the usage exactly when the row existed before, or there was none to see. */
  lemma UsageKeptIff(rows: map<Tenant, Row>, tenant: Tenant, req: Request, today: int)
    requires today >= 1 && TryDeduct(rows, tenant, req, today).Ok?
    ensures var row := TryDeduct(rows, tenant, req, today).value;
            var next := Loaded(rows[tenant := row], tenant, today);
            && (next.dailyUsed == row.dailyUsed <==> tenant in rows || req.daily == 0)
            && (next.monthlyUsed == row.monthlyUsed <==> tenant in rows || req.monthly == 0)
  {
    if tenant in rows { ResetClearsStale(rows[tenant], today); }
  }

  // ---- the repository object ----

  /** A durable write of another session that lands between a read and the compare-and-swap. */
  datatype Write = TopUp(amount: real) | ResetBy(daily: bool, monthly: bool, today: int) | Relimit(limits: Limits) | Spend(req: Request)

  function Applied(r: Row, w: Write): Row {
    match w
    case TopUp(a) => Credited(r, a)
    case ResetBy(d, m, today) => if today >= 1 then ResetWrite(r, d, m, today) else r
    case Relimit(l) => WithLimits(r, l)
    case Spend(req) => Deducted(r, req)
  }

  function AppliedAll(r: Row, ws: seq<Write>): Row {
    if ws == [] then r else Applied(AppliedAll(r, ws[..|ws| - 1]), ws[|ws| - 1])
  }

  predicate BumpsVersion(w: Write) { w.TopUp? || w.Spend? }

  function Bumps(ws: seq<Write>): nat {
    if ws == [] then 0 else Bumps(ws[..|ws| - 1]) + if BumpsVersion(ws[|ws| - 1]) then 1 else 0
  }

  /** What the writes of `ws` add to the balance. */
  function Inflow(ws: seq<Write>): real {
    if ws == [] then 0.0
    else Inflow(ws[..|ws| - 1]) + match ws[|ws| - 1] case TopUp(a) => a case Spend(req) => -req.amount case _ => 0.0
  }

  lemma {:induction false} WritesAddUp(r: Row, ws: seq<Write>)
    ensures AppliedAll(r, ws).version == r.version + Bumps(ws)
    ensures AppliedAll(r, ws).balance == r.balance + Inflow(ws)
  {
    if ws != [] { WritesAddUp(r, ws[..|ws| - 1]); }
  }

  /** The row after the given rounds of interference. */
  function AfterRounds(r: Row, rounds: seq<seq<Write>>): Row
    decreases |rounds|
  {
    if rounds == [] then r else AfterRounds(AppliedAll(r, rounds[0]), rounds[1..])
  }

  function TotalBumps(rounds: seq<seq<Write>>): nat {
    if rounds == [] then 0 else Bumps(rounds[0]) + TotalBumps(rounds[1..])
  }

  function TotalInflow(rounds: seq<seq<Write>>): real {
    if rounds == [] then 0.0 else Inflow(rounds[0]) + TotalInflow(rounds[1..])
  }

  /** Interference adds up: no top-up or deduction of the other sessions is lost. */
  lemma {:induction false} RoundsAddUp(r: Row, rounds: seq<seq<Write>>)
    ensures AfterRounds(r, rounds).version == r.version + TotalBumps(rounds)
    ensures AfterRounds(r, rounds).balance == r.balance + TotalInflow(rounds)
    decreases |rounds|
  {
    if rounds != [] {
      WritesAddUp(r, rounds[0]);
      RoundsAddUp(AppliedAll(r, rounds[0]), rounds[1..]);
    }
  }

  /** How many rounds of interference have happened when the given attempt lands. */
  ghost function Landed(attempts: nat, others: seq<seq<Write>>): nat {
    if attempts < |others| then attempts else |others|
  }

  /**
   What a sequence of attempts on row `r` leaves.  The last attempt read the row as the earlier
   rounds left it; it was refused on that row, or it found the version unchanged by the round
   that followed and deducted from the row as that round left it.
   */
  ghost predicate Outcome(r: Row, req: Request, today: int, others: seq<seq<Write>>,
                          result: Result<Row, DeductError>, attempts: nat, stored: Row)
    requires today >= 1 && 1 <= attempts <= 1 + |others|
  {
    var read := AfterRounds(r, others[..attempts - 1]);
    var met := AfterRounds(r, others[..Landed(attempts, others)]);
    match result
    case Err(e) => e.Short? && stored == read && Check(Reset(read, today), req) == Some(e.shortage)
    case Ok(row) =>
      && stored == row && met.version == read.version && Check(Reset(read, today), req) == None
      && row == Deducted(ResetWrite(met, DailyStale(read, today), MonthlyStale(read, today), today), req)
  }

  /** However many attempts it took, the deduction lands on top of everything the others wrote. */
  lemma NothingOverwritten(r: Row, req: Request, today: int, others: seq<seq<Write>>, row: Row, attempts: nat)
    requires today >= 1 && 1 <= attempts <= 1 + |others| && Outcome(r, req, today, others, Ok(row), attempts, row)
    ensures var met := others[..Landed(attempts, others)];
            row.balance == r.balance + TotalInflow(met) - req.amount && row.version == r.version + TotalBumps(met) + 1
  {
    RoundsAddUp(r, others[..Landed(attempts, others)]);
  }

  ghost predicate OthersKept(a: map<Tenant, Row>, b: map<Tenant, Row>, tenant: Tenant) {
    forall t :: t != tenant ==> (t in a <==> t in b) && (t in a ==> a[t] == b[t])
  }

  class QuotaRepository {
    var rows: map<Tenant, Row>

    constructor ()
      ensures rows == map[]
    {
      rows := map[];
    }

    /** `get_or_create` with `commit=True`: creates the row or resets its stale counters. */
    method GetOrCreate(tenant: Tenant, today: int) returns (row: Row)
      requires today >= 1
      modifies this
      ensures row == Loaded(old(rows), tenant, today)
      ensures tenant !in old(rows) ==> row == Row(0.0, 0.0, 10000, 0, None, 300000, 0, None, 0, 0, 1)
      ensures rows == old(rows)[tenant := row]
    {
      if tenant in rows {
        row := rows[tenant];
        if row.dailyResetAt.None? || row.dailyResetAt.value < today {
          row := row.(dailyUsed := 0, dailyResetAt := Some(today));
        }
        var first := Calendar.FirstOfMonth(today);
        if row.monthlyResetAt.None? || row.monthlyResetAt.value < first {
          row := row.(monthlyUsed := 0, monthlyResetAt := Some(first));
        }
      } else {
        row := FRESH;
      }
      rows := rows[tenant := row];
    }

    method AddBalance(tenant: Tenant, amount: real, today: int) returns (row: Row)
      requires today >= 1
      modifies this
      ensures row == Credited(Loaded(old(rows), tenant, today), amount)
      ensures rows == old(rows)[tenant := row]
    {
      row := GetOrCreate(tenant, today);
      row := row.(balance := row.balance + amount, version := row.version + 1);
      rows := rows[tenant := row];
    }

    method UpdateLimits(tenant: Tenant, limits: Limits, today: int) returns (row: Row)
      requires today >= 1
      modifies this
      ensures row == WithLimits(Loaded(old(rows), tenant, today), limits)
      ensures rows == old(rows)[tenant := row]
    {
      row := GetOrCreate(tenant, today);
      if limits.daily.Some? { row := row.(dailyQuota := limits.daily.value); }
      if limits.monthly.Some? { row := row.(monthlyQuota := limits.monthly.value); }
      if limits.token.Some? { row := row.(tokenQuota := limits.token.value); }
      if limits.credit.Some? { row := row.(creditLimit := limits.credit.value); }
      rows := rows[tenant := row];
    }

    /**
     `check_and_deduct`.  `others[k]` is what other sessions commit between the read and the
     compare-and-swap of attempt `k`.  For a tenant without a row, `rival` is the row that another
     session inserts before this one does: the flush then raises.  A row that this call creates
     is not visible to others before it is committed.
     */
    method CheckAndDeduct(tenant: Tenant, req: Request, today: int, others: seq<seq<Write>>, rival: Option<Row>)
      returns (r: Result<Row, DeductError>, attempts: nat)
      requires today >= 1
      modifies this
      ensures 1 <= attempts <= 1 + |others| && attempts <= 1 + TotalBumps(others[..attempts - 1])
      ensures OthersKept(old(rows), rows, tenant)
      ensures tenant in old(rows) ==> tenant in rows && Outcome(old(rows)[tenant], req, today, others, r, attempts, rows[tenant])
      ensures tenant !in old(rows) ==> (rows, r) == Created(old(rows), tenant, req, rival)
    {
      if tenant in rows {
        r, attempts := Attempt(tenant, req, today, others);
        return;
      }
      attempts := 1;
      r := Create(tenant, req, rival);
    }

    /** The call for a tenant without a row. */
    method Create(tenant: Tenant, req: Request, rival: Option<Row>) returns (r: Result<Row, DeductError>)
      requires tenant !in rows
      modifies this
      ensures (rows, r) == Created(old(rows), tenant, req, rival) && OthersKept(old(rows), rows, tenant)
    {
      if rival.Some? {
        rows := rows[tenant := rival.value];
        return Err(UniqueViolation);
      }
      var shortage := Check(FRESH, req);
      if shortage.Some? { return Err(Short(shortage.value)); }
      var row := Deducted(FRESH, req);
      rows := rows[tenant := row];
      return Ok(row);
    }

    /** One attempt on an existing row; a lost race rolls back and tries again, each time paid for by somebody else's version bump. */
    method Attempt(tenant: Tenant, req: Request, today: int, others: seq<seq<Write>>)
      returns (r: Result<Row, DeductError>, attempts: nat)
      requires today >= 1 && tenant in rows
      modifies this
      ensures 1 <= attempts <= 1 + |others| && attempts <= 1 + TotalBumps(others[..attempts - 1])
      ensures tenant in rows && OthersKept(old(rows), rows, tenant)
      ensures Outcome(old(rows)[tenant], req, today, others, r, attempts, rows[tenant])
      decreases |others|
    {
      var stored := rows[tenant];
      var daily, monthly := DailyStale(stored, today), MonthlyStale(stored, today);
      var view := ResetWrite(stored, daily, monthly, today);
      var shortage := Check(view, req);
      if shortage.Some? {
        return Err(Short(shortage.value)), 1;
      }
      var current := stored;
      if others != [] {
        current := AppliedAll(stored, others[0]);
        rows := rows[tenant := current];
        WritesAddUp(stored, others[0]);
        assert others[..1] == [others[0]];
      }
      if current.version == view.version {
        var row := Deducted(ResetWrite(current, daily, monthly, today), req);
        rows := rows[tenant := row];
        return Ok(row), 1;
      }
      var again: nat;
      r, again := Attempt(tenant, req, today, others[1..]);
      attempts := again + 1;
      RoundsShift(stored, others, again - 1);
      OutcomeShift(stored, req, today, others, r, again, rows[tenant]);
    }
  }

  lemma RoundsShift(r: Row, others: seq<seq<Write>>, k: nat)
    requires others != [] && k < |others|
    ensures TotalBumps(others[..k + 1]) == Bumps(others[0]) + TotalBumps(others[1..][..k])
    ensures AfterRounds(r, others[..k + 1]) == AfterRounds(AppliedAll(r, others[0]), others[1..][..k])
  {
    assert others[..k + 1][1..] == others[1..][..k];
  }

  /** The outcome of the later attempts is the outcome of all of them. */
  lemma OutcomeShift(r: Row, req: Request, today: int, others: seq<seq<Write>>, result: Result<Row, DeductError>, again: nat, stored: Row)
    requires today >= 1 && others != [] && 1 <= again <= |others|
    requires Outcome(AppliedAll(r, others[0]), req, today, others[1..], result, again, stored)
    ensures Outcome(r, req, today, others, result, again + 1, stored)
  {
    RoundsShift(r, others, again - 1);
    RoundsShift(r, others, Landed(again, others[1..]));
  }
}
