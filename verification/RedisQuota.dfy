/**
 The Redis side of the quota: the hash that mirrors a row, the `quota_deduct` script
 that pre-deducts from it, and the settlement of `record_and_adjust`.
 */
module RedisQuota {
  import opened Common
  import opened Quota
  import Calendar
  import Costs

  datatype Hash = Hash(
    balance: real, creditLimit: real,
    dailyQuota: int, dailyUsed: int, dailyDate: int,
    monthlyQuota: int, monthlyUsed: int, month: (int, int), version: int)

  datatype ScriptError =
    | QuotaNotFound
    | InsufficientBalance(balance: real, creditLimit: real, amount: real)
    | DailyQuotaExceeded(quota: int, used: int)
    | MonthlyQuotaExceeded(quota: int, used: int)

  /** `_sync_redis_hash`: a row without reset dates is stamped with today's. */
  function Synced(r: Row, today: int): Hash
    requires today >= 1 && (r.monthlyResetAt.Some? ==> r.monthlyResetAt.value >= 1)
  {
    Hash(r.balance, r.creditLimit, r.dailyQuota, r.dailyUsed, Or(r.dailyResetAt, today),
         r.monthlyQuota, r.monthlyUsed, Calendar.MonthKey(Or(r.monthlyResetAt, today)), r.version)
  }

  /** What the script computes, as a function of the hash it finds. */
  function Script(h: Option<Hash>, amount: real, daily: int, monthly: int, today: int, month: (int, int), allowNegative: bool)
    : Result<Hash, ScriptError>
  {
    match h
    case None => Err(QuotaNotFound)
    case Some(q) =>
      if !allowNegative && q.balance + q.creditLimit < amount then
        Err(InsufficientBalance(q.balance, q.creditLimit, amount))
      else
        var dailyUsed := if q.dailyDate != today then 0 else q.dailyUsed;
        if dailyUsed + daily > q.dailyQuota then Err(DailyQuotaExceeded(q.dailyQuota, dailyUsed))
        else
          var monthlyUsed := if q.month != month then 0 else q.monthlyUsed;
          if monthlyUsed + monthly > q.monthlyQuota then Err(MonthlyQuotaExceeded(q.monthlyQuota, monthlyUsed))
          else
            Ok(q.(balance := q.balance - amount, dailyUsed := dailyUsed + daily, dailyDate := today,
                  monthlyUsed := monthlyUsed + monthly, month := month, version := q.version + 1))
  }

  /** The adjusting script of `adjust_redis_balance`. */
  function Adjusted(h: Hash, diff: real): Hash {
    if -Costs.MICRO < diff < Costs.MICRO then h
    else h.(balance := h.balance - diff, version := h.version + 1)
  }

  class QuotaHash {
    var hash: Option<Hash>

    /** `quota_deduct.lua`, field by field. */
    method EvalDeduct(amount: real, daily: int, monthly: int, today: int, month: (int, int), allowNegative: bool)
      returns (r: Result<Hash, ScriptError>)
      modifies this
      ensures r == Script(old(hash), amount, daily, monthly, today, month, allowNegative)
      ensures hash == if r.Ok? then Some(r.value) else old(hash)
    {
      if hash.None? { return Err(QuotaNotFound); }
      var q := hash.value;
      var newBalance, effective := q.balance - amount, q.balance + q.creditLimit;
      if !allowNegative && effective < amount {
        return Err(InsufficientBalance(q.balance, q.creditLimit, amount));
      }
      var dailyUsed := q.dailyUsed;
      if q.dailyDate != today { dailyUsed := 0; }
      dailyUsed := dailyUsed + daily;
      if dailyUsed > q.dailyQuota {
        return Err(DailyQuotaExceeded(q.dailyQuota, dailyUsed - daily));
      }
      var monthlyUsed := q.monthlyUsed;
      if q.month != month { monthlyUsed := 0; }
      monthlyUsed := monthlyUsed + monthly;
      if monthlyUsed > q.monthlyQuota {
        return Err(MonthlyQuotaExceeded(q.monthlyQuota, monthlyUsed - monthly));
      }
      q := q.(balance := newBalance, dailyUsed := dailyUsed, dailyDate := today);
      q := q.(monthlyUsed := monthlyUsed, month := month, version := q.version + 1);
      hash := Some(q);
      return Ok(q);
    }

    /** `adjust_redis_balance`: a positive difference is an extra charge, a negative one a return. */
    method AdjustBalance(diff: real) returns (found: bool)
      modifies this
      ensures hash == match old(hash) case Some(h) => Some(Adjusted(h, diff)) case None => None
      ensures found <==> old(hash).Some? && !(-0.000001 < diff < 0.000001)
      ensures !found ==> hash == old(hash)
      ensures found ==>
                hash == Some(old(hash).value.(balance := old(hash).value.balance - diff, version := old(hash).value.version + 1))
    {
      if -Costs.MICRO < diff < Costs.MICRO { return false; }
      if hash.None? { return false; }
      hash := Some(hash.value.(balance := hash.value.balance - diff, version := hash.value.version + 1));
      return true;
    }
  }

  /**
   The script accepts exactly what fits into balance and credit, into the day and into the month,
   where a counter of another day or month counts as zero; a refusal names the first of them.
   */
  lemma ScriptOutcome(q: Hash, amount: real, daily: int, monthly: int, today: int, month: (int, int), allowNegative: bool)
    ensures Script(None, amount, daily, monthly, today, month, allowNegative) == Err(QuotaNotFound)
    ensures var r := Script(Some(q), amount, daily, monthly, today, month, allowNegative);
            var usedDay := if q.dailyDate == today then q.dailyUsed else 0;
            var usedMonth := if q.month == month then q.monthlyUsed else 0;
            var money := allowNegative || amount <= q.balance + q.creditLimit;
            var day := usedDay + daily <= q.dailyQuota;
            && (money && day && usedMonth + monthly <= q.monthlyQuota ==>
                  r == Ok(Hash(q.balance - amount, q.creditLimit, q.dailyQuota, usedDay + daily, today,
                               q.monthlyQuota, usedMonth + monthly, month, q.version + 1)))
            && (!money ==> r == Err(InsufficientBalance(q.balance, q.creditLimit, amount)))
            && (money && !day ==> r == Err(DailyQuotaExceeded(q.dailyQuota, usedDay)))
            && (money && day && usedMonth + monthly > q.monthlyQuota ==> r == Err(MonthlyQuotaExceeded(q.monthlyQuota, usedMonth)))
  {
  }

  // ---- the script and the database path ----

  ghost predicate Dated(r: Row, today: int) {
    && r.dailyResetAt.Some? && r.dailyResetAt.value <= today
    && r.monthlyResetAt.Some? && 1 <= r.monthlyResetAt.value <= today
  }

  /** Reset dates, where there are any, are not after today, and counters are not negative. */
  ghost predicate Plausible(r: Row, today: int) {
    && (r.dailyResetAt.Some? ==> r.dailyResetAt.value <= today)
    && (r.monthlyResetAt.Some? ==> 1 <= r.monthlyResetAt.value <= today)
    && r.dailyUsed >= 0 && r.monthlyUsed >= 0
  }

  /** Requests without a positive amount skip the balance check of the database path, not that of the script. */
  ghost predicate OnlyScriptRefuses(r: Row, amount: real, allowNegative: bool) {
    amount <= 0.0 && !allowNegative && r.balance + r.creditLimit < amount
  }

  /** A counter without a reset date is full: the database path starts it anew, the script does not. */
  ghost predicate FullButUndated(r: Row) {
    || (r.dailyResetAt.None? && r.dailyUsed + 1 > r.dailyQuota)
    || (r.monthlyResetAt.None? && r.monthlyUsed + 1 > r.monthlyQuota)
  }

  /** No counter without a reset date has been used. */
  ghost predicate UndatedUnused(r: Row) {
    (r.dailyResetAt.None? ==> r.dailyUsed == 0) && (r.monthlyResetAt.None? ==> r.monthlyUsed == 0)
  }

  /**
   On the hash synced from any row, the script accepts exactly what `check_and_deduct` accepts,
   apart from the two families above; and it leaves the hash of the row that the database path
   would have left exactly when no undated counter has been used.
   */
  lemma ScriptAgreesWithDatabase(tenant: Tenant, r: Row, amount: real, allowNegative: bool, today: int)
    requires today >= 1 && Plausible(r, today)
    ensures var script := Script(Some(Synced(r, today)), amount, 1, 1, today, Calendar.MonthKey(today), allowNegative);
            var db := TryDeduct(map[tenant := r], tenant, Request(amount, 1, 1, 0, allowNegative), today);
            && (script.Ok? <==> db.Ok? && !OnlyScriptRefuses(r, amount, allowNegative) && !FullButUndated(r))
            && (script.Ok? ==> Dated(db.value, today) && (script.value == Synced(db.value, today) <==> UndatedUnused(r)))
  {
    var month := Calendar.MonthKey(today);
    var view := Reset(r, today);
    ResetSeenByScript(r, today);
    ScriptOnView(Synced(r, today), r, view, amount, allowNegative, today, month);
    var spent := Deducted(view, Request(amount, 1, 1, 0, allowNegative));
    assert Synced(spent, today).dailyDate == today && Synced(spent, today).month == month;
  }

  /** What the two resets do to the row and its hash: they agree but for used counters without a date. */
  ghost predicate ResetsRelated(r: Row, view: Row, h: Hash, today: int, month: (int, int)) {
    && view.(dailyUsed := r.dailyUsed, dailyResetAt := r.dailyResetAt,
             monthlyUsed := r.monthlyUsed, monthlyResetAt := r.monthlyResetAt) == r
    && h.balance == r.balance && h.creditLimit == r.creditLimit && h.version == r.version
    && h.dailyQuota == r.dailyQuota && h.monthlyQuota == r.monthlyQuota
    && view.dailyUsed == (if r.dailyResetAt.None? then 0 else ScriptDaily(h, today))
    && view.monthlyUsed == (if r.monthlyResetAt.None? then 0 else ScriptMonthly(h, month))
    && (r.dailyResetAt.None? ==> ScriptDaily(h, today) == r.dailyUsed)
    && (r.monthlyResetAt.None? ==> ScriptMonthly(h, month) == r.monthlyUsed)
  }

  function ScriptDaily(h: Hash, today: int): int { if h.dailyDate != today then 0 else h.dailyUsed }

  function ScriptMonthly(h: Hash, month: (int, int)): int { if h.month != month then 0 else h.monthlyUsed }

  lemma ResetSeenByScript(r: Row, today: int)
    requires today >= 1 && Plausible(r, today)
    ensures var view := Reset(r, today);
            && Dated(view, today) && view.dailyResetAt == Some(today)
            && Calendar.MonthKey(view.monthlyResetAt.value) == Calendar.MonthKey(today)
            && ResetsRelated(r, view, Synced(r, today), today, Calendar.MonthKey(today))
  {
    if r.monthlyResetAt.Some? { Calendar.SameMonth(r.monthlyResetAt.value, today); }
    Calendar.SameMonth(Calendar.FirstOfMonth(today), today);
    ResetClearsStale(r, today);
  }

  /** The hash of a row whose counters are those of today and this month. */
  function Mirror(r: Row, today: int, month: (int, int)): Hash {
    Hash(r.balance, r.creditLimit, r.dailyQuota, r.dailyUsed, today, r.monthlyQuota, r.monthlyUsed, month, r.version)
  }

  /** What `_deduct_quota_redis` copies from the script's answer into the row. */
  function CopiedInto(r: Row, h: Hash): Row {
    r.(balance := h.balance, dailyUsed := h.dailyUsed, monthlyUsed := h.monthlyUsed, version := h.version)
  }

  lemma ScriptOnView(h: Hash, r: Row, view: Row, amount: real, allowNegative: bool, today: int, month: (int, int))
    requires ResetsRelated(r, view, h, today, month) && r.dailyUsed >= 0 && r.monthlyUsed >= 0
    ensures var req := Request(amount, 1, 1, 0, allowNegative);
            var script := Script(Some(h), amount, 1, 1, today, month, allowNegative);
            && (script.Ok? <==> Check(view, req) == None && !OnlyScriptRefuses(r, amount, allowNegative) && !FullButUndated(r))
            && (script.Ok? ==> (script.value == Mirror(Deducted(view, req), today, month) <==> UndatedUnused(r)))
            && (script.Ok? ==> (CopiedInto(view, script.value) == Deducted(view, req) <==> UndatedUnused(r)))
  {
  }

  /**
   The row that a tenant's first request leaves is such a row: from the second request on, script
   and database path count differently, and a first request that uses the daily quota up makes the
   script refuse what the database path accepts.
   */
  lemma FirstRequestDiverges(tenant: Tenant, today: int, n: int)
    requires today >= 1 && 1 <= n <= FRESH.dailyQuota
    ensures var first := TryDeduct(map[], tenant, Request(0.0, n, 1, 0, false), today);
            && first.Ok? && Plausible(first.value, today)
            && var script := Script(Some(Synced(first.value, today)), 0.0, 1, 1, today, Calendar.MonthKey(today), false);
               var db := TryDeduct(map[tenant := first.value], tenant, Request(0.0, 1, 1, 0, false), today);
               && db.Ok? && db.value.dailyUsed == 1
               && (script.Ok? <==> n < FRESH.dailyQuota)
               && (script.Ok? ==> script.value.dailyUsed == n + 1)
  {
  }

  // ---- the Redis path of a deduction ----

  /** The Redis path leaves the same row as the database path exactly when no undated counter has been used. */
  lemma RedisPathAgrees(tenant: Tenant, r: Row, amount: real, allowNegative: bool, today: int)
    requires today >= 1 && Plausible(r, today)
    ensures var script := Script(Some(Synced(r, today)), amount, 1, 1, today, Calendar.MonthKey(today), allowNegative);
            var db := TryDeduct(map[tenant := r], tenant, Request(amount, 1, 1, 0, allowNegative), today);
            script.Ok? ==> db.Ok? && (CopiedInto(Reset(r, today), script.value) == db.value <==> UndatedUnused(r))
  {
    ResetSeenByScript(r, today);
    ScriptOnView(Synced(r, today), r, Reset(r, today), amount, allowNegative, today, Calendar.MonthKey(today));
  }
}
