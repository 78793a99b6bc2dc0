/**
 The five-field expression parser of `monitor_cron`, over ASCII text.

 `ParseToken`, `FieldOf` and `ParseExpr` follow the code; the lemmas at the end say what
 an accepted field is.
 */
module CronParser {
  import opened Common
  import opened CronSchedule

  datatype CronError = EmptyToken | BadStep | StepNotPositive | BadRange | BadValue | OutOfBounds | NotFiveFields

  // ---- the string operations of the host language ----

  predicate IsSpace(c: char) {
    c == ' ' || 9 <= c as int <= 13 || 28 <= c as int <= 31
  }

  function TrimLeft(s: string): string {
    if s != "" && IsSpace(s[0]) then TrimLeft(s[1..]) else s
  }

  function TrimRight(s: string): string {
    if s != "" && IsSpace(s[|s| - 1]) then TrimRight(s[..|s| - 1]) else s
  }

  function Strip(s: string): string {
    TrimRight(TrimLeft(s))
  }

  /** `s.split(sep)`: always at least one part. */
  function SplitOn(s: string, sep: char): (parts: seq<string>)
    ensures |parts| >= 1
  {
    if s == "" then [""]
    else
      var rest := SplitOn(s[1..], sep);
      if s[0] == sep then [""] + rest else [[s[0]] + rest[0]] + rest[1..]
  }

  /** `s.split()`: the maximal runs of non-space characters. */
  function Words(s: string): (words: seq<string>)
    ensures s != "" && !IsSpace(s[0]) ==> words != []
  {
    if s == "" then []
    else
      var rest := Words(s[1..]);
      if IsSpace(s[0]) then rest
      else if |s| == 1 || IsSpace(s[1]) then [[s[0]]] + rest
      else [[s[0]] + rest[0]] + rest[1..]
  }

  /** `s.split(sep, 1)` when `sep` occurs in `s`. */
  function Cut(s: string, sep: char): (r: (string, string))
    requires sep in s
    ensures s == r.0 + [sep] + r.1 && sep !in r.0
  {
    if s[0] == sep then ("", s[1..])
    else var r := Cut(s[1..], sep); ([s[0]] + r.0, r.1)
  }

  predicate IsDigit(c: char) { '0' <= c <= '9' }

  /** Digits with single underscores between them. */
  predicate IsNumeral(s: string) {
    && s != "" && IsDigit(s[0]) && IsDigit(s[|s| - 1])
    && (forall i :: 0 <= i < |s| ==> IsDigit(s[i]) || s[i] == '_')
    && forall i :: 0 <= i < |s| - 1 ==> s[i] == '_' ==> s[i + 1] != '_'
  }

  function NumeralValue(s: string): int
    requires forall i :: 0 <= i < |s| ==> IsDigit(s[i]) || s[i] == '_'
  {
    if s == "" then 0
    else
      var c := s[|s| - 1];
      var high := NumeralValue(s[..|s| - 1]);
      if c == '_' then high else high * 10 + (c as int - '0' as int)
  }

  /** `int(s)`; `None` is the `ValueError`. */
  function ParseInt(s: string): Option<int> {
    ParseSigned(Strip(s))
  }

  function ParseSigned(t: string): Option<int> {
    if t != "" && (t[0] == '+' || t[0] == '-') then
      if IsNumeral(t[1..]) then Some(if t[0] == '-' then -NumeralValue(t[1..]) else NumeralValue(t[1..])) else None
    else if IsNumeral(t) then Some(NumeralValue(t)) else None
  }

  // ---- the parser ----

  /** `set(range(start, end + 1, step))`. */
  function Progression(start: int, end: int, step: int): set<int>
    requires step > 0
  {
    set v | start <= v <= end && OnStep(v, start, step)
  }

  predicate OnStep(v: int, start: int, step: int)
    requires step > 0
  {
    (v - start) % step == 0
  }

  function ParseBase(base: string, lo: int, hi: int): Result<(int, int), CronError> {
    if base == "*" then Ok((lo, hi))
    else if '-' in base then
      var (left, right) := Cut(base, '-');
      match (ParseInt(left), ParseInt(right))
      case (Some(start), Some(end)) => Ok((start, end))
      case _ => Err(BadRange)
    else
      match ParseInt(base)
      case Some(v) => Ok((v, v))
      case None => Err(BadValue)
  }

  function ParseRange(base: string, step: int, lo: int, hi: int): Result<set<int>, CronError>
    requires step > 0
  {
    match ParseBase(base, lo, hi)
    case Err(e) => Err(e)
    case Ok((start, end)) =>
      if start < lo || end > hi || start > end then Err(OutOfBounds) else Ok(Progression(start, end, step))
  }

  function ParseToken(raw: string, lo: int, hi: int): Result<set<int>, CronError> {
    var token := Strip(raw);
    if token == "" then Err(EmptyToken)
    else if token == "*" then Ok(Progression(lo, hi, 1))
    else if '/' in token then
      var (base, stepPart) := Cut(token, '/');
      match ParseInt(stepPart)
      case None => Err(BadStep)
      case Some(step) => if step <= 0 then Err(StepNotPositive) else ParseRange(base, step, lo, hi)
    else ParseRange(token, 1, lo, hi)
  }

  /** The union of the parts, or the error of the first part that has one. */
  function FieldOf(parts: seq<string>, lo: int, hi: int): Result<set<int>, CronError> {
    if parts == [] then Ok({})
    else
      match ParseToken(parts[0], lo, hi)
      case Err(e) => Err(e)
      case Ok(vs) =>
        match FieldOf(parts[1..], lo, hi)
        case Err(e) => Err(e)
        case Ok(rest) => Ok(vs + rest)
  }

  method ParseField(raw: string, lo: int, hi: int) returns (r: Result<set<int>, CronError>)
    ensures r == FieldOf(SplitOn(raw, ','), lo, hi)
  {
    var parts := SplitOn(raw, ',');
    var values: set<int> := {};
    assert parts[0..] == parts;
    assert FieldOf(parts, lo, hi).Ok? ==> values + FieldOf(parts, lo, hi).value == FieldOf(parts, lo, hi).value;
    for i := 0 to |parts|
      invariant FieldOf(parts, lo, hi) ==
                match FieldOf(parts[i..], lo, hi) case Err(e) => Err(e) case Ok(rest) => Ok(values + rest)
    {
      var part := ParseToken(parts[i], lo, hi);
      assert parts[i..][1..] == parts[i + 1..];
      match part {
        case Err(e) => return Err(e);
        case Ok(vs) =>
          ghost var rest := FieldOf(parts[i + 1..], lo, hi);
          assert rest.Ok? ==> values + (vs + rest.value) == (values + vs) + rest.value;
          values := values + vs;
      }
    }
    return Ok(values);
  }

  function NormalizeWeekday(v: int): int {
    if v == 0 || v == 7 then 6 else v - 1
  }

  /** `parse_cron_expr`: the weekday field is read first, then minute, hour, day and month. */
  function ParseExpr(expr: string): Result<CronSpec, CronError> {
    var parts := Words(Strip(expr));
    if |parts| != 5 then Err(NotFiveFields)
    else
      match FieldOf(SplitOn(parts[4], ','), 0, 7)
      case Err(e) => Err(e)
      case Ok(weekdays) =>
        match FieldOf(SplitOn(parts[0], ','), 0, 59)
        case Err(e) => Err(e)
        case Ok(minutes) =>
          match FieldOf(SplitOn(parts[1], ','), 0, 23)
          case Err(e) => Err(e)
          case Ok(hours) =>
            match FieldOf(SplitOn(parts[2], ','), 1, 31)
            case Err(e) => Err(e)
            case Ok(days) =>
              match FieldOf(SplitOn(parts[3], ','), 1, 12)
              case Err(e) => Err(e)
              case Ok(months) =>
                Ok(CronSpec(minutes, hours, days, months, set v <- weekdays :: NormalizeWeekday(v)))
  }

  // ---- what an accepted field is ----

  /** An accepted token is a non-empty arithmetic progression inside the bounds. */
  lemma TokenIsProgression(raw: string, lo: int, hi: int) returns (start: int, end: int, step: int)
    requires lo <= hi && ParseToken(raw, lo, hi).Ok?
    ensures lo <= start <= end <= hi && step > 0
    ensures forall v :: v in ParseToken(raw, lo, hi).value <==> start <= v <= end && OnStep(v, start, step)
    ensures start in ParseToken(raw, lo, hi).value
  {
    var token := Strip(raw);
    if token == "*" {
      start, end, step := lo, hi, 1;
    } else if '/' in token {
      var (base, stepPart) := Cut(token, '/');
      step := ParseInt(stepPart).value;
      var r := ParseBase(base, lo, hi).value;
      start, end := r.0, r.1;
    } else {
      var r := ParseBase(token, lo, hi).value;
      start, end, step := r.0, r.1, 1;
    }
  }

  /** A field is accepted exactly when all its parts are, and is then exactly their union. */
  lemma {:induction false} FieldIsUnion(parts: seq<string>, lo: int, hi: int)
    ensures FieldOf(parts, lo, hi).Ok? <==> forall i :: 0 <= i < |parts| ==> ParseToken(parts[i], lo, hi).Ok?
    ensures FieldOf(parts, lo, hi).Ok? ==> forall v ::
              v in FieldOf(parts, lo, hi).value <==>
              exists i :: 0 <= i < |parts| && v in ParseToken(parts[i], lo, hi).value
  {
    if parts != [] {
      var rest := parts[1..];
      FieldIsUnion(rest, lo, hi);
      assert forall i :: 0 < i < |parts| ==> parts[i] == rest[i - 1];
      if FieldOf(parts, lo, hi).Ok? {
        var all := FieldOf(parts, lo, hi).value;
        forall v
          ensures v in all <==> exists i :: 0 <= i < |parts| && v in ParseToken(parts[i], lo, hi).value
        {
          if v in FieldOf(rest, lo, hi).value {
            var i :| 0 <= i < |rest| && v in ParseToken(rest[i], lo, hi).value;
            assert v in ParseToken(parts[i + 1], lo, hi).value;
          }
          if i :| 0 <= i < |parts| && v in ParseToken(parts[i], lo, hi).value {
            if i > 0 { assert v in ParseToken(rest[i - 1], lo, hi).value; }
          }
        }
      }
    }
  }

  /** An accepted field is non-empty and inside its bounds. */
  lemma FieldInBounds(raw: string, lo: int, hi: int)
    requires lo <= hi && FieldOf(SplitOn(raw, ','), lo, hi).Ok?
    ensures FieldOf(SplitOn(raw, ','), lo, hi).value != {}
    ensures forall v :: v in FieldOf(SplitOn(raw, ','), lo, hi).value ==> lo <= v <= hi
  {
    var parts := SplitOn(raw, ',');
    FieldIsUnion(parts, lo, hi);
    var start, end, step := TokenIsProgression(parts[0], lo, hi);
    assert start in ParseToken(parts[0], lo, hi).value;
    forall v | v in FieldOf(parts, lo, hi).value ensures lo <= v <= hi {
      var i :| 0 <= i < |parts| && v in ParseToken(parts[i], lo, hi).value;
      var _, _, _ := TokenIsProgression(parts[i], lo, hi);
    }
  }

  /** Cron counts weekdays from Sunday, the calendar from Monday; both 0 and 7 are Sunday. */
  lemma WeekdayShift(v: int)
    requires 0 <= v <= 7
    ensures 0 <= NormalizeWeekday(v) <= 6 && (NormalizeWeekday(v) + 1) % 7 == v % 7
  {
  }

  /** Every accepted expression yields a specification that the search can rely on. */
  lemma ParsedIsWellFormed(expr: string)
    requires ParseExpr(expr).Ok?
    ensures ParseExpr(expr).value.WellFormed()
  {
    var parts := Words(Strip(expr));
    FieldInBounds(parts[0], 0, 59);
    FieldInBounds(parts[1], 0, 23);
    FieldInBounds(parts[2], 1, 31);
    FieldInBounds(parts[3], 1, 12);
    FieldInBounds(parts[4], 0, 7);
    var weekdays := FieldOf(SplitOn(parts[4], ','), 0, 7).value;
    var w := Pick(weekdays);
    assert NormalizeWeekday(w) in ParseExpr(expr).value.weekdays;
  }
}
