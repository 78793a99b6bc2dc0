/**
 Printing cron expressions and reading them back.  A field is a list of tokens with
 an independent meaning (`Denotes`); the parser of `monitor_cron` recovers that
 meaning from the printed text, whatever the numbers are.
 */
module CronRoundTrip {
  import opened Common
  import opened CronSchedule
  import opened CronParser
  import Calendar

  datatype Base = Star | Single(v: nat) | Span(a: nat, b: nat)
  datatype Token = Plain(base: Base) | Stepped(base: Base, step: nat)

  function Decimal(n: nat): string {
    var digit := [(n % 10 + '0' as int) as char];
    if n < 10 then digit else Decimal(n / 10) + digit
  }

  function PrintBase(b: Base): string {
    match b
    case Star => "*"
    case Single(v) => Decimal(v)
    case Span(x, y) => Decimal(x) + "-" + Decimal(y)
  }

  function PrintToken(t: Token): string {
    match t
    case Plain(b) => PrintBase(b)
    case Stepped(b, k) => PrintBase(b) + "/" + Decimal(k)
  }

  function PrintField(ts: seq<Token>): string
    requires ts != []
  {
    if |ts| == 1 then PrintToken(ts[0]) else PrintToken(ts[0]) + "," + PrintField(ts[1..])
  }

  // ---- the meaning of a token, without reference to the parser ----

  function First(b: Base, lo: int): int {
    match b case Star => lo case Single(v) => v case Span(x, _) => x
  }

  function Last(b: Base, hi: int): int {
    match b case Star => hi case Single(v) => v case Span(_, y) => y
  }

  predicate InBounds(t: Token, lo: int, hi: int) {
    && lo <= First(t.base, lo) <= Last(t.base, hi) <= hi
    && (t.Stepped? ==> t.step > 0)
  }

  ghost predicate Denotes(t: Token, lo: int, hi: int, v: int) {
    && First(t.base, lo) <= v <= Last(t.base, hi)
    && (t.Stepped? && t.step > 0 ==> (v - First(t.base, lo)) % t.step == 0)
  }

  ghost predicate FieldDenotes(ts: seq<Token>, lo: int, hi: int, v: int) {
    exists i :: 0 <= i < |ts| && Denotes(ts[i], lo, hi, v)
  }

  // ---- decimals ----

  lemma {:induction false} DecimalDigits(n: nat)
    ensures Decimal(n) != "" && forall i :: 0 <= i < |Decimal(n)| ==> IsDigit(Decimal(n)[i])
  {
    if n >= 10 { DecimalDigits(n / 10); }
  }

  lemma {:induction false} DecimalValue(n: nat)
    ensures (forall i :: 0 <= i < |Decimal(n)| ==> IsDigit(Decimal(n)[i])) && NumeralValue(Decimal(n)) == n
  {
    DecimalDigits(n);
    var s := Decimal(n);
    var last := (n % 10 + '0' as int) as char;
    if n < 10 {
      assert s[..|s| - 1] == "";
    } else {
      DecimalValue(n / 10);
      assert s[..|s| - 1] == Decimal(n / 10);
    }
    assert s[|s| - 1] == last && last as int - '0' as int == n % 10 && last != '_';
  }

  lemma StripPlain(s: string)
    requires s != "" ==> !IsSpace(s[0]) && !IsSpace(s[|s| - 1])
    ensures Strip(s) == s
  {
  }

  /** `int(str(n)) == n`. */
  lemma ParseDecimal(n: nat)
    ensures ParseInt(Decimal(n)) == Some(n)
  {
    DecimalValue(n);
    DecimalDigits(n);
    StripPlain(Decimal(n));
  }

  // ---- one token ----

  lemma {:induction false} CutAt(a: string, sep: char, b: string)
    requires sep !in a
    ensures sep in a + [sep] + b && Cut(a + [sep] + b, sep) == (a, b)
  {
    var s := a + [sep] + b;
    assert s[|a|] == sep;
    if a == "" {
      assert s[1..] == b;
    } else {
      CutAt(a[1..], sep, b);
      assert s[1..] == a[1..] + [sep] + b;
      assert [a[0]] + a[1..] == a;
    }
  }

  /** The characters of a printed field. */
  predicate TokenChar(c: char) { IsDigit(c) || c == '*' || c == '-' || c == '/' }

  predicate AllTokenChars(s: string) {
    forall i :: 0 <= i < |s| ==> TokenChar(s[i])
  }

  lemma BaseShape(b: Base)
    ensures PrintBase(b) != "" && AllTokenChars(PrintBase(b)) && '/' !in PrintBase(b)
    ensures PrintBase(b) == "*" <==> b == Star
  {
    match b
    case Star =>
    case Single(v) => DecimalDigits(v);
    case Span(x, y) => DecimalDigits(x); DecimalDigits(y);
  }

  lemma ParsePrintedBase(b: Base, lo: int, hi: int)
    ensures ParseBase(PrintBase(b), lo, hi) == Ok((First(b, lo), Last(b, hi)))
  {
    BaseShape(b);
    match b
    case Star =>
    case Single(v) => DecimalDigits(v); ParseDecimal(v);
    case Span(x, y) =>
      DecimalDigits(x);
      CutAt(Decimal(x), '-', Decimal(y));
      ParseDecimal(x);
      ParseDecimal(y);
  }

  lemma TokenShape(t: Token)
    ensures PrintToken(t) != "" && AllTokenChars(PrintToken(t))
    ensures Strip(PrintToken(t)) == PrintToken(t)
  {
    BaseShape(t.base);
    if t.Stepped? { DecimalDigits(t.step); }
    StripPlain(PrintToken(t));
  }

  lemma ParsePrintedRange(b: Base, step: int, lo: int, hi: int)
    requires step > 0
    ensures ParseRange(PrintBase(b), step, lo, hi) ==
            if lo <= First(b, lo) <= Last(b, hi) <= hi then Ok(Progression(First(b, lo), Last(b, hi), step)) else Err(OutOfBounds)
  {
    ParsePrintedBase(b, lo, hi);
  }

  lemma ParsePlain(b: Base, lo: int, hi: int)
    requires lo <= hi
    ensures ParseToken(PrintToken(Plain(b)), lo, hi) == ParseRange(PrintBase(b), 1, lo, hi)
  {
    TokenShape(Plain(b));
    BaseShape(b);
    if b == Star { ParsePrintedRange(b, 1, lo, hi); }
  }

  lemma ParseStepped(b: Base, step: nat, lo: int, hi: int)
    ensures ParseToken(PrintToken(Stepped(b, step)), lo, hi) ==
            if step == 0 then Err(StepNotPositive) else ParseRange(PrintBase(b), step, lo, hi)
  {
    TokenShape(Stepped(b, step));
    BaseShape(b);
    CutAt(PrintBase(b), '/', Decimal(step));
    ParseDecimal(step);
    var s := PrintToken(Stepped(b, step));
    assert s == PrintBase(b) + ['/'] + Decimal(step);
    assert s[|PrintBase(b)|] == '/';
  }

  /** A printed token is rejected for its step, then for its bounds, and otherwise read as what it denotes. */
  lemma ParsePrintedToken(t: Token, lo: int, hi: int)
    requires lo <= hi
    ensures t.Stepped? && t.step == 0 ==> ParseToken(PrintToken(t), lo, hi) == Err(StepNotPositive)
    ensures !(t.Stepped? && t.step == 0) && !InBounds(t, lo, hi) ==> ParseToken(PrintToken(t), lo, hi) == Err(OutOfBounds)
    ensures InBounds(t, lo, hi) ==>
              && ParseToken(PrintToken(t), lo, hi).Ok?
              && forall v :: v in ParseToken(PrintToken(t), lo, hi).value <==> Denotes(t, lo, hi, v)
  {
    match t
    case Plain(b) =>
      ParsePlain(b, lo, hi);
      ParsePrintedRange(b, 1, lo, hi);
    case Stepped(b, step) =>
      ParseStepped(b, step, lo, hi);
      if step > 0 { ParsePrintedRange(b, step, lo, hi); }
  }

  // ---- a field ----

  lemma {:induction false} SplitPlain(a: string, sep: char)
    requires sep !in a
    ensures SplitOn(a, sep) == [a]
  {
    if a != "" {
      SplitPlain(a[1..], sep);
      assert [a[0]] + a[1..] == a;
    }
  }

  lemma {:induction false} SplitCons(a: string, sep: char, b: string)
    requires sep !in a
    ensures SplitOn(a + [sep] + b, sep) == [a] + SplitOn(b, sep)
  {
    var s := a + [sep] + b;
    if a == "" {
      assert s[1..] == b;
    } else {
      SplitCons(a[1..], sep, b);
      assert s[1..] == a[1..] + [sep] + b;
      assert [a[0]] + a[1..] == a;
    }
  }

  lemma {:induction false} SplitPrintedField(ts: seq<Token>)
    requires ts != []
    ensures SplitOn(PrintField(ts), ',') == seq(|ts|, i requires 0 <= i < |ts| => PrintToken(ts[i]))
  {
    TokenShape(ts[0]);
    if |ts| == 1 {
      SplitPlain(PrintToken(ts[0]), ',');
    } else {
      SplitPrintedField(ts[1..]);
      SplitCons(PrintToken(ts[0]), ',', PrintField(ts[1..]));
    }
  }

  /** A printed field of in-bounds tokens is read as exactly the union of what its tokens denote. */
  lemma ParsePrintedField(ts: seq<Token>, lo: int, hi: int)
    requires lo <= hi && ts != [] && forall i :: 0 <= i < |ts| ==> InBounds(ts[i], lo, hi)
    ensures FieldOf(SplitOn(PrintField(ts), ','), lo, hi).Ok?
    ensures forall v :: v in FieldOf(SplitOn(PrintField(ts), ','), lo, hi).value <==> FieldDenotes(ts, lo, hi, v)
  {
    var parts := SplitOn(PrintField(ts), ',');
    SplitPrintedField(ts);
    FieldIsUnion(parts, lo, hi);
    forall i | 0 <= i < |ts|
      ensures ParseToken(parts[i], lo, hi).Ok?
      ensures forall v :: v in ParseToken(parts[i], lo, hi).value <==> Denotes(ts[i], lo, hi, v)
    {
      ParsePrintedToken(ts[i], lo, hi);
    }
  }

  /** Printing an in-range list of values with commas and parsing it gives the same set back. */
  lemma ParsePrintedValues(vs: seq<nat>, lo: int, hi: int)
    requires lo <= hi && vs != [] && forall i :: 0 <= i < |vs| ==> lo <= vs[i] <= hi
    ensures FieldOf(SplitOn(PrintField(Singles(vs)), ','), lo, hi).Ok?
    ensures forall v :: v in FieldOf(SplitOn(PrintField(Singles(vs)), ','), lo, hi).value <==> v in vs
  {
    assert forall i :: 0 <= i < |vs| ==> InBounds(Singles(vs)[i], lo, hi);
    ParsePrintedField(Singles(vs), lo, hi);
    forall v ensures FieldDenotes(Singles(vs), lo, hi, v) <==> v in vs {
      SinglesDenote(vs, lo, hi, v);
    }
  }

  lemma SinglesDenote(vs: seq<nat>, lo: int, hi: int, v: int)
    ensures FieldDenotes(Singles(vs), lo, hi, v) <==> v in vs
  {
    var ts := Singles(vs);
    if v in vs {
      var i :| 0 <= i < |vs| && vs[i] == v;
      assert Denotes(ts[i], lo, hi, v);
    }
  }

  function Singles(vs: seq<nat>): (ts: seq<Token>)
    ensures |ts| == |vs|
  {
    seq(|vs|, i requires 0 <= i < |vs| => Plain(Single(vs[i])))
  }

  // ---- a whole expression ----

  predicate NoSpace(s: string) {
    forall i :: 0 <= i < |s| ==> !IsSpace(s[i])
  }

  lemma {:induction false} FieldShape(ts: seq<Token>)
    requires ts != []
    ensures PrintField(ts) != "" && NoSpace(PrintField(ts))
  {
    TokenShape(ts[0]);
    if |ts| > 1 { FieldShape(ts[1..]); }
  }

  lemma {:induction false} WordsPlain(a: string)
    requires a != "" && NoSpace(a)
    ensures Words(a) == [a]
  {
    assert [a[0]] + a[1..] == a;
    if |a| == 1 { assert Words(a[1..]) == [] && a == [a[0]]; } else { WordsPlain(a[1..]); }
  }

  lemma {:induction false} WordsCons(a: string, b: string)
    requires a != "" && NoSpace(a)
    ensures Words(a + " " + b) == [a] + Words(b)
  {
    var s := a + " " + b;
    if |a| == 1 {
      assert s[1..] == " " + b && (" " + b)[1..] == b && a == [a[0]];
    } else {
      WordsCons(a[1..], b);
      assert [a[0]] + a[1..] == a;
      assert s[1..] == a[1..] + " " + b;
    }
  }

  function PrintExpr(minute: string, hour: string, day: string, month: string, weekday: string): string {
    minute + " " + (hour + " " + (day + " " + (month + " " + weekday)))
  }

  lemma WordsOfFive(minute: string, hour: string, day: string, month: string, weekday: string)
    requires minute != "" && hour != "" && day != "" && month != "" && weekday != ""
    requires NoSpace(minute) && NoSpace(hour) && NoSpace(day) && NoSpace(month) && NoSpace(weekday)
    ensures Words(PrintExpr(minute, hour, day, month, weekday)) == [minute] + ([hour] + ([day] + ([month] + [weekday])))
  {
    WordsPlain(weekday);
    var last := month + " " + weekday;
    WordsCons(month, weekday);
    var three := day + " " + last;
    WordsCons(day, last);
    var four := hour + " " + three;
    WordsCons(hour, three);
    WordsCons(minute, four);
  }

  lemma SpacedEnds(a: string, b: string)
    requires a != "" && b != ""
    ensures (a + " " + b)[0] == a[0] && (a + " " + b)[|a + " " + b| - 1] == b[|b| - 1]
  {
  }

  lemma ExprWords(minute: string, hour: string, day: string, month: string, weekday: string)
    requires minute != "" && hour != "" && day != "" && month != "" && weekday != ""
    requires NoSpace(minute) && NoSpace(hour) && NoSpace(day) && NoSpace(month) && NoSpace(weekday)
    ensures Words(Strip(PrintExpr(minute, hour, day, month, weekday))) == [minute, hour, day, month, weekday]
  {
    SpacedEnds(month, weekday);
    SpacedEnds(day, month + " " + weekday);
    SpacedEnds(hour, day + " " + (month + " " + weekday));
    SpacedEnds(minute, hour + " " + (day + " " + (month + " " + weekday)));
    StripPlain(PrintExpr(minute, hour, day, month, weekday));
    WordsOfFive(minute, hour, day, month, weekday);
    assert [minute] + ([hour] + ([day] + ([month] + [weekday]))) == [minute, hour, day, month, weekday];
  }

  datatype Fields = Fields(minute: seq<Token>, hour: seq<Token>, day: seq<Token>, month: seq<Token>, weekday: seq<Token>) {
    ghost predicate Valid() {
      && FieldValid(minute, 0, 59) && FieldValid(hour, 0, 23) && FieldValid(day, 1, 31)
      && FieldValid(month, 1, 12) && FieldValid(weekday, 0, 7)
    }
  }

  ghost predicate FieldValid(ts: seq<Token>, lo: int, hi: int) {
    ts != [] && forall i :: 0 <= i < |ts| ==> InBounds(ts[i], lo, hi)
  }

  function PrintFields(f: Fields): string
    requires f.minute != [] && f.hour != [] && f.day != [] && f.month != [] && f.weekday != []
  {
    PrintExpr(PrintField(f.minute), PrintField(f.hour), PrintField(f.day), PrintField(f.month), PrintField(f.weekday))
  }

  lemma PrintedWords(f: Fields)
    requires f.minute != [] && f.hour != [] && f.day != [] && f.month != [] && f.weekday != []
    ensures Words(Strip(PrintFields(f))) ==
            [PrintField(f.minute), PrintField(f.hour), PrintField(f.day), PrintField(f.month), PrintField(f.weekday)]
  {
    FieldShape(f.minute);
    FieldShape(f.hour);
    FieldShape(f.day);
    FieldShape(f.month);
    FieldShape(f.weekday);
    ExprWords(PrintField(f.minute), PrintField(f.hour), PrintField(f.day), PrintField(f.month), PrintField(f.weekday));
  }

  /** Every valid expression, once printed, is read back field by field as what it denotes. */
  lemma ParsePrintedExpression(f: Fields)
    requires f.Valid()
    ensures ParseExpr(PrintFields(f)).Ok?
    ensures var spec := ParseExpr(PrintFields(f)).value;
            && (forall v :: v in spec.minutes <==> FieldDenotes(f.minute, 0, 59, v))
            && (forall v :: v in spec.hours <==> FieldDenotes(f.hour, 0, 23, v))
            && (forall v :: v in spec.days <==> FieldDenotes(f.day, 1, 31, v))
            && (forall v :: v in spec.months <==> FieldDenotes(f.month, 1, 12, v))
            && (forall w :: w in spec.weekdays <==> exists v :: FieldDenotes(f.weekday, 0, 7, v) && w == NormalizeWeekday(v))
  {
    PrintedWords(f);
    ParsePrintedField(f.minute, 0, 59);
    ParsePrintedField(f.hour, 0, 23);
    ParsePrintedField(f.day, 1, 31);
    ParsePrintedField(f.month, 1, 12);
    ParsePrintedField(f.weekday, 0, 7);
  }

  /** Some month and day that the fields admit make a date of a common year. */
  ghost predicate DenotesCommonDate(f: Fields) {
    exists m, d :: CommonDate(f, m, d)
  }

  ghost predicate CommonDate(f: Fields, m: int, d: int) {
    1 <= m <= 12 && 1 <= d <= Calendar.DaysInMonth(1, m) && FieldDenotes(f.month, 1, 12, m) && FieldDenotes(f.day, 1, 31, d)
  }

  /** From text to schedule: such an expression whose weekday field has a star is accepted and runs from every start. */
  lemma PrintedExpressionNeverRaises(f: Fields, i: nat)
    requires f.Valid() && i < |f.weekday| && f.weekday[i] == Plain(Star) && DenotesCommonDate(f)
    ensures ParseExpr(PrintFields(f)).Ok? && NeverRaises(ParseExpr(PrintFields(f)).value.Matches)
  {
    ParsePrintedExpression(f);
    ParsedIsWellFormed(PrintFields(f));
    var spec := ParseExpr(PrintFields(f)).value;
    forall w | 0 <= w <= 6 ensures w in spec.weekdays {
      assert Denotes(f.weekday[i], 0, 7, w + 1);
      assert FieldDenotes(f.weekday, 0, 7, w + 1) && NormalizeWeekday(w + 1) == w;
    }
    var m, d :| CommonDate(f, m, d);
    assert spec.IsCommonDate(m, d);
    RunsFromEveryStart(spec);
  }

  /** The text of a daily expression. */
  function DailyText(m: nat, h: nat): string {
    Decimal(m) + " " + (Decimal(h) + " " + "* * *")
  }

  lemma DailyIsPrinted(m: nat, h: nat) returns (f: Fields)
    requires m <= 59 && h <= 23
    ensures f.Valid() && PrintFields(f) == DailyText(m, h)
    ensures f.minute == [Plain(Single(m))] && f.hour == [Plain(Single(h))] && f.day == f.month == f.weekday == [Plain(Star)]
  {
    f := Fields([Plain(Single(m))], [Plain(Single(h))], [Plain(Star)], [Plain(Star)], [Plain(Star)]);
    assert "*" + " " + ("*" + " " + "*") == "* * *";
  }

  lemma OneTokenDenotes(ts: seq<Token>, lo: int, hi: int, v: int)
    requires |ts| == 1
    ensures FieldDenotes(ts, lo, hi, v) <==> Denotes(ts[0], lo, hi, v)
  {
    if Denotes(ts[0], lo, hi, v) { assert 0 < |ts|; }
  }

  /** "m h * * *" is accepted and admits exactly minute `m` of hour `h`, every day. */
  lemma DailyTextIsDaily(m: nat, h: nat)
    requires m <= 59 && h <= 23
    ensures ParseExpr(DailyText(m, h)).Ok? && Daily(ParseExpr(DailyText(m, h)).value, h, m)
  {
    var f := DailyIsPrinted(m, h);
    ParsePrintedExpression(f);
    var spec := ParseExpr(PrintFields(f)).value;
    forall v ensures v in spec.minutes <==> v == m { OneTokenDenotes(f.minute, 0, 59, v); }
    forall v ensures v in spec.hours <==> v == h { OneTokenDenotes(f.hour, 0, 23, v); }
    forall v | 1 <= v <= 31 ensures v in spec.days { OneTokenDenotes(f.day, 1, 31, v); }
    forall v | 1 <= v <= 12 ensures v in spec.months { OneTokenDenotes(f.month, 1, 12, v); }
    forall w | 0 <= w <= 6 ensures w in spec.weekdays {
      OneTokenDenotes(f.weekday, 0, 7, w + 1);
      assert FieldDenotes(f.weekday, 0, 7, w + 1) && NormalizeWeekday(w + 1) == w;
    }
  }

  /** End to end: the expression "m h * * *" runs at `h:m` of the day of the start if that is still to come, otherwise of the next. */
  lemma DailyTextRuns(m: nat, h: nat, t: int, r: Option<int>)
    requires m <= 59 && h <= 23 && t + 1 >= FIRST_MINUTE
    requires ParseExpr(DailyText(m, h)).Ok? ==> IsNextRun(ParseExpr(DailyText(m, h)).value.Matches, t, r)
    ensures ParseExpr(DailyText(m, h)).Ok?
    ensures r == Some((if t % 1440 < h * 60 + m then t / 1440 else t / 1440 + 1) * 1440 + (h * 60 + m))
  {
    DailyTextIsDaily(m, h);
    DailyRunsNext(ParseExpr(DailyText(m, h)).value, h, m, t, r);
  }
}
