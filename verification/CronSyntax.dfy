/**
 Which texts `monitor_cron` accepts: a grammar over characters, independent of the order in which
 the parser cuts the text up, and the proof that the parser accepts exactly what it describes.
 */
module CronSyntax {
  import opened Common
  import opened CronSchedule
  import opened CronParser
  import opened CronRoundTrip

  // ---- surrounding space ----

  ghost predicate AllSpace(s: string) {
    forall i :: 0 <= i < |s| ==> IsSpace(s[i])
  }

  /** No space at either end. */
  ghost predicate Tight(s: string) {
    s != "" ==> !IsSpace(s[0]) && !IsSpace(s[|s| - 1])
  }

  /** Space is the blank, tab to carriage return, and the four separators from 28 on. */
  lemma SpaceCharacters(c: char)
    ensures IsSpace(c) <==>
            c in {' ', '\t', '\n', '\r', 11 as char, 12 as char, 28 as char, 29 as char, 30 as char, 31 as char}
  {
  }

  ghost predicate Surrounds(a: string, t: string, b: string, s: string) {
    s == a + t + b && AllSpace(a) && AllSpace(b)
  }

  lemma {:induction false} TrimLeftTakesSpace(s: string) returns (a: string)
    ensures s == a + TrimLeft(s) && AllSpace(a)
    ensures TrimLeft(s) != "" ==> !IsSpace(TrimLeft(s)[0])
  {
    a := "";
    if s != "" && IsSpace(s[0]) {
      a := TrimLeftTakesSpace(s[1..]);
      a := [s[0]] + a;
    }
  }

  lemma {:induction false} TrimRightTakesSpace(s: string) returns (b: string)
    ensures s == TrimRight(s) + b && AllSpace(b)
    ensures TrimRight(s) != "" ==> !IsSpace(TrimRight(s)[|TrimRight(s)| - 1])
  {
    b := "";
    if s != "" && IsSpace(s[|s| - 1]) {
      b := TrimRightTakesSpace(s[..|s| - 1]);
      b := b + [s[|s| - 1]];
    }
  }

  lemma StripTakesSpace(s: string) returns (a: string, b: string)
    ensures Surrounds(a, Strip(s), b, s) && Tight(Strip(s))
  {
    a := TrimLeftTakesSpace(s);
    b := TrimRightTakesSpace(TrimLeft(s));
    if Strip(s) != "" { assert TrimLeft(s)[0] == Strip(s)[0]; }
  }

  lemma {:induction false} TrimLeftSkips(a: string, s: string)
    requires AllSpace(a) && (s != "" ==> !IsSpace(s[0]))
    ensures TrimLeft(a + s) == s
  {
    if a == "" { assert a + s == s; } else {
      TrimLeftSkips(a[1..], s);
      assert (a + s)[1..] == a[1..] + s;
    }
  }

  lemma {:induction false} TrimRightSkips(s: string, b: string)
    requires AllSpace(b) && (s != "" ==> !IsSpace(s[|s| - 1]))
    ensures TrimRight(s + b) == s
  {
    if b == "" { assert s + b == s; } else {
      TrimRightSkips(s, b[..|b| - 1]);
      assert (s + b)[..|s + b| - 1] == s + b[..|b| - 1];
    }
  }

  lemma {:induction false} TrimLeftAllSpace(s: string)
    requires AllSpace(s)
    ensures TrimLeft(s) == ""
  {
    if s != "" { TrimLeftAllSpace(s[1..]); }
  }

  /** Stripping is the only way to take the surrounding space off. */
  lemma StripIs(a: string, t: string, b: string, s: string)
    requires Surrounds(a, t, b, s) && Tight(t)
    ensures Strip(s) == t
  {
    if t == "" {
      TrimLeftAllSpace(s);
    } else {
      assert s == a + (t + b) && (t + b)[0] == t[0];
      TrimLeftSkips(a, t + b);
      TrimRightSkips(t, b);
    }
  }

  // ---- numbers ----

  /** Digits with single underscores between them. */
  ghost predicate Numeral(s: string) {
    s != "" && forall i :: 0 <= i < |s| ==> NumeralAt(s, i)
  }

  ghost predicate NumeralAt(s: string, i: int)
    requires 0 <= i < |s|
  {
    IsDigit(s[i]) || (s[i] == '_' && 0 < i < |s| - 1 && IsDigit(s[i - 1]) && IsDigit(s[i + 1]))
  }

  lemma NumeralEnds(s: string)
    requires Numeral(s)
    ensures IsDigit(s[0]) && IsDigit(s[|s| - 1]) && DigitsOnly(s)
  {
    assert NumeralAt(s, 0) && NumeralAt(s, |s| - 1);
    forall i | 0 <= i < |s| ensures IsDigit(s[i]) || s[i] == '_' { assert NumeralAt(s, i); }
  }

  lemma NumeralIff(s: string)
    ensures IsNumeral(s) <==> Numeral(s)
  {
    if Numeral(s) {
      NumeralEnds(s);
      forall i | 0 <= i < |s| - 1 && s[i] == '_' ensures s[i + 1] != '_' { assert NumeralAt(s, i); }
    }
    if IsNumeral(s) {
      forall i | 0 <= i < |s| ensures NumeralAt(s, i) {
        if s[i] == '_' { assert s[i - 1] != '_'; }
      }
    }
  }

  /** The digits without the underscores. */
  function Digits(s: string): string {
    if s == "" then "" else if s[|s| - 1] == '_' then Digits(s[..|s| - 1]) else Digits(s[..|s| - 1]) + [s[|s| - 1]]
  }

  function Zeros(n: nat): string {
    if n == 0 then "" else Zeros(n - 1) + "0"
  }

  ghost predicate DigitsOnly(s: string) {
    forall i :: 0 <= i < |s| ==> IsDigit(s[i]) || s[i] == '_'
  }

  lemma {:induction false} NoDigitsIsZero(s: string)
    requires DigitsOnly(s) && Digits(s) == ""
    ensures NumeralValue(s) == 0
  {
    if s != "" { NoDigitsIsZero(s[..|s| - 1]); }
  }

  lemma DecimalSnoc(v: nat, c: char)
    requires IsDigit(c)
    ensures v > 0 ==> Decimal(v * 10 + (c as int - '0' as int)) == Decimal(v) + [c]
    ensures Decimal(c as int - '0' as int) == [c]
  {
  }

  lemma {:induction false} ValueNonNegative(s: string)
    requires DigitsOnly(s)
    ensures NumeralValue(s) >= 0
  {
    if s != "" { ValueNonNegative(s[..|s| - 1]); }
  }

  /** The value of a numeral is the number whose decimal it writes, leading zeros and underscores aside. */
  lemma {:induction false} NumeralIsDecimal(s: string) returns (zeros: nat)
    requires DigitsOnly(s) && Digits(s) != ""
    ensures NumeralValue(s) >= 0 && Digits(s) == Zeros(zeros) + Decimal(NumeralValue(s))
  {
    var before, c := s[..|s| - 1], s[|s| - 1];
    ValueNonNegative(s);
    ValueNonNegative(before);
    if c == '_' {
      zeros := NumeralIsDecimal(before);
    } else {
      DecimalSnoc(NumeralValue(before), c);
      if Digits(before) == "" {
        NoDigitsIsZero(before);
        zeros := 0;
      } else {
        zeros := NumeralIsDecimal(before);
        if NumeralValue(before) == 0 {
          assert Zeros(zeros + 1) == Zeros(zeros) + Decimal(0);
          zeros := zeros + 1;
        }
      }
    }
  }

  /** Text `s` is the number `n`: optional space, an optional sign, a numeral, optional space. */
  ghost predicate Reads(s: string, n: int) {
    exists a, sign, body, b :: ReadsAs(s, n, a, sign, body, b)
  }

  ghost predicate ReadsAs(s: string, n: int, a: string, sign: string, body: string, b: string) {
    && Surrounds(a, sign + body, b, s) && (sign == "" || sign == "+" || sign == "-") && Numeral(body) && DigitsOnly(body)
    && n == if sign == "-" then -NumeralValue(body) else NumeralValue(body)
  }

  lemma SignedIsTight(sign: string, body: string)
    requires (sign == "" || sign == "+" || sign == "-") && Numeral(body)
    ensures Tight(sign + body)
  {
    NumeralEnds(body);
    assert (sign + body)[|sign + body| - 1] == body[|body| - 1];
  }

  lemma SignedParses(sign: string, body: string)
    requires (sign == "" || sign == "+" || sign == "-") && Numeral(body) && DigitsOnly(body)
    ensures ParseSigned(sign + body) == Some(if sign == "-" then -NumeralValue(body) else NumeralValue(body))
  {
    NumeralIff(body);
    NumeralEnds(body);
    if sign == "" { assert sign + body == body; } else { assert (sign + body)[1..] == body && (sign + body)[0] == sign[0]; }
  }

  lemma ReadsParses(s: string, n: int, a: string, sign: string, body: string, b: string)
    requires ReadsAs(s, n, a, sign, body, b)
    ensures ParseInt(s) == Some(n)
  {
    SignedIsTight(sign, body);
    StripIs(a, sign + body, b, s);
    SignedParses(sign, body);
  }

  /** `int(s)` succeeds exactly on those texts, with their value. */
  lemma ParseIntIff(s: string, n: int)
    ensures ParseInt(s) == Some(n) <==> Reads(s, n)
  {
    if Reads(s, n) {
      var a, sign, body, b :| ReadsAs(s, n, a, sign, body, b);
      ReadsParses(s, n, a, sign, body, b);
    }
    if ParseInt(s) == Some(n) {
      var t := Strip(s);
      var a, b := StripTakesSpace(s);
      if t != "" && (t[0] == '+' || t[0] == '-') {
        NumeralIff(t[1..]);
        assert t == [t[0]] + t[1..];
        assert ReadsAs(s, n, a, [t[0]], t[1..], b);
      } else {
        NumeralIff(t);
        assert t == "" + t;
        assert ReadsAs(s, n, a, "", t, b);
      }
    }
  }

  lemma ParseIntReads(s: string)
    requires ParseInt(s).Some?
    ensures Reads(s, ParseInt(s).value)
  {
    ParseIntIff(s, ParseInt(s).value);
  }

  // ---- tokens ----

  ghost predicate Ranges(base: string, l: string, r: string, start: int, end: int) {
    base == l + "-" + r && '-' !in l && Reads(l, start) && Reads(r, end)
  }

  /** A star, a number without a minus sign, or two numbers around the first minus sign. */
  ghost predicate BaseReads(base: string, lo: int, hi: int, start: int, end: int) {
    || (base == "*" && start == lo && end == hi)
    || ('-' !in base && Reads(base, start) && end == start)
    || (exists l, r :: Ranges(base, l, r, start, end))
  }

  ghost predicate Stepping(t: string, base: string, k: string, step: int) {
    t == base + "/" + k && '/' !in base && Reads(k, step)
  }

  /** A base, or a base and a number around the first slash. */
  ghost predicate TokenReads(t: string, lo: int, hi: int, start: int, end: int, step: int) {
    || ('/' !in t && step == 1 && BaseReads(t, lo, hi, start, end))
    || (exists base, k :: Stepping(t, base, k, step) && BaseReads(base, lo, hi, start, end))
  }

  /** The text is such a token, with a positive step and its numbers within the bounds. */
  ghost predicate Accepts(raw: string, lo: int, hi: int, start: int, end: int, step: int) {
    && lo <= start <= end <= hi && step > 0
    && exists a, t, b :: Surrounds(a, t, b, raw) && Tight(t) && TokenReads(t, lo, hi, start, end, step)
  }

  lemma StarIsNoNumber(n: int)
    ensures !Reads("*", n) && !Reads("", n)
  {
    ParseIntIff("*", n);
    ParseIntIff("", n);
  }

  lemma BaseParses(base: string, lo: int, hi: int, start: int, end: int)
    requires BaseReads(base, lo, hi, start, end)
    ensures ParseBase(base, lo, hi) == Ok((start, end))
  {
    if base == "*" {
      StarIsNoNumber(start);
    } else if '-' !in base {
      ParseIntIff(base, start);
    } else {
      var l, r :| Ranges(base, l, r, start, end);
      CutAt(l, '-', r);
      ParseIntIff(l, start);
      ParseIntIff(r, end);
    }
  }

  lemma ParsedBaseReads(base: string, lo: int, hi: int)
    requires ParseBase(base, lo, hi).Ok?
    ensures BaseReads(base, lo, hi, ParseBase(base, lo, hi).value.0, ParseBase(base, lo, hi).value.1)
  {
    if base != "*" {
      if '-' in base {
        var (l, r) := Cut(base, '-');
        ParseIntReads(l);
        ParseIntReads(r);
        assert Ranges(base, l, r, ParseInt(l).value, ParseInt(r).value);
      } else {
        ParseIntReads(base);
      }
    }
  }

  lemma TokenParses(raw: string, lo: int, hi: int, start: int, end: int, step: int, a: string, t: string, b: string)
    requires lo <= start <= end <= hi && step > 0
    requires Surrounds(a, t, b, raw) && Tight(t) && TokenReads(t, lo, hi, start, end, step)
    ensures ParseToken(raw, lo, hi) == Ok(Progression(start, end, step))
  {
    StripIs(a, t, b, raw);
    if '/' !in t && step == 1 && BaseReads(t, lo, hi, start, end) {
      BaseParses(t, lo, hi, start, end);
      StarIsNoNumber(start);
    } else {
      var base, k :| Stepping(t, base, k, step) && BaseReads(base, lo, hi, start, end);
      CutAt(base, '/', k);
      ParseIntIff(k, step);
      BaseParses(base, lo, hi, start, end);
    }
  }

  lemma ParsedTokenReads(raw: string, lo: int, hi: int) returns (start: int, end: int, step: int)
    requires lo <= hi && ParseToken(raw, lo, hi).Ok?
    ensures Accepts(raw, lo, hi, start, end, step)
  {
    var t := Strip(raw);
    var a, b := StripTakesSpace(raw);
    if t == "*" {
      start, end, step := lo, hi, 1;
    } else if '/' in t {
      var (base, k) := Cut(t, '/');
      step := ParseInt(k).value;
      ParseIntReads(k);
      ParsedBaseReads(base, lo, hi);
      start, end := ParseBase(base, lo, hi).value.0, ParseBase(base, lo, hi).value.1;
      assert Stepping(t, base, k, step);
    } else {
      ParsedBaseReads(t, lo, hi);
      start, end, step := ParseBase(t, lo, hi).value.0, ParseBase(t, lo, hi).value.1, 1;
    }
  }

  /** A token is accepted exactly when its text is of that form, and is then read as that progression. */
  lemma TokenAcceptedIff(raw: string, lo: int, hi: int)
    requires lo <= hi
    ensures ParseToken(raw, lo, hi).Ok? <==> exists start, end, step :: Accepts(raw, lo, hi, start, end, step)
    ensures forall start, end, step :: Accepts(raw, lo, hi, start, end, step) ==>
              ParseToken(raw, lo, hi) == Ok(Progression(start, end, step))
  {
    forall start, end, step | Accepts(raw, lo, hi, start, end, step)
      ensures ParseToken(raw, lo, hi) == Ok(Progression(start, end, step))
    {
      var a, t, b :| Surrounds(a, t, b, raw) && Tight(t) && TokenReads(t, lo, hi, start, end, step);
      TokenParses(raw, lo, hi, start, end, step, a, t, b);
    }
    if ParseToken(raw, lo, hi).Ok? {
      var start, end, step := ParsedTokenReads(raw, lo, hi);
    }
  }

  // ---- no other characters ----

  predicate Symbol(c: char) {
    IsDigit(c) || IsSpace(c) || c in {'_', '+', '-', '*', '/'}
  }

  ghost predicate AllSymbols(s: string) {
    forall i :: 0 <= i < |s| ==> Symbol(s[i])
  }

  lemma ReadsSymbols(s: string, n: int)
    requires Reads(s, n)
    ensures AllSymbols(s)
  {
    var a, sign, body, b :| ReadsAs(s, n, a, sign, body, b);
    assert forall i :: 0 <= i < |body| ==> Symbol(body[i]);
  }

  lemma BaseSymbols(base: string, lo: int, hi: int, start: int, end: int)
    requires BaseReads(base, lo, hi, start, end)
    ensures AllSymbols(base)
  {
    if base != "*" {
      if '-' !in base && Reads(base, start) {
        ReadsSymbols(base, start);
      } else {
        var l, r :| Ranges(base, l, r, start, end);
        ReadsSymbols(l, start);
        ReadsSymbols(r, end);
      }
    }
  }

  lemma TokenSymbols(t: string, lo: int, hi: int, start: int, end: int, step: int)
    requires TokenReads(t, lo, hi, start, end, step)
    ensures AllSymbols(t)
  {
    if '/' !in t && step == 1 && BaseReads(t, lo, hi, start, end) {
      BaseSymbols(t, lo, hi, start, end);
    } else {
      var base, k :| Stepping(t, base, k, step) && BaseReads(base, lo, hi, start, end);
      ReadsSymbols(k, step);
      BaseSymbols(base, lo, hi, start, end);
    }
  }

  lemma ParsedTokenSymbols(raw: string, lo: int, hi: int)
    requires lo <= hi && ParseToken(raw, lo, hi).Ok?
    ensures AllSymbols(raw)
  {
    var start, end, step := ParsedTokenReads(raw, lo, hi);
    var a, t, b :| Surrounds(a, t, b, raw) && Tight(t) && TokenReads(t, lo, hi, start, end, step);
    TokenSymbols(t, lo, hi, start, end, step);
  }

  /** A token that holds any other character is refused. */
  lemma ForeignTokenRefused(raw: string, lo: int, hi: int, i: nat)
    requires lo <= hi && i < |raw| && !Symbol(raw[i])
    ensures ParseToken(raw, lo, hi).Err?
  {
    if ParseToken(raw, lo, hi).Ok? { ParsedTokenSymbols(raw, lo, hi); }
  }

  // ---- fields and expressions ----

  function JoinOn(parts: seq<string>, sep: char): string
    requires parts != []
  {
    if |parts| == 1 then parts[0] else parts[0] + [sep] + JoinOn(parts[1..], sep)
  }

  /** Splitting is undone by joining, and no part holds the separator. */
  lemma {:induction false} SplitJoins(s: string, sep: char)
    ensures JoinOn(SplitOn(s, sep), sep) == s
    ensures forall k :: 0 <= k < |SplitOn(s, sep)| ==> sep !in SplitOn(s, sep)[k]
  {
    if s != "" {
      var rest := SplitOn(s[1..], sep);
      SplitJoins(s[1..], sep);
      if s[0] == sep {
        assert ([""] + rest)[1..] == rest;
        assert s == "" + [sep] + s[1..];
      } else if |rest| > 1 {
        assert ([[s[0]] + rest[0]] + rest[1..])[1..] == rest[1..];
      }
    }
  }

  lemma {:induction false} SplitCovers(s: string, sep: char, i: nat) returns (k: nat)
    requires i < |s| && s[i] != sep
    ensures k < |SplitOn(s, sep)| && s[i] in SplitOn(s, sep)[k]
  {
    k := 0;
    if i > 0 {
      k := SplitCovers(s[1..], sep, i - 1);
      if s[0] == sep { k := k + 1; }
    }
  }

  lemma ForeignFieldRefused(raw: string, lo: int, hi: int, i: nat)
    requires lo <= hi && i < |raw| && !Symbol(raw[i]) && raw[i] != ','
    ensures FieldOf(SplitOn(raw, ','), lo, hi).Err?
  {
    var parts := SplitOn(raw, ',');
    var k := SplitCovers(raw, ',', i);
    var j :| 0 <= j < |parts[k]| && parts[k][j] == raw[i];
    ForeignTokenRefused(parts[k], lo, hi, j);
    FieldIsUnion(parts, lo, hi);
  }

  lemma {:induction false} WordsCover(s: string, i: nat) returns (k: nat)
    requires i < |s| && !IsSpace(s[i])
    ensures k < |Words(s)| && s[i] in Words(s)[k]
  {
    k := 0;
    if i > 0 {
      k := WordsCover(s[1..], i - 1);
      if !IsSpace(s[0]) && IsSpace(s[1]) { k := k + 1; }
    }
  }

  /** An expression is accepted exactly when it has five words and each is accepted within the bounds of its field. */
  lemma FieldsDecide(expr: string, words: seq<string>)
    requires words == Words(Strip(expr))
    ensures |words| != 5 ==> ParseExpr(expr) == Err(NotFiveFields)
    ensures ParseExpr(expr).Ok? <==>
            && |words| == 5
            && FieldOf(SplitOn(words[0], ','), 0, 59).Ok? && FieldOf(SplitOn(words[1], ','), 0, 23).Ok?
            && FieldOf(SplitOn(words[2], ','), 1, 31).Ok? && FieldOf(SplitOn(words[3], ','), 1, 12).Ok?
            && FieldOf(SplitOn(words[4], ','), 0, 7).Ok?
  {
  }

  lemma ForeignWordRefused(expr: string, words: seq<string>, k: nat, j: nat)
    requires words == Words(Strip(expr)) && k < |words| && j < |words[k]| && !Symbol(words[k][j]) && words[k][j] != ','
    ensures ParseExpr(expr).Err?
  {
    FieldsDecide(expr, words);
    ForeignFieldRefused(words[k], 0, 59, j);
    ForeignFieldRefused(words[k], 0, 23, j);
    ForeignFieldRefused(words[k], 1, 31, j);
    ForeignFieldRefused(words[k], 1, 12, j);
    ForeignFieldRefused(words[k], 0, 7, j);
    if |words| == 5 { assert words[k] in [words[0], words[1], words[2], words[3], words[4]]; }
  }

  /** An expression that holds a character other than digits, space and `_ + - * / ,` is refused. */
  lemma ForeignExpressionRefused(expr: string, i: nat)
    requires i < |expr| && !Symbol(expr[i]) && expr[i] != ','
    ensures ParseExpr(expr).Err?
  {
    var a, b := StripTakesSpace(expr);
    var s := Strip(expr);
    assert expr[i] == s[i - |a|];
    var k := WordsCover(s, i - |a|);
    var j :| 0 <= j < |Words(s)[k]| && Words(s)[k][j] == expr[i];
    ForeignWordRefused(expr, Words(s), k, j);
  }

  /** Fields that are not empty and hold no space. */
  ghost predicate AreWords(fs: seq<string>) {
    forall k :: 0 <= k < |fs| ==> fs[k] != "" && NoSpace(fs[k])
  }

  function JoinFields(fs: seq<string>): string {
    if fs == [] then "" else JoinOn(fs, ' ')
  }

  lemma {:induction false} WordsOfFields(fs: seq<string>)
    requires AreWords(fs)
    ensures Words(JoinFields(fs)) == fs && Tight(JoinFields(fs)) && (fs != [] ==> JoinFields(fs) != "")
  {
    if |fs| == 1 {
      WordsPlain(fs[0]);
    } else if fs != [] {
      var rest := JoinFields(fs[1..]);
      WordsOfFields(fs[1..]);
      WordsCons(fs[0], rest);
      SpacedEnds(fs[0], rest);
    }
  }

  ghost predicate FieldAccepted(f: string, lo: int, hi: int) {
    forall k :: 0 <= k < |SplitOn(f, ',')| ==> PartAccepted(SplitOn(f, ',')[k], lo, hi)
  }

  ghost predicate PartAccepted(part: string, lo: int, hi: int) {
    exists start, end, step :: Accepts(part, lo, hi, start, end, step)
  }

  lemma FieldAcceptedIff(f: string, lo: int, hi: int)
    requires lo <= hi
    ensures FieldOf(SplitOn(f, ','), lo, hi).Ok? <==> FieldAccepted(f, lo, hi)
  {
    var parts := SplitOn(f, ',');
    FieldIsUnion(parts, lo, hi);
    forall k | 0 <= k < |parts| ensures ParseToken(parts[k], lo, hi).Ok? <==> PartAccepted(parts[k], lo, hi) {
      TokenAcceptedIff(parts[k], lo, hi);
    }
  }

  /** Fields joined by blanks are accepted exactly when there are five and every comma part of each has the form of a token within its bounds. */
  lemma ExpressionAcceptedIff(fs: seq<string>)
    requires AreWords(fs)
    ensures |fs| != 5 ==> ParseExpr(JoinFields(fs)) == Err(NotFiveFields)
    ensures ParseExpr(JoinFields(fs)).Ok? <==>
            && |fs| == 5
            && FieldAccepted(fs[0], 0, 59) && FieldAccepted(fs[1], 0, 23) && FieldAccepted(fs[2], 1, 31)
            && FieldAccepted(fs[3], 1, 12) && FieldAccepted(fs[4], 0, 7)
  {
    WordsOfFields(fs);
    StripPlain(JoinFields(fs));
    FieldsDecide(JoinFields(fs), fs);
    if |fs| == 5 {
      FieldAcceptedIff(fs[0], 0, 59);
      FieldAcceptedIff(fs[1], 0, 23);
      FieldAcceptedIff(fs[2], 1, 31);
      FieldAcceptedIff(fs[3], 1, 12);
      FieldAcceptedIff(fs[4], 0, 7);
    }
  }
}
