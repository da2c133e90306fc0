/** Money between integer fen and yuan text (pkg/payment/amount.go), in 64-bit arithmetic. */
module Amount {
  import opened Wrappers
  import opened Text

  const MAX64 := 0x7FFF_FFFF_FFFF_FFFF
  const MIN64 := -0x8000_0000_0000_0000
  const TWO64 := 0x1_0000_0000_0000_0000

  type Int64 = n: int | MIN64 <= n <= MAX64

  /** The 64-bit value of an integer result. */
  function Wrap(n: int): Int64 { (n + 0x8000_0000_0000_0000) % TWO64 - 0x8000_0000_0000_0000 }

  /** Go's quotient, rounded toward zero, and its remainder. */
  function Quotient(n: int, d: int): int
    requires d > 0
  {
    if n >= 0 then n / d else -((-n) / d)
  }

  function Remainder(n: int, d: int): int
    requires d > 0
  {
    n - Quotient(n, d) * d
  }

  /** %02d. */
  function Pad2(n: int): string { if 0 <= n < 10 then "0" + FormatInt(n) else FormatInt(n) }

  function FenToYuan(fen: Int64): string {
    if fen < 0 then
      var f := Wrap(-(fen as int));
      "-" + FormatInt(Quotient(f, 100)) + "." + Pad2(Remainder(f, 100))
    else FormatInt(Quotient(fen, 100)) + "." + Pad2(Remainder(fen, 100))
  }

  // ---- amounts as written ----

  predicate Digits(s: string) { forall i :: 0 <= i < |s| ==> '0' <= s[i] <= '9' }

  /** An amount's sign, its digits before the point and the zero, one or two after it. */
  datatype Amount = Amount(neg: bool, yuan: string, frac: string) {
    predicate WellFormed() { yuan != "" && Digits(yuan) && Digits(frac) && |frac| <= 2 }

    function Show(): string { (if neg then "-" else "") + yuan + if frac == "" then "" else "." + frac }

    function Cents(): nat
      requires WellFormed()
    {
      if frac == "" then 0 else if |frac| == 1 then 10 * DecimalValue(frac) else DecimalValue(frac)
    }

    /** What the text denotes, without regard to 64 bits. */
    function Magnitude(): nat
      requires WellFormed()
    {
      100 * DecimalValue(yuan) + Cents()
    }

    function Value(): int
      requires WellFormed()
    {
      if neg then -(Magnitude() as int) else Magnitude()
    }

    /** The guard of YuanStringToFen. */
    predicate Guarded()
      requires WellFormed()
    {
      DecimalValue(yuan) <= MAX64 / 100
    }

    /** What the code computes. */
    function Computed(): Int64
      requires WellFormed()
    {
      var total := Wrap(Magnitude());
      if neg then Wrap(-(total as int)) else total
    }
  }

  /** The code computes the denoted value exactly when it fits 64 bits. */
  lemma {:induction false} ComputedExact(a: Amount)
    requires a.WellFormed() && a.Guarded()
    ensures a.Computed() == a.Value() <==> MIN64 <= a.Value() <= MAX64
    ensures a.Computed() == a.Value() <==> a.Magnitude() <= MAX64 || (a.neg && a.Magnitude() == MAX64 + 1)
  {
    CentsSmall(a);
  }

  lemma {:induction false} CentsSmall(a: Amount)
    requires a.WellFormed()
    ensures a.Cents() < 100
  {
    if |a.frac| == 1 {
      assert a.frac[..0] == "";
      assert DecimalValue(a.frac) < 10;
    } else if |a.frac| == 2 {
      assert a.frac[..1][..0] == "" && |a.frac[..1]| == 1;
      assert DecimalValue(a.frac[..1]) < 10;
    }
  }

  // ---- reading is unambiguous ----

  lemma {:induction false} ShowInjective(a: Amount, b: Amount)
    requires a.WellFormed() && b.WellFormed() && a.Show() == b.Show()
    ensures a == b
  {
    SignFirst(a);
    SignFirst(b);
    assert a.neg == b.neg;
    Unprefix(if a.neg then "-" else "", Body(a), Body(b));
    BodyInjective(a, b);
  }

  lemma {:induction false} Unprefix(p: string, x: string, y: string)
    requires p + x == p + y
    ensures x == y
  {
    assert x == (p + x)[|p|..] && y == (p + y)[|p|..];
  }

  lemma {:induction false} BodyInjective(a: Amount, b: Amount)
    requires a.WellFormed() && b.WellFormed() && Body(a) == Body(b)
    ensures a.yuan == b.yuan && a.frac == b.frac
  {
    PointPlace(a);
    PointPlace(b);
    if a.frac != "" {
      assert Body(a) == a.yuan + ['.'] + a.frac && Body(b) == b.yuan + ['.'] + b.frac;
      CutInjective(a.yuan, a.frac, b.yuan, b.frac, '.');
    } else {
      assert Body(a) == a.yuan && Body(b) == b.yuan;
    }
  }

  function Body(a: Amount): string { a.yuan + if a.frac == "" then "" else "." + a.frac }

  lemma {:induction false} SignFirst(a: Amount)
    requires a.WellFormed()
    ensures a.Show() == (if a.neg then "-" else "") + Body(a)
    ensures a.Show() != "" && (a.Show()[0] == '-' <==> a.neg)
  {
  }

  lemma {:induction false} PointPlace(a: Amount)
    requires a.WellFormed()
    ensures '.' in Body(a) <==> a.frac != ""
    ensures '.' !in a.yuan
  {
    if a.frac != "" {
      assert Body(a)[|a.yuan|] == '.';
    }
  }

  // ---- printing ----

  /** The amount FenToYuan prints. */
  function Printed(fen: Int64): Amount
    requires fen != MIN64
  {
    var m := if fen < 0 then -(fen as int) else fen;
    Amount(fen < 0, Decimal(m / 100), if m % 100 < 10 then "0" + Decimal(m % 100) else Decimal(m % 100))
  }

  lemma {:induction false} PrintedShows(fen: Int64)
    requires fen != MIN64
    ensures Printed(fen).WellFormed() && Printed(fen).Show() == FenToYuan(fen)
    ensures Printed(fen).Value() == fen && Printed(fen).Guarded()
  {
    var m := if fen < 0 then -(fen as int) else fen;
    TwoDigits(m % 100);
    PrintedValue(fen);
    NegativePrints(fen);
    Glue(if fen < 0 then "-" else "", Decimal(m / 100), Pad2(m % 100));
  }

  lemma {:induction false} NegativePrints(fen: Int64)
    requires fen != MIN64
    ensures var m := if fen < 0 then -(fen as int) else fen;
      FenToYuan(fen) ==
        if fen < 0 then "-" + Decimal(m / 100) + "." + Pad2(m % 100)
        else Decimal(m / 100) + "." + Pad2(m % 100)
  {
    var m := if fen < 0 then -(fen as int) else fen;
    assert fen < 0 ==> Wrap(-(fen as int)) == m;
    assert Quotient(m, 100) == m / 100 && Remainder(m, 100) == m % 100;
  }

  lemma {:induction false} Glue(sign: string, y: string, c: string)
    ensures sign + y + ("." + c) == sign + y + "." + c
    ensures "" + y == y
  {
  }

  lemma {:induction false} PrintedValue(fen: Int64)
    requires fen != MIN64
    ensures Printed(fen).WellFormed() && Printed(fen).Value() == fen && Printed(fen).Guarded()
  {
    var m := if fen < 0 then -(fen as int) else fen;
    PrintedMagnitude(fen < 0, m);
  }

  lemma {:induction false} PrintedMagnitude(neg: bool, m: nat)
    requires m <= MAX64
    ensures var a := Amount(neg, Decimal(m / 100), if m % 100 < 10 then "0" + Decimal(m % 100) else Decimal(m % 100));
      a.WellFormed() && a.Magnitude() == m && a.Guarded()
  {
    TwoDigits(m % 100);
    DecimalRoundTrip(m / 100);
    assert m / 100 <= MAX64 / 100;
  }

  lemma {:induction false} TwoDigits(c: nat)
    requires c < 100
    ensures var s := if c < 10 then "0" + Decimal(c) else Decimal(c);
      |s| == 2 && Digits(s) && DecimalValue(s) == c && s == Pad2(c)
  {
    DecimalRoundTrip(c);
    if c < 10 {
      var s := "0" + Decimal(c);
      assert s[..1] == "0" && s[..1][..0] == "";
      assert DecimalValue("0") == 0;
    } else {
      assert Decimal(c) == Decimal(c / 10) + [Digit(c % 10)];
    }
  }

  // ---- parsing ----

  ghost predicate Reads(a: Amount, t: string) { a.WellFormed() && a.Guarded() && a.Show() == t }

  /** What an amount text means to the parser: nothing is zero, anything else must be a guarded amount. */
  ghost function Parse(s: string): Option<Int64> {
    var t := Trim(s);
    if t == "" then Some(0)
    else if exists a :: Reads(a, t) then Some(Reading(t).Computed())
    else None
  }

  ghost function Reading(t: string): (a: Amount)
    requires exists a :: Reads(a, t)
    ensures Reads(a, t)
  {
    var a :| Reads(a, t); a
  }

  lemma {:induction false} ParseReads(s: string, a: Amount)
    requires Reads(a, Trim(s))
    ensures Parse(s) == Some(a.Computed())
  {
    SignFirst(a);
    ShowInjective(a, Reading(Trim(s)));
  }

  /** A guarded amount parses to its exact value if and only if that value fits 64 bits. */
  lemma {:induction false} ParseExact(s: string, a: Amount)
    requires Reads(a, Trim(s))
    ensures Parse(s) == Some(a.Value()) <==> MIN64 <= a.Value() <= MAX64
  {
    ParseReads(s, a);
    ComputedExact(a);
  }

  /** Amounts that fit are never refused. */
  lemma {:induction false} FittingAccepted(s: string, a: Amount)
    requires a.WellFormed() && a.Show() == Trim(s) && a.Magnitude() <= MAX64
    ensures Parse(s) == Some(a.Value())
  {
    assert a.Guarded();
    ParseExact(s, a);
  }

  /** The guard lets amounts through that do not fit, and the parser returns the wrong sign for them. */
  lemma {:induction false} GuardTooWeak()
    ensures var a := Amount(false, Decimal(MAX64 / 100), "08");
      a.WellFormed() && a.Value() == MAX64 + 1 && Parse(a.Show()) == Some(MIN64)
  {
    var a := Amount(false, Decimal(MAX64 / 100), "08");
    LeastOverflow();
    ShowTrimmed(a);
    ParseReads(a.Show(), a);
  }

  lemma {:induction false} LeastOverflow()
    ensures var a := Amount(false, Decimal(MAX64 / 100), "08");
      a.WellFormed() && a.Guarded() && a.Value() == MAX64 + 1 && a.Computed() == MIN64
  {
    DecimalRoundTrip(MAX64 / 100);
    TwoDigits(8);
    assert Decimal(8) == [Digit(8)];
    assert "0" + Decimal(8) == "08";
  }

  /** Printing then parsing gives the amount back, for every 64-bit amount but the least. */
  lemma {:induction false} PrintParse(fen: Int64)
    ensures Parse(FenToYuan(fen)) == Some(fen) <==> fen != MIN64
  {
    if fen != MIN64 {
      PrintedShows(fen);
      var a := Printed(fen);
      ShowTrimmed(a);
      ParseExact(FenToYuan(fen), a);
    } else {
      LeastRefused();
    }
  }

  lemma {:induction false} ShowTrimmed(a: Amount)
    requires a.WellFormed()
    ensures Trim(a.Show()) == a.Show()
  {
    var t := a.Show();
    assert t[|t| - 1] == if a.frac == "" then a.yuan[|a.yuan| - 1] else a.frac[|a.frac| - 1];
    assert t[0] == if a.neg then '-' else a.yuan[0];
    TrimIdentity(t);
  }

  /** The least amount prints with two signs, which nothing reads. */
  lemma {:induction false} LeastRefused()
    ensures Parse(FenToYuan(MIN64)) == None
  {
    var t := FenToYuan(MIN64);
    LeastText();
    TrimIdentity(t);
    forall a: Amount ensures !Reads(a, t) {
      if a.WellFormed() {
        SignFirst(a);
        assert a.neg ==> a.Show()[1] == a.yuan[0];
      }
    }
  }

  lemma {:induction false} LeastText()
    ensures var t := FenToYuan(MIN64); |t| > 2 && t[0] == '-' && t[1] == '-' && t[|t| - 1] == '8'
  {
    assert Wrap(-MIN64) == MIN64;
    var q, c := FormatInt(Quotient(MIN64, 100)), Pad2(Remainder(MIN64, 100));
    assert FenToYuan(MIN64) == "-" + q + "." + c;
    assert q[0] == '-';
    assert c == "-8" by {
      assert Remainder(MIN64, 100) == -8;
      assert Decimal(8) == [Digit(8)] == "8";
    }
  }

  /**
   The text is a sign for negative amounts only, the yuan without a leading zero,
   a point and two digits.
   */
  lemma {:induction false} PrintedShape(fen: Int64) returns (a: Amount)
    requires fen != MIN64
    ensures a.WellFormed() && a.Show() == FenToYuan(fen)
    ensures a.neg <==> fen < 0
    ensures |a.frac| == 2 && (a.yuan[0] == '0' ==> a.yuan == "0")
  {
    a := Printed(fen);
    var m := if fen < 0 then -(fen as int) else fen;
    PrintedShows(fen);
    TwoDigits(m % 100);
    NoLeadingZero(m / 100);
  }

  lemma {:induction false} NoLeadingZero(n: nat)
    ensures Decimal(n) != "" && (Decimal(n)[0] == '0' ==> n == 0)
    ensures Decimal(0) == "0"
  {
    if n >= 10 { NoLeadingZero(n / 10); }
  }

  /** White space around an amount does not change what it means. */
  lemma {:induction false} PaddedParses(before: string, s: string, after: string)
    requires Blank(before) && Blank(after)
    ensures Parse(before + s + after) == Parse(s)
  {
    var b, a := TrimSplits(s);
    assert before + s + after == (before + b) + Trim(s) + (a + after);
    TrimPadded(before + b, Trim(s), a + after);
  }

  /** Different amounts print differently. */
  lemma {:induction false} PrintInjective(m: Int64, n: Int64)
    requires FenToYuan(m) == FenToYuan(n)
    ensures m == n
  {
    PrintParse(m);
    PrintParse(n);
    LeastRefused();
  }

  // ---- the parser ----

  /** strings.IndexByte: the first place of c, or -1. */
  function IndexOf(s: string, c: char): (i: int)
    ensures -1 <= i < |s|
    ensures i == -1 ==> c !in s
    ensures i >= 0 ==> s[i] == c && c !in s[..i]
  {
    if s == "" then -1
    else if s[0] == c then 0
    else
      var i := IndexOf(s[1..], c);
      if i < 0 then -1 else assert s[..i + 1] == [s[0]] + s[1..][..i]; i + 1
  }

  /** strings.Count of one character. */
  function Count(s: string, c: char): nat {
    if s == "" then 0 else (if s[0] == c then 1 else 0) + Count(s[1..], c)
  }

  lemma {:induction false} CountNone(s: string, c: char)
    requires c !in s
    ensures Count(s, c) == 0
  {
    if s != "" {
      CountNone(s[1..], c);
    }
  }

  lemma {:induction false} CountAppend(s: string, t: string, c: char)
    ensures Count(s + t, c) == Count(s, c) + Count(t, c)
  {
    if s == "" {
      assert s + t == t;
    } else {
      CountAppend(s[1..], t, c);
      assert (s + t)[1..] == s[1..] + t;
    }
  }

  /** What stands before and after the first point. */
  function YuanPart(s: string): string { if IndexOf(s, '.') < 0 then s else s[..IndexOf(s, '.')] }

  function FracPart(s: string): string { if IndexOf(s, '.') < 0 then "" else s[IndexOf(s, '.') + 1..] }

  /** The parser's checks on an unsigned amount. */
  predicate Shaped(s: string) {
    && s != "" && Count(s, '.') <= 1
    && ('.' in s ==> 0 < |FracPart(s)| <= 2 && Digits(FracPart(s)))
    && YuanPart(s) != "" && Digits(YuanPart(s))
  }

  predicate Accepted(s: string) { Shaped(s) && DecimalValue(YuanPart(s)) <= MAX64 / 100 }

  ghost predicate Readable(a: Amount, body: string) { a.WellFormed() && a.Guarded() && Body(a) == body }

  lemma {:induction false} BodyCount(a: Amount)
    requires a.WellFormed()
    ensures Count(Body(a), '.') <= 1
  {
    CountNone(a.yuan, '.');
    if a.frac == "" {
      assert Body(a) == a.yuan;
    } else {
      CountNone(a.frac, '.');
      CountAppend(a.yuan, "." + a.frac, '.');
      assert ("." + a.frac)[1..] == a.frac;
    }
  }

  /** The one way to take a body apart. */
  lemma {:induction false} BodyParts(a: Amount)
    requires a.WellFormed()
    ensures YuanPart(Body(a)) == a.yuan && FracPart(Body(a)) == a.frac
  {
    var body := Body(a);
    PointPlace(a);
    if a.frac == "" {
      assert body == a.yuan;
    } else {
      PartsCut(body);
      assert body == a.yuan + ['.'] + a.frac;
      CutInjective(YuanPart(body), FracPart(body), a.yuan, a.frac, '.');
    }
  }

  lemma {:induction false} PartsCut(s: string)
    ensures '.' in s ==> s == YuanPart(s) + ['.'] + FracPart(s)
    ensures '.' !in s ==> s == YuanPart(s) && FracPart(s) == ""
    ensures '.' !in YuanPart(s)
  {
  }

  /** The checks pass on exactly the bodies of guarded amounts, and on each it is the parts that are read. */
  lemma {:induction false} AcceptedExactly(s: string)
    ensures Accepted(s) <==> exists a: Amount :: Readable(a, s)
    ensures Accepted(s) ==> Readable(Amount(false, YuanPart(s), FracPart(s)), s)
  {
    if Accepted(s) {
      PartsRead(s);
    }
    forall a: Amount | Readable(a, s) ensures Accepted(s) {
      BodyCount(a);
      BodyParts(a);
      PointPlace(a);
    }
  }

  lemma {:induction false} PartsRead(s: string)
    requires Accepted(s)
    ensures Readable(Amount(false, YuanPart(s), FracPart(s)), s)
  {
    PartsCut(s);
  }

  /** allDigits: at least one byte, and only digits. */
  method AllDigits(s: string) returns (r: bool)
    ensures r <==> s != "" && Digits(s)
  {
    if s == "" {
      return false;
    }
    var i := 0;
    while i < |s|
      invariant 0 <= i <= |s| && Digits(s[..i])
    {
      if s[i] < '0' || s[i] > '9' {
        return false;
      }
      i := i + 1;
    }
    assert s[..|s|] == s;
    return true;
  }

  /** strconv.ParseInt of a digit string: refused above MaxInt64. */
  function ParseInt(s: string): Option<int>
    requires Digits(s)
  {
    if DecimalValue(s) <= MAX64 then Some(DecimalValue(s)) else None
  }

  /** The cents a checked fraction stands for. */
  method ParseCents(frac: string) returns (fen: nat)
    requires Digits(frac) && |frac| <= 2
    ensures fen == Amount(false, "0", frac).Cents()
  {
    var fracPart := frac;
    if |fracPart| == 1 {
      AppendZero(fracPart);
      fracPart := fracPart + "0";
    }
    fen := 0;
    if fracPart != "" {
      fen := DecimalValue(fracPart);
    }
  }

  /** The parts of an unsigned amount of the right shape. */
  method SplitParts(s: string) returns (parts: Option<(string, string)>)
    ensures parts.Some? <==> Shaped(s)
    ensures parts.Some? ==> parts.value == (YuanPart(s), FracPart(s))
  {
    if s == "" || Count(s, '.') > 1 {
      return None;
    }
    var intPart, fracPart := s, "";
    var i := IndexOf(s, '.');
    assert i >= 0 <==> '.' in s;
    if i >= 0 {
      intPart, fracPart := s[..i], s[i + 1..];
      assert fracPart == FracPart(s);
      var ok := AllDigits(fracPart);
      if |fracPart| == 0 || |fracPart| > 2 || !ok {
        return None;
      }
    }
    var ok := AllDigits(intPart);
    if !ok {
      return None;
    }
    assert intPart == YuanPart(s) && fracPart == FracPart(s);
    parts := Some((intPart, fracPart));
  }

  /** The unsigned part of YuanStringToFen: the fen total in 64 bits. */
  method ParseBody(s: string) returns (total: Option<Int64>)
    ensures total.Some? <==> Accepted(s)
    ensures total.Some? ==> total.value == Wrap(Amount(false, YuanPart(s), FracPart(s)).Magnitude())
  {
    var parts := SplitParts(s);
    if parts.None? {
      return None;
    }
    var yuan := ParseInt(parts.value.0);
    if yuan.None? {
      return None;
    }
    var fen := ParseCents(parts.value.1);
    if yuan.value > MAX64 / 100 {
      return None;
    }
    total := Some(Wrap(yuan.value * 100 + fen));
  }

  lemma {:induction false} AppendZero(s: string)
    requires Digits(s)
    ensures Digits(s + "0") && DecimalValue(s + "0") == 10 * DecimalValue(s)
  {
    assert (s + "0")[..|s|] == s;
  }

  /** YuanStringToFen: none stands for ErrInvalidRequest. */
  method YuanStringToFen(s: string) returns (r: Option<Int64>)
    ensures r == Parse(s)
  {
    var t := Trim(s);
    if t == "" {
      return Some(0);
    }
    var neg, body := false, t;
    if t[0] == '-' {
      neg, body := true, t[1..];
    }
    r := ParseBody(body);
    SignedTotal(s, neg, body, r);
    if r.Some? && neg {
      r := Some(Wrap(-(r.value as int)));
    }
  }

  /** The body's total, with its sign, is what the whole text means. */
  lemma {:induction false} SignedTotal(s: string, neg: bool, body: string, total: Option<Int64>)
    requires var t := Trim(s); t != "" && neg == (t[0] == '-') && body == t[if neg then 1 else 0..]
    requires total.Some? <==> Accepted(body)
    requires total.Some? ==> total.value == Wrap(Amount(false, YuanPart(body), FracPart(body)).Magnitude())
    ensures Parse(s) == if total.None? then None else if neg then Some(Wrap(-(total.value as int))) else total
  {
    ParsedBody(s, neg, body);
  }

  /** What the checks on the body decide about the whole text. */
  lemma {:induction false} ParsedBody(s: string, neg: bool, body: string)
    requires var t := Trim(s); t != "" && neg == (t[0] == '-') && body == t[if neg then 1 else 0..]
    ensures !Accepted(body) ==> Parse(s) == None
    ensures Accepted(body) ==> Parse(s) == Some(Amount(neg, YuanPart(body), FracPart(body)).Computed())
  {
    var t := Trim(s);
    AcceptedExactly(body);
    if Accepted(body) {
      var a := Amount(neg, YuanPart(body), FracPart(body));
      assert Readable(Amount(false, YuanPart(body), FracPart(body)), body);
      assert Body(a) == body;
      SignFirst(a);
      ParseReads(s, a);
    } else {
      forall a: Amount ensures !Reads(a, t) {
        if a.WellFormed() && a.Show() == t {
          SignFirst(a);
          assert Body(a) == body && !Readable(a, body);
        }
      }
    }
  }
}
