/**
 Strings as the Go program uses them: splitting, joining, trimming, decimal
 rendering and the byte-wise order of sort.Strings. Comparing code points in
 order agrees with comparing UTF-8 bytes in order, so `string` loses nothing.
 */
module Text {
  import opened Ordering

  // ---- white space and trimming (strings.TrimSpace) ----

  /** The characters unicode.IsSpace accepts. */
  predicate IsSpace(c: char) {
    || '\t' <= c <= '\r' || c == ' ' || c == '\U{0085}' || c == '\U{00A0}' || c == '\U{1680}'
    || '\U{2000}' <= c <= '\U{200A}' || c == '\U{2028}' || c == '\U{2029}' || c == '\U{202F}'
    || c == '\U{205F}' || c == '\U{3000}'
  }

  function TrimLeft(s: string): (r: string)
    ensures |r| <= |s|
  {
    if s != [] && IsSpace(s[0]) then TrimLeft(s[1..]) else s
  }

  function TrimRight(s: string): (r: string)
    ensures |r| <= |s|
  {
    if s != [] && IsSpace(s[|s| - 1]) then TrimRight(s[..|s| - 1]) else s
  }

  function Trim(s: string): (r: string) {
    TrimRight(TrimLeft(s))
  }

  /** Trimming drops white space only. */
  lemma {:induction false} TrimKeeps(s: string, c: char)
    requires c in s && !IsSpace(c)
    ensures c in Trim(s)
  {
    TrimLeftKeeps(s, c);
    TrimRightKeeps(TrimLeft(s), c);
  }

  lemma {:induction false} TrimLeftKeeps(s: string, c: char)
    requires c in s && !IsSpace(c)
    ensures c in TrimLeft(s)
  {
    if IsSpace(s[0]) { TrimLeftKeeps(s[1..], c); }
  }

  lemma {:induction false} TrimRightKeeps(s: string, c: char)
    requires c in s && !IsSpace(c)
    ensures c in TrimRight(s)
  {
    if IsSpace(s[|s| - 1]) {
      assert s == s[..|s| - 1] + [s[|s| - 1]];
      TrimRightKeeps(s[..|s| - 1], c);
    }
  }

  /** A string that neither starts nor ends with white space is left alone. */
  lemma {:induction false} TrimIdentity(s: string)
    requires s == [] || (!IsSpace(s[0]) && !IsSpace(s[|s| - 1]))
    ensures Trim(s) == s
  {
  }

  predicate Blank(s: string) { forall i :: 0 <= i < |s| ==> IsSpace(s[i]) }

  predicate Trimmed(s: string) { s == [] || (!IsSpace(s[0]) && !IsSpace(s[|s| - 1])) }

  /** White space around a text is dropped, whatever its amount. */
  lemma {:induction false} TrimPadded(before: string, s: string, after: string)
    requires Blank(before) && Trimmed(s) && Blank(after)
    ensures Trim(before + s + after) == s
  {
    if before != [] {
      assert (before + s + after)[1..] == before[1..] + s + after;
      TrimPadded(before[1..], s, after);
    } else if s == [] {
      BlankDropped(after);
      assert before + s + after == after;
    } else {
      assert before + s + after == s + after;
      TrimRightPadded(s, after);
    }
  }

  lemma {:induction false} BlankDropped(s: string)
    requires Blank(s)
    ensures TrimLeft(s) == []
  {
    if s != [] { BlankDropped(s[1..]); }
  }

  lemma {:induction false} TrimRightPadded(s: string, after: string)
    requires s != [] && Trimmed(s) && Blank(after)
    ensures TrimRight(s + after) == s
  {
    if after == [] {
      assert s + after == s;
    } else {
      var n := |after| - 1;
      assert (s + after)[..|s| + n] == s + after[..n];
      assert (s + after)[|s| + n] == after[n];
      TrimRightPadded(s, after[..n]);
    }
  }

  /** Every text is a trimmed one with white space around it. */
  lemma {:induction false} TrimSplits(s: string) returns (before: string, after: string)
    ensures s == before + Trim(s) + after && Blank(before) && Blank(after) && Trimmed(Trim(s))
  {
    var left := TrimLeft(s);
    before := LeadingBlank(s);
    after := TrailingBlank(left);
    assert s == before + (Trim(s) + after);
    TrimRightEnds(left);
  }

  lemma {:induction false} LeadingBlank(s: string) returns (before: string)
    ensures s == before + TrimLeft(s) && Blank(before) && (TrimLeft(s) == [] || !IsSpace(TrimLeft(s)[0]))
  {
    before := [];
    if s != [] && IsSpace(s[0]) {
      before := LeadingBlank(s[1..]);
      before := [s[0]] + before;
      assert s == [s[0]] + s[1..];
    }
  }

  lemma {:induction false} TrailingBlank(s: string) returns (after: string)
    ensures s == TrimRight(s) + after && Blank(after)
  {
    after := [];
    if s != [] && IsSpace(s[|s| - 1]) {
      after := TrailingBlank(s[..|s| - 1]);
      after := after + [s[|s| - 1]];
      assert s == s[..|s| - 1] + [s[|s| - 1]];
    }
  }

  lemma {:induction false} TrimRightEnds(s: string)
    requires s == [] || !IsSpace(s[0])
    ensures Trimmed(TrimRight(s))
  {
    if s != [] && IsSpace(s[|s| - 1]) { TrimRightEnds(s[..|s| - 1]); }
  }

  // ---- strings.Split and strings.Join with a one-character separator ----

  function Split(s: string, sep: char): (parts: seq<string>)
    ensures |parts| > 0
  {
    if s == [] then [[]]
    else
      var rest := Split(s[1..], sep);
      if s[0] == sep then [[]] + rest else [[s[0]] + rest[0]] + rest[1..]
  }

  function Join(parts: seq<string>, sep: string): (s: string) {
    if |parts| == 0 then ""
    else if |parts| == 1 then parts[0]
    else parts[0] + sep + Join(parts[1..], sep)
  }

  /** Every character other than the separator survives in some part. */
  lemma {:induction false} SplitCovers(s: string, sep: char, c: char) returns (i: nat)
    requires c in s && c != sep
    ensures i < |Split(s, sep)| && c in Split(s, sep)[i]
  {
    if s[0] == c {
      i := 0;
    } else {
      var j := SplitCovers(s[1..], sep, c);
      i := if s[0] == sep then j + 1 else j;
    }
  }

  lemma {:induction false} SplitNone(s: string, sep: char)
    requires sep !in s
    ensures Split(s, sep) == [s]
  {
    if s != [] {
      SplitNone(s[1..], sep);
      assert [s[0]] + s[1..] == s;
    }
  }

  /** The first part ends at the first separator. */
  lemma {:induction false} SplitFirst(a: string, sep: char, rest: string)
    requires sep !in a
    ensures Split(a + [sep] + rest, sep) == [a] + Split(rest, sep)
  {
    var s := a + [sep] + rest;
    if a == [] {
      assert s[1..] == rest;
    } else {
      assert s[1..] == a[1..] + [sep] + rest;
      SplitFirst(a[1..], sep, rest);
      assert [a[0]] + a[1..] == a;
    }
  }

  /** Splitting undoes joining when no part holds the separator. */
  lemma {:induction false} SplitJoin(parts: seq<string>, sep: char)
    requires |parts| > 0
    requires forall i :: 0 <= i < |parts| ==> sep !in parts[i]
    ensures Split(Join(parts, [sep]), sep) == parts
  {
    if |parts| == 1 {
      SplitNone(parts[0], sep);
    } else {
      SplitFirst(parts[0], sep, Join(parts[1..], [sep]));
      SplitJoin(parts[1..], sep);
    }
  }

  /** Cutting two equal strings at the first `c` gives equal halves. */
  lemma {:induction false} CutInjective(a: string, x: string, b: string, y: string, c: char)
    requires c !in a && c !in b
    requires a + [c] + x == b + [c] + y
    ensures a == b && x == y
  {
    var s := a + [c] + x;
    assert s[0] == (b + [c] + y)[0];
    if a != [] && b != [] {
      assert s[1..] == a[1..] + [c] + x;
      assert s[1..] == b[1..] + [c] + y;
      CutInjective(a[1..], x, b[1..], y, c);
      assert a == [a[0]] + a[1..] && b == [b[0]] + b[1..];
    } else {
      assert a == [] && b == [];
      assert x == s[1..] && y == s[1..];
    }
  }

  // ---- decimal rendering (strconv.Itoa, %d) ----

  function Digit(d: nat): (c: char)
    requires d < 10
    ensures '0' <= c <= '9'
  {
    '0' + d as char
  }

  function Decimal(n: nat): (s: string)
    ensures |s| > 0
    ensures forall i :: 0 <= i < |s| ==> '0' <= s[i] <= '9'
  {
    if n < 10 then [Digit(n)] else Decimal(n / 10) + [Digit(n % 10)]
  }

  /** The number a digit string denotes, most significant digit first. */
  function DecimalValue(s: string): (n: nat)
    requires forall i :: 0 <= i < |s| ==> '0' <= s[i] <= '9'
  {
    if s == [] then 0 else DecimalValue(s[..|s| - 1]) * 10 + (s[|s| - 1] - '0') as nat
  }

  lemma {:induction false} DecimalRoundTrip(n: nat)
    ensures DecimalValue(Decimal(n)) == n
  {
    if n < 10 {
      assert [Digit(n)][..0] == [];
    } else {
      DecimalRoundTrip(n / 10);
      var s := Decimal(n);
      assert s[..|s| - 1] == Decimal(n / 10);
    }
  }

  lemma {:induction false} DecimalInjective(m: nat, n: nat)
    requires Decimal(m) == Decimal(n)
    ensures m == n
  {
    DecimalRoundTrip(m);
    DecimalRoundTrip(n);
  }

  /** strconv.FormatInt in base ten, also %d. */
  function FormatInt(n: int): string { if n < 0 then "-" + Decimal(-n) else Decimal(n) }

  lemma {:induction false} FormatIntInjective(m: int, n: int)
    requires FormatInt(m) == FormatInt(n)
    ensures m == n
  {
    assert m < 0 ==> FormatInt(m)[0] == '-';
    assert n < 0 ==> FormatInt(n)[0] == '-';
    if m < 0 {
      assert FormatInt(m)[1..] == Decimal(-m) && FormatInt(n)[1..] == Decimal(-n);
      DecimalInjective(-m, -n);
    } else {
      DecimalInjective(m, n);
    }
  }

  // ---- the order of sort.Strings ----

  predicate LessEq(a: string, b: string) {
    a == [] || (b != [] && (a[0] < b[0] || (a[0] == b[0] && LessEq(a[1..], b[1..]))))
  }

  lemma {:induction false} LessEqTotal(a: string, b: string)
    ensures LessEq(a, b) || LessEq(b, a)
    ensures LessEq(a, b) && LessEq(b, a) ==> a == b
  {
    if a != [] && b != [] { LessEqTotal(a[1..], b[1..]); }
  }

  lemma {:induction false} LessEqTransitive(a: string, b: string, c: string)
    requires LessEq(a, b) && LessEq(b, c)
    ensures LessEq(a, c)
  {
    if a != [] && a[0] == b[0] && b[0] == c[0] { LessEqTransitive(a[1..], b[1..], c[1..]); }
  }

  lemma {:induction false} StringOrder()
    ensures TotalOrder(LessEq)
  {
    forall a, b ensures LessEq(a, b) || LessEq(b, a) { LessEqTotal(a, b); }
    forall a, b | LessEq(a, b) && LessEq(b, a) ensures a == b { LessEqTotal(a, b); }
    forall a, b, c | LessEq(a, b) && LessEq(b, c) ensures LessEq(a, c) { LessEqTransitive(a, b, c); }
  }

  /** The keys of a Go map of strings, in the order sort.Strings leaves them. */
  lemma {:induction false} StringKeys(keys: set<string>)
    ensures Ascending(LessEq, SortedKeys(LessEq, keys), keys)
  {
    StringOrder();
    AscendingKeys(LessEq, keys);
  }
}
