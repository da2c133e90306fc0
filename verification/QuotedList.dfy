/** The values of a MySQL enum or set column type (splitQuotedList in internal/database/gen/typemap.go). */
module QuotedList {

  // ---- how a list is written ----

  /** What f gives for the items, one after the other. */
  function FlatMap<A, B>(f: A -> seq<B>, s: seq<A>): seq<B> {
    if s == [] then [] else f(s[0]) + FlatMap(f, s[1..])
  }

  lemma {:induction false} FlatMapAppend<A, B>(f: A -> seq<B>, s: seq<A>, t: seq<A>)
    ensures FlatMap(f, s + t) == FlatMap(f, s) + FlatMap(f, t)
  {
    if s == [] {
      assert s + t == t;
    } else {
      FlatMapAppend(f, s[1..], t);
      assert (s + t)[1..] == s[1..] + t && (s + t)[0] == s[0];
    }
  }

  function DoubleQuote(c: char): string { if c == '\'' then "''" else [c] }

  /** Each quote in the value is doubled. */
  function Doubled(v: string): string { FlatMap(DoubleQuote, v) }

  function Quoted(v: string): string { "'" + Doubled(v) + "'" }

  /** The quoted values with the given text between successive ones. */
  function Written(values: seq<string>, between: seq<string>): string
    requires |between| == |values|
  {
    if values == [] then ""
    else if |values| == 1 then Quoted(values[0])
    else Quoted(values[0]) + between[0] + Written(values[1..], between[1..])
  }

  /** The values joined with commas, as MySQL reports them. */
  function CommaList(values: seq<string>): string { Written(values, seq(|values|, _ => ",")) }

  // ---- how it is read ----

  /** The values read from s, starting inside a quote with `cur` collected so far or outside one. */
  function Scan(s: string, inQuote: bool, cur: string): seq<string> {
    if s == "" then []
    else if s[0] == '\'' && !inQuote then Scan(s[1..], true, cur)
    else if s[0] == '\'' then
      if |s| > 1 && s[1] == '\'' then Scan(s[2..], true, cur + "'") else [cur] + Scan(s[1..], false, "")
    else if inQuote then Scan(s[1..], true, cur + [s[0]])
    else Scan(s[1..], false, cur)
  }

  method SplitQuotedList(s: string) returns (values: seq<string>)
    ensures values == Scan(s, false, "")
  {
    values := [];
    var cur := "";
    var inQuote := false;
    var i := 0;
    while i < |s|
      invariant 0 <= i <= |s|
      invariant values + Scan(s[i..], inQuote, cur) == Scan(s, false, "")
    {
      var c := s[i];
      ghost var rest := s[i..];
      assert rest[1..] == s[i + 1..];
      if c == '\'' && !inQuote {
        inQuote := true;
      } else if c == '\'' && inQuote {
        if i + 1 < |s| && s[i + 1] == '\'' {
          assert rest[2..] == s[i + 2..];
          cur := cur + "'";
          i := i + 2;
          continue;
        }
        inQuote := false;
        values := values + [cur];
        cur := "";
      } else if inQuote {
        cur := cur + [c];
      }
      i := i + 1;
    }
  }

  // ---- reading what was written ----

  predicate NoQuote(s: string) { forall i :: 0 <= i < |s| ==> s[i] != '\'' }

  /** From inside a quote, a doubled value and its closing quote give the value, unless another quote follows. */
  lemma {:induction false} ScanValue(v: string, rest: string, cur: string)
    requires rest == "" || rest[0] != '\''
    ensures Scan(Doubled(v) + "'" + rest, true, cur) == [cur + v] + Scan(rest, false, "")
  {
    var s := Doubled(v) + "'" + rest;
    if v == "" {
      assert s[1..] == rest;
      assert cur + v == cur;
    } else {
      var tail := Doubled(v[1..]) + "'" + rest;
      ScanValue(v[1..], rest, cur + [v[0]]);
      assert cur + [v[0]] + v[1..] == cur + v;
      if v[0] == '\'' {
        assert s == "''" + tail && s[2..] == tail;
      } else {
        assert s == [v[0]] + tail && s[1..] == tail;
      }
    }
  }

  lemma {:induction false} ScanQuoted(v: string, rest: string)
    requires rest == "" || rest[0] != '\''
    ensures Scan(Quoted(v) + rest, false, "") == [v] + Scan(rest, false, "")
  {
    var s := Quoted(v) + rest;
    assert s[1..] == Doubled(v) + "'" + rest;
    ScanValue(v, rest, "");
    assert "" + v == v;
  }

  /** Text outside quotes is passed over. */
  lemma {:induction false} ScanBetween(between: string, rest: string)
    requires NoQuote(between)
    ensures Scan(between + rest, false, "") == Scan(rest, false, "")
  {
    if between == "" {
      assert between + rest == rest;
    } else {
      ScanBetween(between[1..], rest);
      assert (between + rest)[1..] == between[1..] + rest;
    }
  }

  /** Reading gives back every list, whatever quote-free text, at least one character, stands between its values. */
  lemma {:induction false} WrittenReads(values: seq<string>, between: seq<string>)
    requires |between| == |values|
    requires forall i :: 0 <= i < |between| ==> between[i] != "" && NoQuote(between[i])
    ensures Scan(Written(values, between), false, "") == values
  {
    if |values| == 1 {
      assert Quoted(values[0]) + "" == Quoted(values[0]);
      ScanQuoted(values[0], "");
      assert values == [values[0]];
    } else if |values| > 1 {
      var rest := Written(values[1..], between[1..]);
      WrittenReads(values[1..], between[1..]);
      assert Quoted(values[0]) + between[0] + rest == Quoted(values[0]) + (between[0] + rest);
      ScanQuoted(values[0], between[0] + rest);
      ScanBetween(between[0], rest);
      assert values == [values[0]] + values[1..];
    }
  }

  /** A comma-separated list is read back, empty values and values of quotes included. */
  lemma {:induction false} CommaListReads(values: seq<string>)
    ensures Scan(CommaList(values), false, "") == values
  {
    WrittenReads(values, seq(|values|, _ => ","));
  }

  /** With nothing between them two values run into one. */
  lemma {:induction false} NothingBetween(u: string, v: string)
    ensures Scan(Quoted(u) + Quoted(v), false, "") == [u + "'" + v]
  {
    var s := Quoted(u) + Quoted(v);
    assert s[1..] == Doubled(u) + "''" + (Doubled(v) + "'" + "");
    DoubledJoin(u, v);
    assert s[1..] == Doubled(u + "'" + v) + "'" + "";
    ScanValue(u + "'" + v, "", "");
    assert "" + (u + "'" + v) == u + "'" + v;
  }

  lemma {:induction false} DoubledJoin(u: string, v: string)
    ensures Doubled(u + "'" + v) == Doubled(u) + "''" + Doubled(v)
  {
    FlatMapAppend(DoubleQuote, u + "'", v);
    FlatMapAppend(DoubleQuote, u, "'");
    assert "'"[1..] == "";
    assert FlatMap(DoubleQuote, "") == "";
    assert Doubled("'") == "''";
  }
}
