/**
 Table aliases (internal/database/gen/alias.go, naming.go): distinct tables get
 distinct aliases, the result depends only on which tables were asked for, and
 the unbounded search for a free alias ends by the pigeonhole principle.
 */
module Aliases {
  import opened Ordering
  import opened Text

  function NonEmpty(parts: seq<string>): (r: seq<string>)
    ensures forall i :: 0 <= i < |r| ==> r[i] != ""
  {
    if parts == [] then [] else (if parts[0] != "" then [parts[0]] else []) + NonEmpty(parts[1..])
  }

  function Initials(parts: seq<string>): string
    requires forall i :: 0 <= i < |parts| ==> parts[i] != ""
  {
    if parts == [] then "" else [parts[0][0]] + Initials(parts[1..])
  }

  function ToAlias(table: string): string {
    var parts := Split(table, '_');
    if |parts| == 1 then (if |table| >= 2 then table[..2] else table)
    else if NonEmpty(parts) == [] then "t"
    else Initials(NonEmpty(parts))
  }

  function TableParts(table: string): (parts: seq<string>)
    ensures |parts| > 0
  {
    var out := NonEmpty(Split(table, '_'));
    if out == [] then [table] else out
  }

  // ---- the candidates, in the order lengthenAlias tries them ----

  function Heads(parts: seq<string>, take: nat): string {
    if parts == [] then ""
    else (if |parts[0]| < take then parts[0] else parts[0][..take]) + Heads(parts[1..], take)
  }

  function Extensions(table: string, alias: string): (ext: seq<string>) {
    var parts := TableParts(table);
    if |parts| == 1 then
      var name := parts[0];
      var count := if |name| > |alias| then |name| - |alias| else 0;
      seq(count, i requires 0 <= i < count => name[..|alias| + 1 + i])
    else seq(7, i requires 0 <= i < 7 => Heads(parts, i + 2))
  }

  function Suffix(alias: string, i: nat): string { alias + Decimal(i + 2) }

  /** Candidate k: first the extensions, then alias2, alias3, and so on for ever. */
  function Candidate(table: string, alias: string, k: nat): string {
    var ext := Extensions(table, alias);
    if k < |ext| then ext[k] else Suffix(alias, k - |ext|)
  }

  predicate Free(used: map<string, string>, table: string, c: string) { c !in used || used[c] == table }

  predicate TakenBelow(table: string, alias: string, used: map<string, string>, k: nat) {
    forall j :: 0 <= j < k ==> !Free(used, table, Candidate(table, alias, j))
  }

  function Suffixed(alias: string, n: nat): (s: set<string>) {
    set i | 0 <= i < n :: Suffix(alias, i)
  }

  lemma {:induction false} SuffixInjective(alias: string, i: nat, j: nat)
    requires Suffix(alias, i) == Suffix(alias, j)
    ensures i == j
  {
    assert Suffix(alias, i)[|alias|..] == Decimal(i + 2) && Suffix(alias, j)[|alias|..] == Decimal(j + 2);
    DecimalInjective(i + 2, j + 2);
  }

  /** Suffixed aliases are pairwise distinct. */
  lemma {:induction false} SuffixedCount(alias: string, n: nat)
    ensures |Suffixed(alias, n)| == n
  {
    if n > 0 {
      SuffixedCount(alias, n - 1);
      forall i | 0 <= i < n - 1 ensures Suffix(alias, i) != Suffix(alias, n - 1) {
        if Suffix(alias, i) == Suffix(alias, n - 1) { SuffixInjective(alias, i, n - 1); }
      }
      assert Suffix(alias, n - 1) !in Suffixed(alias, n - 1);
      assert Suffixed(alias, n) == Suffixed(alias, n - 1) + {Suffix(alias, n - 1)};
    }
  }

  lemma {:induction false} SubsetSize(a: set<string>, b: set<string>)
    requires a <= b
    ensures |a| <= |b|
  {
    assert b == a + (b - a);
  }

  /** The search cannot reject more suffixes than there are aliases in use. */
  lemma {:induction false} Pigeonhole(table: string, alias: string, used: map<string, string>, k: nat)
    requires TakenBelow(table, alias, used, k)
    ensures k <= |Extensions(table, alias)| + |used|
  {
    var e := |Extensions(table, alias)|;
    if k > e {
      forall i | 0 <= i < k - e ensures Suffix(alias, i) in used.Keys {
        assert Candidate(table, alias, e + i) == Suffix(alias, i);
      }
      SuffixedCount(alias, k - e);
      SubsetSize(Suffixed(alias, k - e), used.Keys);
      assert |used.Keys| == |used|;
    }
  }

  /** The first candidate from k on that is free. */
  function Search(table: string, alias: string, used: map<string, string>, k: nat): (c: string)
    requires TakenBelow(table, alias, used, k)
    ensures Free(used, table, c)
    decreases |Extensions(table, alias)| + |used| - k
  {
    if Free(used, table, Candidate(table, alias, k)) then Candidate(table, alias, k)
    else
      Pigeonhole(table, alias, used, k + 1);
      Search(table, alias, used, k + 1)
  }

  lemma {:induction false} SearchFinds(table: string, alias: string, used: map<string, string>, from: nat, k: nat)
    requires from <= k && TakenBelow(table, alias, used, k) && Free(used, table, Candidate(table, alias, k))
    ensures Search(table, alias, used, from) == Candidate(table, alias, k)
    decreases k - from
  {
    if from < k { SearchFinds(table, alias, used, from + 1, k); }
  }

  method LengthenAlias(table: string, alias: string, used: map<string, string>) returns (c: string)
    ensures c == Search(table, alias, used, 0)
  {
    var parts := TableParts(table);
    var found: bool;
    if |parts| == 1 {
      found, c := TryPrefixes(table, alias, used, parts[0]);
    } else {
      found, c := TrySegments(table, alias, used, parts);
    }
    if !found { c := TrySuffixes(table, alias, used); }
  }

  /** Longer prefixes of a one-segment name. */
  method TryPrefixes(
    table: string, alias: string, used: map<string, string>, name: string)
    returns (found: bool, c: string)
    requires TableParts(table) == [name]
    ensures found ==> c == Search(table, alias, used, 0)
    ensures !found ==> TakenBelow(table, alias, used, |Extensions(table, alias)|)
  {
    ghost var ext := Extensions(table, alias);
    var n := |alias| + 1;
    while n <= |name|
      invariant |alias| + 1 <= n && n - |alias| - 1 <= |ext|
      invariant TakenBelow(table, alias, used, n - |alias| - 1)
    {
      c := name[..n];
      assert c == ext[n - |alias| - 1] == Candidate(table, alias, n - |alias| - 1);
      if c !in used || used[c] == table {
        SearchFinds(table, alias, used, 0, n - |alias| - 1);
        return true, c;
      }
      n := n + 1;
    }
    return false, alias;
  }

  /** More letters of every segment. */
  method TrySegments(
    table: string, alias: string, used: map<string, string>, parts: seq<string>)
    returns (found: bool, c: string)
    requires TableParts(table) == parts && |parts| > 1
    ensures found ==> c == Search(table, alias, used, 0)
    ensures !found ==> TakenBelow(table, alias, used, |Extensions(table, alias)|)
  {
    for extra := 1 to 8
      invariant TakenBelow(table, alias, used, extra - 1)
    {
      found, c := TrySegment(table, alias, used, parts, extra);
      if found { return; }
    }
    SegmentCandidate(table, alias, parts, 1);
    return false, alias;
  }

  /** One turn of that loop. */
  method TrySegment(
    table: string, alias: string, used: map<string, string>, parts: seq<string>, extra: nat)
    returns (found: bool, c: string)
    requires TableParts(table) == parts && |parts| > 1 && 1 <= extra < 8 && TakenBelow(table, alias, used, extra - 1)
    ensures found ==> c == Search(table, alias, used, 0)
    ensures !found ==> TakenBelow(table, alias, used, extra)
  {
    c := JoinHeads(parts, 1 + extra);
    SegmentCandidate(table, alias, parts, extra);
    found := c !in used || used[c] == table;
    if found {
      SearchFinds(table, alias, used, 0, extra - 1);
    }
  }

  lemma {:induction false} SegmentCandidate(table: string, alias: string, parts: seq<string>, extra: nat)
    requires TableParts(table) == parts && |parts| > 1 && 1 <= extra < 8
    ensures Heads(parts, 1 + extra) == Candidate(table, alias, extra - 1) && |Extensions(table, alias)| == 7
  {
    assert Extensions(table, alias)[extra - 1] == Heads(parts, 1 + extra);
  }

  /** The unbounded numeric loop. */
  method TrySuffixes(table: string, alias: string, used: map<string, string>) returns (c: string)
    requires TakenBelow(table, alias, used, |Extensions(table, alias)|)
    ensures c == Search(table, alias, used, 0)
  {
    ghost var e := |Extensions(table, alias)|;
    var i := 2;
    while true
      invariant i >= 2 && TakenBelow(table, alias, used, e + i - 2)
      decreases |used| - i + 2
    {
      c := alias + Decimal(i);
      assert c == Suffix(alias, i - 2) == Candidate(table, alias, e + i - 2);
      if c !in used || used[c] == table {
        SearchFinds(table, alias, used, 0, e + i - 2);
        return;
      }
      Pigeonhole(table, alias, used, e + i - 1);
      i := i + 1;
    }
  }

  method JoinHeads(parts: seq<string>, take: nat) returns (b: string)
    ensures b == Heads(parts, take)
  {
    b := "";
    for i := 0 to |parts|
      invariant b + Heads(parts[i..], take) == Heads(parts, take)
    {
      var p := parts[i];
      assert parts[i..][0] == p && parts[i..][1..] == parts[i + 1..];
      b := b + (if |p| < take then p else p[..take]);
    }
  }

  // ---- UniqueAliases ----

  datatype Book = Book(aliases: map<string, string>, used: map<string, string>)
  {
    /** Every recorded alias is held, in `used`, by its own table. */
    ghost predicate Consistent() {
      forall t :: t in aliases ==> aliases[t] in used && used[aliases[t]] == t
    }
  }

  function Choose(used: map<string, string>, table: string): (c: string)
    ensures Free(used, table, c)
  {
    var alias := ToAlias(table);
    if alias in used && used[alias] != table then Search(table, alias, used, 0) else alias
  }

  function Assign(book: Book, table: string): (after: Book)
    ensures book.Consistent() ==> after.Consistent()
  {
    var c := Choose(book.used, table);
    Book(book.aliases[table := c], book.used[c := table])
  }

  function AssignAll(tables: seq<string>): (book: Book)
    ensures book.Consistent()
  {
    if tables == [] then Book(map[], map[])
    else Assign(AssignAll(tables[..|tables| - 1]), tables[|tables| - 1])
  }

  method UniqueAliases(tables: seq<string>) returns (aliases: map<string, string>)
    ensures aliases == AssignAll(SortBy(LessEq, tables)).aliases
  {
    var sorted := SortBy(LessEq, tables);
    aliases := map[];
    var used: map<string, string> := map[];
    for i := 0 to |sorted|
      invariant Book(aliases, used) == AssignAll(sorted[..i])
    {
      assert sorted[..i + 1][..i] == sorted[..i];
      var table := sorted[i];
      var alias := ToAlias(table);
      if alias in used && used[alias] != table {
        alias := LengthenAlias(table, alias, used);
      }
      used := used[alias := table];
      aliases := aliases[table := alias];
    }
    assert sorted[..|sorted|] == sorted;
  }

  function TableSet(tables: seq<string>): set<string> { set t | t in tables }

  lemma {:induction false} AssignAllKeys(tables: seq<string>)
    ensures AssignAll(tables).aliases.Keys == TableSet(tables)
  {
    if tables != [] {
      var n := |tables| - 1;
      assert tables == tables[..n] + [tables[n]];
      AssignAllKeys(tables[..n]);
    }
  }

  /** Every table asked for has an alias, and no two tables share one. */
  lemma {:induction false} AliasesDistinct(tables: seq<string>)
    ensures var aliases := AssignAll(SortBy(LessEq, tables)).aliases;
            && aliases.Keys == TableSet(tables)
            && forall s, t :: s in aliases && t in aliases && s != t ==> aliases[s] != aliases[t]
  {
    var sorted := SortBy(LessEq, tables);
    AssignAllKeys(sorted);
    assert TableSet(sorted) == TableSet(tables) by {
      forall t ensures t in sorted <==> t in tables { assert t in sorted <==> t in multiset(sorted); }
    }
  }

  /** Assigning a table twice in a row changes nothing. */
  lemma {:induction false} AssignIdempotent(book: Book, table: string)
    ensures Assign(Assign(book, table), table) == Assign(book, table)
  {
    if ToAlias(table) in book.used && book.used[ToAlias(table)] != table {
      SearchStable(table, ToAlias(table), book.used);
    }
  }

  /** Taking the alias the search found does not change what it finds. */
  lemma {:induction false} SearchStable(table: string, alias: string, used: map<string, string>)
    ensures var c := Search(table, alias, used, 0); Search(table, alias, used[c := table], 0) == c
  {
    var k := FirstFree(table, alias, used, 0);
    SearchFinds(table, alias, used, 0, k);
    var used' := used[Candidate(table, alias, k) := table];
    assert TakenBelow(table, alias, used', k);
    SearchFinds(table, alias, used', 0, k);
  }

  lemma {:induction false} FirstFree(
    table: string, alias: string, used: map<string, string>, from: nat)
    returns (k: nat)
    requires TakenBelow(table, alias, used, from)
    ensures TakenBelow(table, alias, used, k) && Free(used, table, Candidate(table, alias, k))
    decreases |Extensions(table, alias)| + |used| - from
  {
    if Free(used, table, Candidate(table, alias, from)) {
      k := from;
    } else {
      Pigeonhole(table, alias, used, from + 1);
      k := FirstFree(table, alias, used, from + 1);
    }
  }

  // ---- what an alias looks like ----

  /** The first lens[i] letters of each segment, one after the other. */
  function Cut(parts: seq<string>, lens: seq<nat>): string
    requires |parts| == |lens| && forall i :: 0 <= i < |parts| ==> lens[i] <= |parts[i]|
  {
    if parts == [] then "" else parts[0][..lens[0]] + Cut(parts[1..], lens[1..])
  }

  predicate Lengths(parts: seq<string>, lens: seq<nat>) {
    |parts| == |lens| && forall i :: 0 <= i < |parts| ==> lens[i] <= |parts[i]| && (parts[i] != "" ==> lens[i] > 0)
  }

  /** Some letters of each segment of the name, in order, and perhaps a number from 2 on. */
  ghost predicate Abbreviates(table: string, c: string) {
    exists lens: seq<nat> {:trigger Lengths(TableParts(table), lens)} ::
      Lengths(TableParts(table), lens)
      && (c == Cut(TableParts(table), lens)
          || exists n: nat :: n >= 2 && c == Cut(TableParts(table), lens) + Decimal(n))
  }

  lemma {:induction false} HeadsCut(parts: seq<string>, take: nat) returns (lens: seq<nat>)
    requires take > 0
    ensures Lengths(parts, lens) && Heads(parts, take) == Cut(parts, lens)
  {
    if parts == [] {
      lens := [];
    } else {
      lens := HeadsCut(parts[1..], take);
      var n := if |parts[0]| < take then |parts[0]| else take;
      assert parts[0][..n] == if |parts[0]| < take then parts[0] else parts[0][..take];
      lens := [n] + lens;
    }
  }

  lemma {:induction false} InitialsCut(parts: seq<string>)
    requires forall i :: 0 <= i < |parts| ==> parts[i] != ""
    ensures Initials(parts) == Heads(parts, 1)
  {
    if parts != [] {
      InitialsCut(parts[1..]);
      assert parts[0][..1] == [parts[0][0]];
    }
  }

  lemma {:induction false} OneCut(name: string, n: nat)
    requires n <= |name| && (name != "" ==> n > 0)
    ensures Lengths([name], [n]) && Cut([name], [n]) == name[..n]
  {
    assert [name][1..] == [];
    assert Cut([], []) == "";
  }

  /** The name has a letter that is not an underscore, or nothing but one segment. */
  predicate Segmented(table: string) { NonEmpty(Split(table, '_')) != [] || table == "" }

  lemma {:induction false} ShortAlias(table: string) returns (lens: seq<nat>)
    requires Segmented(table)
    ensures Lengths(TableParts(table), lens) && ToAlias(table) == Cut(TableParts(table), lens)
    ensures '_' in table ==> forall i :: 0 <= i < |lens| ==> lens[i] == 1
    ensures '_' !in table ==> lens == [if |table| < 2 then |table| else 2]
  {
    var parts := Split(table, '_');
    if |parts| == 1 {
      OneSegment(table);
      lens := [if |table| < 2 then |table| else 2];
      OneCut(table, lens[0]);
    } else {
      OneSegment(table);
      InitialsCut(NonEmpty(parts));
      lens := seq(|NonEmpty(parts)|, i => 1);
      CutOnes(NonEmpty(parts), lens);
    }
  }

  lemma {:induction false} CutOnes(parts: seq<string>, lens: seq<nat>)
    requires |lens| == |parts| && forall i :: 0 <= i < |parts| ==> parts[i] != "" && lens[i] == 1
    ensures Lengths(parts, lens) && Heads(parts, 1) == Cut(parts, lens)
  {
    if parts != [] { CutOnes(parts[1..], lens[1..]); }
  }

  lemma {:induction false} OneSegment(table: string)
    ensures |Split(table, '_')| == 1 <==> '_' !in table
    ensures '_' !in table ==> TableParts(table) == [table]
  {
    if '_' !in table {
      SplitNone(table, '_');
      assert NonEmpty([table][1..]) == [];
    } else {
      SplitMany(table);
    }
  }

  lemma {:induction false} SplitMany(s: string)
    requires '_' in s
    ensures |Split(s, '_')| > 1
  {
    if s[0] != '_' { SplitMany(s[1..]); }
  }

  lemma {:induction false} CandidateAbbreviates(table: string, k: nat)
    requires Segmented(table)
    ensures Abbreviates(table, Candidate(table, ToAlias(table), k))
  {
    var alias, parts := ToAlias(table), TableParts(table);
    var ext := Extensions(table, alias);
    var lens := ShortAlias(table);
    if k >= |ext| {
      assert Candidate(table, alias, k) == Cut(parts, lens) + Decimal(k - |ext| + 2);
    } else if |parts| == 1 {
      OneCut(parts[0], |alias| + 1 + k);
      assert parts == [parts[0]];
      assert Lengths(TableParts(table), [|alias| + 1 + k]);
    } else {
      var more := HeadsCut(parts, k + 2);
      assert ext[k] == Heads(parts, k + 2);
    }
  }

  /** Every alias abbreviates its table's name, when that is more than underscores. */
  lemma {:induction false} AliasShape(tables: seq<string>, t: string)
    requires t in AssignAll(tables).aliases && Segmented(t)
    ensures Abbreviates(t, AssignAll(tables).aliases[t])
  {
    var n := |tables| - 1;
    var before := AssignAll(tables[..n]);
    if tables[n] == t {
      ChosenAbbreviates(before.used, t);
    } else {
      AliasShape(tables[..n], t);
    }
  }

  lemma {:induction false} ChosenAbbreviates(used: map<string, string>, t: string)
    requires Segmented(t)
    ensures Abbreviates(t, Choose(used, t))
  {
    var lens := ShortAlias(t);
    if ToAlias(t) in used && used[ToAlias(t)] != t {
      var k := FirstFree(t, ToAlias(t), used, 0);
      SearchFinds(t, ToAlias(t), used, 0, k);
      CandidateAbbreviates(t, k);
    }
  }

  lemma {:induction false} AssignAllFolds(tables: seq<string>)
    ensures AssignAll(tables) == Fold(Assign, Book(map[], map[]), tables)
  {
    if tables != [] { AssignAllFolds(tables[..|tables| - 1]); }
  }

  /** The aliases depend only on the set of names: neither order nor repeats matter. */
  lemma {:induction false} AliasesBySet(s: seq<string>, t: seq<string>)
    requires TableSet(s) == TableSet(t)
    ensures AssignAll(SortBy(LessEq, s)) == AssignAll(SortBy(LessEq, t))
  {
    AliasesCanonical(s);
    AliasesCanonical(t);
  }

  lemma {:induction false} AliasesCanonical(s: seq<string>)
    ensures AssignAll(SortBy(LessEq, s)) == AssignAll(SortedKeys(LessEq, TableSet(s)))
  {
    StringOrder();
    SortBySorted(LessEq, s);
    var sorted := SortBy(LessEq, s);
    forall book, table ensures Assign(Assign(book, table), table) == Assign(book, table) {
      AssignIdempotent(book, table);
    }
    RepeatsIrrelevant(LessEq, Assign, Book(map[], map[]), sorted);
    AssignAllFolds(sorted);
    assert Elements(sorted) == TableSet(s) by {
      forall x ensures x in sorted <==> x in s { assert x in sorted <==> x in multiset(sorted); }
    }
    AssignAllFolds(SortedKeys(LessEq, TableSet(s)));
  }
}
