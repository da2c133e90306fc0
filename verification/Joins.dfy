/**
 Join clauses (internal/database/gen/naming.go) and what they mean in table
 instances: the reverse clause is the converse of the belongs-to clause, and a
 has-one side joins at most one row.
 */
module Joins {
  import opened Ordering
  import opened Text
  import opened Relations
  import opened Schema

  type Pair = (string, string)

  // ---- building the clause ----

  function Min(a: nat, b: nat): nat { if a < b then a else b }

  function Zip(src: seq<string>, tgt: seq<string>): (pairs: seq<Pair>)
    ensures |pairs| == Min(|src|, |tgt|)
    ensures forall i :: 0 <= i < |pairs| ==> pairs[i] == (src[i], tgt[i])
  {
    seq(Min(|src|, |tgt|), i requires 0 <= i < Min(|src|, |tgt|) => (src[i], tgt[i]))
  }

  function Render(p: Pair): string { p.0 + ['='] + p.1 }

  function RenderAll(pairs: seq<Pair>): (parts: seq<string>)
    ensures |parts| == |pairs| && forall i :: 0 <= i < |pairs| ==> parts[i] == Render(pairs[i])
  {
    seq(|pairs|, i requires 0 <= i < |pairs| => Render(pairs[i]))
  }

  function JoinClause(sourceCols: string, targetCols: string): string {
    Join(RenderAll(Zip(Columns(sourceCols), Columns(targetCols))), [','])
  }

  method BuildJoinClause(sourceCols: string, targetCols: string) returns (clause: string)
    ensures clause == JoinClause(sourceCols, targetCols)
  {
    var src := SplitCompositeColumns(sourceCols);
    var tgt := SplitCompositeColumns(targetCols);
    var n := |src|;
    if |tgt| < n { n := |tgt|; }
    var parts: seq<string> := [];
    for i := 0 to n
      invariant parts == RenderAll(Zip(src, tgt))[..i]
    {
      parts := parts + [src[i] + ['='] + tgt[i]];
    }
    assert parts == RenderAll(Zip(src, tgt));
    clause := Join(parts, [',']);
  }

  /** The clause on the has-many or has-one side. */
  function ReverseJoinClause(sourceCols: string, targetCols: string): string {
    JoinClause(targetCols, sourceCols)
  }

  // ---- reading the clause back ----

  function ParsePair(part: string): Pair {
    var halves := Split(part, '=');
    (halves[0], Join(halves[1..], ['=']))
  }

  function ParseClause(clause: string): seq<Pair> {
    if clause == "" then []
    else
      var parts := Split(clause, ',');
      seq(|parts|, i requires 0 <= i < |parts| => ParsePair(parts[i]))
  }

  lemma {:induction false} NamePlain(s: string)
    requires ValidName(s)
    ensures ',' !in s && '=' !in s
  {
  }

  /** Reading a rendered clause gives back its column pairs. */
  lemma {:induction false} ParseRendered(pairs: seq<Pair>)
    requires forall i :: 0 <= i < |pairs| ==> ValidName(pairs[i].0) && ValidName(pairs[i].1)
    ensures ParseClause(Join(RenderAll(pairs), [','])) == pairs
  {
    if pairs != [] {
      var parts := RenderAll(pairs);
      forall i | 0 <= i < |pairs| ensures ',' !in parts[i] && ParsePair(parts[i]) == pairs[i] {
        var p := pairs[i];
        NamePlain(p.0);
        NamePlain(p.1);
        SplitFirst(p.0, '=', p.1);
        SplitNone(p.1, '=');
        assert Split(parts[i], '=') == [p.0, p.1];
      }
      SplitJoin(parts, ',');
      assert Join(parts, [',']) != "" by { assert parts[0] != ""; }
    }
  }

  lemma {:induction false} ClauseMeans(sourceCols: string, targetCols: string)
    requires ValidColumns(sourceCols) && ValidColumns(targetCols)
    ensures ParseClause(JoinClause(sourceCols, targetCols)) == Zip(Columns(sourceCols), Columns(targetCols))
  {
    ParseRendered(Zip(Columns(sourceCols), Columns(targetCols)));
  }

  // ---- table instances ----

  datatype Value = Null | Val(v: int)
  type Row = map<string, Value>

  function Cell(row: Row, col: string): Value { if col in row then row[col] else Null }

  /** SQL equality: NULL equals nothing. */
  predicate SameCell(a: Row, ca: string, b: Row, cb: string) {
    Cell(a, ca).Val? && Cell(a, ca) == Cell(b, cb)
  }

  /** The join condition, with the left column of each pair on the row that owns the field. */
  ghost predicate Matches(clause: string, owner: Row, other: Row) {
    forall p :: p in ParseClause(clause) ==> SameCell(owner, p.0, other, p.1)
  }

  ghost predicate Differ(a: Row, b: Row, cols: set<string>) {
    exists c :: c in cols && !SameCell(a, c, b, c)
  }

  /** No two rows agree on all of `cols` with no NULL among them. */
  ghost predicate UniqueOn(rows: seq<Row>, cols: set<string>) {
    forall i, j :: 0 <= i < j < |rows| ==> Differ(rows[i], rows[j], cols)
  }

  function Members(cols: seq<string>): set<string> { set c | c in cols }

  /** The rows keep every unique constraint and the primary key, whose cells are never NULL. */
  ghost predicate Satisfies(rows: seq<Row>, columns: seq<Column>, groups: Groups) {
    && (forall g :: g in groups ==> UniqueOn(rows, Members(groups[g])))
    && (PrimaryKey(columns) != {} ==> UniqueOn(rows, PrimaryKey(columns)))
    && (forall i, c :: 0 <= i < |rows| && c in PrimaryKey(columns) ==> Cell(rows[i], c).Val?)
  }

  /** Every column some constraint names. */
  function Constrained(columns: seq<Column>, groups: Groups): set<string> {
    PrimaryKey(columns) + set g, c | g in groups && c in groups[g] :: c
  }

  /** Two rows without NULLs that agree on `cols` and differ everywhere else. */
  function Twins(columns: seq<Column>, groups: Groups, cols: set<string>): (rows: seq<Row>)
    ensures |rows| == 2
  {
    var all := Constrained(columns, groups) + cols;
    [map c | c in all :: Val(0), map c | c in all :: if c in cols then Val(0) else Val(1)]
  }

  lemma {:induction false} TwinsDiffer(columns: seq<Column>, groups: Groups, cols: set<string>, other: set<string>)
    requires other <= Constrained(columns, groups) + cols
    ensures UniqueOn(Twins(columns, groups, cols), other) <==> !(other <= cols)
  {
    var rows := Twins(columns, groups, cols);
    if !(other <= cols) {
      var c :| c in other && c !in cols;
      assert !SameCell(rows[0], c, rows[1], c);
    } else {
      assert !Differ(rows[0], rows[1], other);
    }
  }

  /** The twins keep all constraints when none of them lies within `cols`. */
  lemma {:induction false} TwinsSatisfy(columns: seq<Column>, groups: Groups, cols: set<string>)
    requires forall g :: g in groups ==> !(Members(groups[g]) <= cols)
    requires PrimaryKey(columns) != {} ==> !(PrimaryKey(columns) <= cols)
    ensures Satisfies(Twins(columns, groups, cols), columns, groups)
  {
    var rows := Twins(columns, groups, cols);
    forall g | g in groups ensures UniqueOn(rows, Members(groups[g])) {
      TwinsDiffer(columns, groups, cols, Members(groups[g]));
    }
    TwinsDiffer(columns, groups, cols, PrimaryKey(columns));
  }

  ghost predicate AtMostOne(clause: string, target: Row, rows: seq<Row>) {
    forall i, j :: 0 <= i < j < |rows| ==> !(Matches(clause, target, rows[i]) && Matches(clause, target, rows[j]))
  }

  /** The reverse clause joins exactly the pairs of rows that the belongs-to clause joins. */
  lemma {:induction false} ReverseIsConverse(r: Relation, source: Row, target: Row)
    requires ValidEndpoints(r)
    ensures Matches(ReverseJoinClause(r.sourceColumn, r.targetColumn), target, source)
            <==> Matches(JoinClause(r.sourceColumn, r.targetColumn), source, target)
  {
    var src, tgt := Columns(r.sourceColumn), Columns(r.targetColumn);
    ClauseMeans(r.sourceColumn, r.targetColumn);
    ClauseMeans(r.targetColumn, r.sourceColumn);
    var forward, backward := Zip(src, tgt), Zip(tgt, src);
    forall p: Pair ensures p in forward <==> (p.1, p.0) in backward {
      if p in forward {
        var i :| 0 <= i < |forward| && forward[i] == p;
        assert backward[i] == (p.1, p.0);
      }
      if (p.1, p.0) in backward {
        var i :| 0 <= i < |backward| && backward[i] == (p.1, p.0);
        assert forward[i] == p;
      }
    }
    if Matches(ReverseJoinClause(r.sourceColumn, r.targetColumn), target, source) {
      forall p | p in forward ensures SameCell(source, p.0, target, p.1) {
        assert (p.1, p.0) in backward;
      }
    } else {
      var q :| q in backward && !SameCell(target, q.0, source, q.1);
      assert (q.1, q.0) in forward;
    }
  }

  // ---- has-one ----

  lemma {:induction false} UniqueSourceColumn(
    tables: Tables, r: Relation, columns: seq<Column>, groups: Groups, rows: seq<Row>)
    requires r.sourceTable in tables && tables[r.sourceTable] == Tagged(columns, groups)
    requires (forall i :: 0 <= i < |columns| ==> Untagged(columns[i])) && NamedGroups(groups)
    requires SourceIsUnique(tables, r) && Satisfies(rows, columns, groups)
    ensures UniqueOn(rows, {Columns(r.sourceColumn)[0]})
  {
    var col := Columns(r.sourceColumn)[0];
    var tagged := Tagged(columns, groups);
    TaggedKeepsNames(columns, groups);
    if col in UniqueSingle(tagged) {
      var i :| 0 <= i < |tagged| && UniqueAlone(tagged[i]) && tagged[i].name == col;
      SingleTagExact(columns, groups, i);
      var g :| g in groups && groups[g] == [col];
      assert Members(groups[g]) == {col};
    }
  }

  lemma {:induction false} TaggedKeepsNames(columns: seq<Column>, groups: Groups)
    requires forall i :: 0 <= i < |columns| ==> Untagged(columns[i])
    ensures var t := Tagged(columns, groups);
            && PrimaryKey(t) == PrimaryKey(columns)
            && forall i :: 0 <= i < |columns| ==>
                t[i].name == columns[i].name && t[i].primaryKey == columns[i].primaryKey
  {
    GroupKeys(groups);
    var t := Tagged(columns, groups);
    forall i | 0 <= i < |columns| ensures t[i].name == columns[i].name && t[i].primaryKey == columns[i].primaryKey {
      TagAllMeans(columns[i], groups, SortedKeys(GroupOrder(groups), groups.Keys));
    }
  }

  /**
   A relation that annotateHasOne marks joins each target row to at most one source row, in
   every instance that keeps the declared constraints, exactly when its target
   column list is not empty. (An endpoint such as "users.+" is accepted by the
   loader, and the clause it produces joins every row.)
   */
  lemma {:induction false} HasOneExact(tables: Tables, r: Relation, columns: seq<Column>, groups: Groups)
    requires r.sourceTable in tables && tables[r.sourceTable] == Tagged(columns, groups)
    requires (forall i :: 0 <= i < |columns| ==> Untagged(columns[i])) && NamedGroups(groups)
    requires ValidEndpoints(r) && SourceIsUnique(tables, r)
    ensures (forall rows: seq<Row>, target: Row :: Satisfies(rows, columns, groups) ==>
              AtMostOne(ReverseJoinClause(r.sourceColumn, r.targetColumn), target, rows))
            <==> |Columns(r.targetColumn)| > 0
  {
    if |Columns(r.targetColumn)| > 0 {
      forall rows: seq<Row>, target: Row | Satisfies(rows, columns, groups)
        ensures AtMostOne(ReverseJoinClause(r.sourceColumn, r.targetColumn), target, rows)
      {
        HasOneHolds(tables, r, columns, groups, rows, target);
      }
    } else {
      var rows, target := EmptyListJoinsAll(r, columns, groups);
      assert !AtMostOne(ReverseJoinClause(r.sourceColumn, r.targetColumn), target, rows);
    }
  }

  lemma {:induction false} HasOneHolds(
    tables: Tables, r: Relation, columns: seq<Column>, groups: Groups, rows: seq<Row>, target: Row)
    requires r.sourceTable in tables && tables[r.sourceTable] == Tagged(columns, groups)
    requires (forall i :: 0 <= i < |columns| ==> Untagged(columns[i])) && NamedGroups(groups)
    requires ValidEndpoints(r) && SourceIsUnique(tables, r)
    requires |Columns(r.targetColumn)| > 0 && Satisfies(rows, columns, groups)
    ensures AtMostOne(ReverseJoinClause(r.sourceColumn, r.targetColumn), target, rows)
  {
    ClauseMeans(r.targetColumn, r.sourceColumn);
    var pairs := Zip(Columns(r.targetColumn), Columns(r.sourceColumn));
    UniqueSourceColumn(tables, r, columns, groups, rows);
    assert pairs[0] in pairs;
  }

  /** Two rows that differ everywhere keep every constraint, and an empty clause joins both to anything. */
  lemma {:induction false} EmptyListJoinsAll(
    r: Relation, columns: seq<Column>, groups: Groups)
    returns (rows: seq<Row>, target: Row)
    requires ValidEndpoints(r) && NamedGroups(groups) && Columns(r.targetColumn) == []
    ensures Satisfies(rows, columns, groups)
    ensures !AtMostOne(ReverseJoinClause(r.sourceColumn, r.targetColumn), target, rows)
  {
    var clause := ReverseJoinClause(r.sourceColumn, r.targetColumn);
    ClauseMeans(r.targetColumn, r.sourceColumn);
    rows, target := Twins(columns, groups, {}), map[];
    forall g | g in groups ensures !(Members(groups[g]) <= {}) {
      assert groups[g][0] in Members(groups[g]);
    }
    TwinsSatisfy(columns, groups, {});
    assert Zip(Columns(r.targetColumn), Columns(r.sourceColumn)) == [];
    assert Matches(clause, target, rows[0]) && Matches(clause, target, rows[1]);
  }
}
