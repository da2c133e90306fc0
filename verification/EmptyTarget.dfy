/**
 A relation whose target names no column: the loader reads an endpoint such as
 "users.+" (internal/database/gen/relation.go), the pipeline accepts it, and the
 has-one field it emits joins every row.
 */
module EmptyTarget {
  import opened Wrappers
  import opened Text
  import opened KeyedMaps
  import opened Relations
  import opened MergeLaws
  import opened Schema
  import opened Joins
  import opened Junctions
  import opened Emission
  import opened Pipeline

  /** s.c -> t.+, whose target column list the loader reads as empty. */
  function OpenEnded(s: string, c: string, t: string): Relation {
    Relation("", "", s, c, t, "", "", "", false, "", false)
  }

  function OwnColumns(c: string): seq<Column> { [Column(c, false, false, "")] }

  function OwnGroups(c: string): Groups { map["unique" := [c]] }

  /** Table s has one column, unique by itself; table t has a primary key. */
  ghost function TwoTables(s: string, c: string, t: string, id: string): Tables {
    map[s := Tagged(OwnColumns(c), OwnGroups(c)), t := [Column(id, true, false, "")]]
  }

  lemma {:induction false} NothingIsEmpty()
    ensures Columns("") == []
  {
    assert Split("", '+') == [""];
    assert Trim("") == "";
    assert [""][..0] == [];
    assert Compact([]) == [];
  }

  lemma {:induction false} OpenEndedValid(s: string, c: string, t: string)
    requires ValidName(s) && ValidName(c) && ValidName(t)
    ensures ValidRelation(OpenEnded(s, c, t)) && !OpenEnded(s, c, t).IsM2M()
    ensures Columns(c) == [c] && Columns("") == []
  {
    NothingIsEmpty();
    NameIsColumn(c);
    assert "" != MANY_TO_MANY;
  }

  /** The single column reads as unique alone, so the relation is marked has-one. */
  lemma {:induction false} OpenEndedHasOne(s: string, c: string, t: string, id: string)
    requires ValidName(s) && ValidName(c) && ValidName(t) && s != t
    ensures var tables := TwoTables(s, c, t, id);
      Annotate(tables, OpenEnded(s, c, t)) == OpenEnded(s, c, t).(hasOne := true)
  {
    OpenEndedValid(s, c, t);
    var columns, groups := OwnColumns(c), OwnGroups(c);
    assert groups["unique"] == [c] && NamedGroups(groups);
    SingleTagExact(columns, groups, 0);
    TaggedKeepsNames(columns, groups);
    assert OwnConstraint(columns[0], groups);
    assert c in UniqueSingle(Tagged(columns, groups));
  }

  // ---- one plain relation through the pipeline ----

  lemma {:induction false} OneForeignKey(r: Relation, t: string)
    ensures |ForeignKeys([r], t)| <= 1
  {
    assert [r][..0] == [];
  }

  /** One relation makes no junction, so it reaches the second merge annotated and otherwise as it was. */
  lemma {:induction false} NothingInferred(naming: Naming, tables: Tables, r: Relation)
    ensures Inferred(naming, tables, [r], JunctionsInOrder(tables, [r])) == [Annotate(tables, r)]
  {
    var annotated := AnnotateAll(tables, [r]);
    assert annotated == [Annotate(tables, r)];
    var js := JunctionTables(tables, annotated);
    forall t ensures t !in js { OneForeignKey(Annotate(tables, r), t); }
    assert js == {};
    var order := JunctionsInOrder(tables, [r]);
    assert |order| == |multiset(order)| == 0;
    assert Suppressed(annotated, js) == {};
    assert SkipReverseAll({}, annotated) == annotated;
    EnumeratedMembers(order, js);
    assert SkipReverseAll({}, JunctionRelations(naming, annotated, order)) == [];
  }

  lemma {:induction false} MergeOne(naming: Naming, a: Relation)
    requires ValidRelation(a) && a.sourceTable != a.targetTable
    ensures Merge(naming, [], [a]) == Ok([a])
  {
    MergeAccepts(naming, [a]);
    MergeResult(naming, [], [a]);
    OneMember(KeyOf, Merge(naming, [], [a]).value, a);
  }

  lemma {:induction false} OneMember<T>(key: T -> string, s: seq<T>, x: T)
    requires Distinct(key, s) && forall y :: y in s <==> y == x
    ensures s == [x]
  {
    forall i | 0 <= i < |s| ensures s[i] == x { assert s[i] in s; }
    DistinctOnce(key, s, x);
    AllSame(s, x);
    assert x in s;
    assert s == [s[0]];
  }

  lemma {:induction false} AllSame<T>(s: seq<T>, x: T)
    requires forall i :: 0 <= i < |s| ==> s[i] == x
    ensures multiset(s)[x] == |s|
  {
    if s != [] {
      AllSame(s[..|s| - 1], x);
      assert s == s[..|s| - 1] + [x];
    }
  }

  lemma {:induction false} SettleOne(naming: Naming, tables: Tables, a: Relation)
    requires !a.IsM2M() && CheckRelation(naming, tables, a).Ok?
    ensures Settle(naming, tables, Ok([a])) == Ok([a])
  {
    OneJoin(naming, a);
    assert [a][..0] == [];
    assert CheckRelations(naming, tables, []) == Ok(());
  }

  lemma {:induction false} OneJoin(naming: Naming, a: Relation)
    requires !a.IsM2M()
    ensures ResolveJoins(naming, [a], [a]) == Ok([a])
  {
    assert [a][..0] == [];
    assert ResolveJoin(naming, [a], a) == Ok(a);
    assert ResolveJoins(naming, [a], [a][..0]) == Ok([]);
    assert [] + [a] == [a];
  }

  /** One valid relation between two tables generates itself, annotated, when the column check passes. */
  lemma {:induction false} OneGenerates(naming: Naming, tables: Tables, r: Relation)
    requires ValidRelation(r) && !r.IsM2M() && r.sourceTable != r.targetTable
    requires CheckRelation(naming, tables, Annotate(tables, r)).Ok?
    ensures Generate(naming, tables, false, [], [r]) == Ok([Annotate(tables, r)])
  {
    assert [r][..0] == [];
    assert Validated([r]).Ok?;
    NothingInferred(naming, tables, r);
    MergeOne(naming, Annotate(tables, r));
    SettleOne(naming, tables, Annotate(tables, r));
  }

  // ---- the has-one field that joins every row ----

  /** The two relation fields do not take the name of a column's field or of BaseModel. */
  predicate NoFieldClash(naming: Naming, s: string, c: string, t: string, id: string) {
    && naming.singular(naming.camel(t)) != "BaseModel" && naming.singular(naming.camel(t)) != naming.camel(c)
    && naming.plural(naming.camel(s)) != "BaseModel" && naming.plural(naming.camel(s)) != naming.camel(id)
  }

  lemma {:induction false} OpenEndedChecked(naming: Naming, s: string, c: string, t: string, id: string)
    requires ValidName(s) && ValidName(c) && ValidName(t) && s != t && NoFieldClash(naming, s, c, t, id)
    ensures CheckRelation(naming, TwoTables(s, c, t, id), OpenEnded(s, c, t).(hasOne := true)).Ok?
  {
    OpenEndedValid(s, c, t);
    SourceSide(naming, s, c, t, id);
    TargetSide(naming, s, c, t, id);
    assert FieldNames(naming, OpenEnded(s, c, t).(hasOne := true)) ==
           (naming.singular(naming.camel(t)), naming.plural(naming.camel(s)));
  }

  lemma {:induction false} TargetSide(naming: Naming, s: string, c: string, t: string, id: string)
    requires s != t && NoFieldClash(naming, s, c, t, id)
    ensures CheckSide(naming, TwoTables(s, c, t, id), t, [], naming.plural(naming.camel(s)), true) == Ok(())
  {
    OneColumn(naming, TwoTables(s, c, t, id)[t]);
  }

  lemma {:induction false} SourceSide(naming: Naming, s: string, c: string, t: string, id: string)
    requires s != t && NoFieldClash(naming, s, c, t, id)
    ensures CheckSide(naming, TwoTables(s, c, t, id), s, [c], naming.singular(naming.camel(t)), true) == Ok(())
  {
    TaggedKeepsNames(OwnColumns(c), OwnGroups(c));
    OneColumn(naming, TwoTables(s, c, t, id)[s]);
  }

  lemma {:induction false} OneColumn(naming: Naming, columns: seq<Column>)
    requires |columns| == 1
    ensures TableColumns(columns) == {columns[0].name}
    ensures TableFields(naming, columns) == {"BaseModel", naming.camel(columns[0].name)}
  {
  }

  lemma {:induction false} EmitTarget(naming: Naming, a: Relation)
    requires !a.IsM2M() && a.hasOne && !a.skipReverse && a.sourceTable != a.targetTable
    ensures var fields := Emit(naming, a.targetTable, [a]);
      |fields| == 1 && fields[0].HasOne? && fields[0].join == ReverseJoinClause(a.sourceColumn, a.targetColumn)
  {
    assert [a][..0] == [];
    assert Emit(naming, a.targetTable, []) == [];
  }

  /**
   The pipeline accepts the relation and gives t's struct a has-one field whose
   clause joins one row of t to two rows of s, in an instance that keeps every
   constraint of s.
   */
  lemma {:induction false} OpenEndedJoinsAll(naming: Naming, s: string, c: string, t: string, id: string)
    returns (rows: seq<Row>, target: Row)
    requires ValidName(s) && ValidName(c) && ValidName(t) && s != t && NoFieldClash(naming, s, c, t, id)
    ensures var tables := TwoTables(s, c, t, id);
      && tables[s] == Tagged(OwnColumns(c), OwnGroups(c)) && Satisfies(rows, OwnColumns(c), OwnGroups(c))
      && Generate(naming, tables, false, [], [OpenEnded(s, c, t)]).Ok?
      && var fields := Emit(naming, t, Generate(naming, tables, false, [], [OpenEnded(s, c, t)]).value);
        |fields| == 1 && fields[0].HasOne? && !AtMostOne(fields[0].join, target, rows)
  {
    var r := OpenEnded(s, c, t);
    OpenEndedValid(s, c, t);
    OpenEndedHasOne(s, c, t, id);
    OpenEndedChecked(naming, s, c, t, id);
    OneGenerates(naming, TwoTables(s, c, t, id), r);
    EmitTarget(naming, r.(hasOne := true));
    assert OwnGroups(c)["unique"] == [c] && NamedGroups(OwnGroups(c));
    rows, target := EmptyListJoinsAll(r, OwnColumns(c), OwnGroups(c));
  }

  /** Such as profiles.user_id -> users.+ under the names the libraries give. */
  lemma {:induction false} ProfilesJoinAll(naming: Naming) returns (rows: seq<Row>, target: Row)
    requires naming.singular(naming.camel("users")) == "User" && naming.plural(naming.camel("profiles")) == "Profiles"
    requires naming.camel("user_id") == "UserID" && naming.camel("id") == "ID"
    ensures var tables := TwoTables("profiles", "user_id", "users", "id");
      && Satisfies(rows, OwnColumns("user_id"), OwnGroups("user_id"))
      && Generate(naming, tables, false, [], [OpenEnded("profiles", "user_id", "users")]).Ok?
      && var fields := Emit(naming, "users",
                            Generate(naming, tables, false, [], [OpenEnded("profiles", "user_id", "users")]).value);
        |fields| == 1 && fields[0].HasOne? && !AtMostOne(fields[0].join, target, rows)
  {
    ProfileNames();
    rows, target := OpenEndedJoinsAll(naming, "profiles", "user_id", "users", "id");
  }

  lemma {:induction false} ProfileNames()
    ensures ValidName("profiles") && ValidName("user_id") && ValidName("users") && "profiles" != "users"
    ensures "User" != "BaseModel" && "User" != "UserID" && "Profiles" != "BaseModel" && "Profiles" != "ID"
  {
    assert "profiles"[0] != "users"[0] && "User"[0] != "BaseModel"[0] && |"User"| != |"UserID"|;
    assert "Profiles"[0] != "BaseModel"[0] && "Profiles"[0] != "ID"[0];
  }
}
