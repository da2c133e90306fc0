/**
 The relation fields of one generated struct (internal/database/gen/naming.go)
 and the checks of names against columns (internal/database/gen/model.go).
 */
module Emission {
  import opened Wrappers
  import opened Text
  import opened Relations
  import opened Schema
  import opened Joins

  datatype StructField =
    | BelongsTo(name: string, model: string, join: string)
    | HasOne(name: string, model: string, join: string)
    | HasMany(name: string, model: string, join: string)
    | ManyToMany(name: string, model: string, through: string, join: string)

  /** Swaps the two sides of "Left=Right". */
  function SwapM2MJoin(join: string): string {
    var parts := Split(join, '=');
    if |parts| < 2 then join else Join(parts[1..], ['=']) + ['='] + parts[0]
  }

  function EmitOne(naming: Naming, table: string, r: Relation): (fields: seq<StructField>) {
    var (field, reverse) := FieldNames(naming, r);
    var forward :=
      if r.sourceTable != table then []
      else if r.IsM2M() then [ManyToMany(field, naming.camel(r.targetTable), r.through, r.m2mJoin)]
      else [BelongsTo(field, naming.camel(r.targetTable), JoinClause(r.sourceColumn, r.targetColumn))];
    var model := naming.camel(r.sourceTable);
    var backward :=
      if r.targetTable != table then []
      else if r.IsM2M() then [ManyToMany(reverse, model, r.through, SwapM2MJoin(r.m2mJoin))]
      else if r.skipReverse then []
      else if r.hasOne then [HasOne(reverse, model, ReverseJoinClause(r.sourceColumn, r.targetColumn))]
      else [HasMany(reverse, model, ReverseJoinClause(r.sourceColumn, r.targetColumn))];
    forward + backward
  }

  function Emit(naming: Naming, table: string, rels: seq<Relation>): (fields: seq<StructField>) {
    if rels == [] then []
    else Emit(naming, table, rels[..|rels| - 1]) + EmitOne(naming, table, rels[|rels| - 1])
  }

  /** writeM2MFields: both ends of a many-to-many relation. */
  method WriteM2MFields(naming: Naming, table: string, r: Relation) returns (fields: seq<StructField>)
    requires r.IsM2M()
    ensures fields == EmitOne(naming, table, r)
  {
    fields := [];
    var (field, reverseField) := FieldNames(naming, r);
    if r.sourceTable == table {
      fields := fields + [ManyToMany(field, naming.camel(r.targetTable), r.through, r.m2mJoin)];
    }
    if r.targetTable == table {
      fields := fields + [ManyToMany(reverseField, naming.camel(r.sourceTable), r.through, SwapM2MJoin(r.m2mJoin))];
    }
  }

  /** The fields of one other relation. */
  method WritePlainFields(naming: Naming, table: string, r: Relation) returns (fields: seq<StructField>)
    requires !r.IsM2M()
    ensures fields == EmitOne(naming, table, r)
  {
    fields := [];
    var (field, reverseField) := FieldNames(naming, r);
    var join := BuildJoinClause(r.sourceColumn, r.targetColumn);
    var revJoin := BuildJoinClause(r.targetColumn, r.sourceColumn);
    if r.sourceTable == table {
      fields := fields + [BelongsTo(field, naming.camel(r.targetTable), join)];
    }
    if r.targetTable == table && !r.skipReverse {
      if r.hasOne {
        fields := fields + [HasOne(reverseField, naming.camel(r.sourceTable), revJoin)];
      } else {
        fields := fields + [HasMany(reverseField, naming.camel(r.sourceTable), revJoin)];
      }
    }
  }

  /** The relation-field loop of GenerateModelCode, appending to the builder. */
  method WriteRelationFields(naming: Naming, table: string, rels: seq<Relation>) returns (fields: seq<StructField>)
    ensures fields == Emit(naming, table, rels)
  {
    fields := [];
    for i := 0 to |rels|
      invariant fields == Emit(naming, table, rels[..i])
    {
      EmitNext(naming, table, rels, i);
      var one;
      if rels[i].IsM2M() {
        one := WriteM2MFields(naming, table, rels[i]);
      } else {
        one := WritePlainFields(naming, table, rels[i]);
      }
      fields := fields + one;
    }
    assert rels[..|rels|] == rels;
  }

  lemma {:induction false} EmitNext(naming: Naming, table: string, rels: seq<Relation>, i: nat)
    requires i < |rels|
    ensures Emit(naming, table, rels[..i + 1]) == Emit(naming, table, rels[..i]) + EmitOne(naming, table, rels[i])
  {
    assert rels[..i + 1][..i] == rels[..i];
  }

  // ---- emitted names fill the claimed slots ----

  lemma {:induction false} EmittedSlots(naming: Naming, table: string, r: Relation, k: nat)
    requires k < |EmitOne(naming, table, r)|
    ensures table + ['.'] + EmitOne(naming, table, r)[k].name in Occupies(naming, r)
  {
  }

  lemma {:induction false} EmitOneDistinct(naming: Naming, table: string, r: Relation, k: nat, l: nat)
    requires k < l < |EmitOne(naming, table, r)| && !ClaimOf(naming, r).selfClash
    ensures EmitOne(naming, table, r)[k].name != EmitOne(naming, table, r)[l].name
  {
  }

  ghost predicate DistinctNames(fields: seq<StructField>) {
    forall i, j :: 0 <= i < j < |fields| ==> fields[i].name != fields[j].name
  }

  lemma {:induction false} EmitSource(naming: Naming, table: string, rels: seq<Relation>, k: nat) returns (j: nat)
    requires k < |Emit(naming, table, rels)|
    ensures j < |rels| && table + ['.'] + Emit(naming, table, rels)[k].name in ClaimOf(naming, rels[j]).slots
  {
    var n := |rels| - 1;
    var before := Emit(naming, table, rels[..n]);
    if k < |before| {
      j := EmitSource(naming, table, rels[..n], k);
    } else {
      j := n;
      EmittedSlots(naming, table, rels[n], k - |before|);
    }
  }

  /** Relations whose claims do not clash fill one struct with distinct names. */
  lemma {:induction false} EmitDistinct(naming: Naming, table: string, rels: seq<Relation>)
    requires forall i :: 0 <= i < |rels| ==> !ClaimOf(naming, rels[i]).selfClash
    requires forall i, j :: 0 <= i < j < |rels| ==>
      ClaimOf(naming, rels[i]).name != ClaimOf(naming, rels[j]).name
          && !Clash(ClaimOf(naming, rels[i]), ClaimOf(naming, rels[j]))
    ensures DistinctNames(Emit(naming, table, rels))
  {
    if rels != [] {
      var n := |rels| - 1;
      var before, own := Emit(naming, table, rels[..n]), EmitOne(naming, table, rels[n]);
      EmitDistinct(naming, table, rels[..n]);
      forall k, l | 0 <= k < |before| && 0 <= l < |own| ensures before[k].name != own[l].name {
        var j := EmitSource(naming, table, rels[..n], k);
        EmittedSlots(naming, table, rels[n], l);
        assert !Clash(ClaimOf(naming, rels[j]), ClaimOf(naming, rels[n]));
      }
      forall k, l | 0 <= k < l < |own| ensures own[k].name != own[l].name {
        EmitOneDistinct(naming, table, rels[n], k, l);
      }
    }
  }

  // ---- validateRelationColumns ----

  function TableFields(naming: Naming, columns: seq<Column>): set<string> {
    {"BaseModel"} + set i | 0 <= i < |columns| :: naming.camel(columns[i].name)
  }

  function TableColumns(columns: seq<Column>): set<string> {
    set i | 0 <= i < |columns| :: columns[i].name
  }

  function CheckSide(
    naming: Naming, tables: Tables, table: string, cols: seq<string>, field: string, emitted: bool): (r: GenResult<()>)
  {
    if table !in tables then Err(UnknownTable)
    else if exists i :: 0 <= i < |cols| && cols[i] !in TableColumns(tables[table]) then Err(ColumnNotFound)
    else if emitted && field in TableFields(naming, tables[table]) then Err(ColumnFieldConflict)
    else Ok(())
  }

  function CheckRelation(naming: Naming, tables: Tables, r: Relation): (out: GenResult<()>) {
    var (field, reverse) := FieldNames(naming, r);
    match CheckSide(naming, tables, r.sourceTable, if r.IsM2M() then [] else Columns(r.sourceColumn), field, true)
    case Err(e) => Err(e)
    case Ok(_) =>
      CheckSide(naming, tables, r.targetTable, if r.IsM2M() then [] else Columns(r.targetColumn), reverse,
                r.IsM2M() || !r.skipReverse)
  }

  function CheckRelations(naming: Naming, tables: Tables, rels: seq<Relation>): (out: GenResult<()>) {
    if rels == [] then Ok(())
    else match CheckRelations(naming, tables, rels[..|rels| - 1])
      case Err(e) => Err(e)
      case Ok(_) => CheckRelation(naming, tables, rels[|rels| - 1])
  }

  lemma {:induction false} CheckRelationsMeans(naming: Naming, tables: Tables, rels: seq<Relation>, i: nat)
    requires CheckRelations(naming, tables, rels).Ok? && i < |rels|
    ensures CheckRelation(naming, tables, rels[i]).Ok?
  {
    if i < |rels| - 1 { CheckRelationsMeans(naming, tables, rels[..|rels| - 1], i); }
  }

  lemma {:induction false} AllChecked(naming: Naming, tables: Tables, rels: seq<Relation>)
    requires forall r :: r in rels ==> CheckRelation(naming, tables, r).Ok?
    ensures CheckRelations(naming, tables, rels).Ok?
  {
    if rels != [] { AllChecked(naming, tables, rels[..|rels| - 1]); }
  }

  lemma {:induction false} CheckRelationsErr(naming: Naming, tables: Tables, rels: seq<Relation>, n: nat)
    requires n <= |rels| && CheckRelations(naming, tables, rels[..n]).Err?
    ensures CheckRelations(naming, tables, rels) == CheckRelations(naming, tables, rels[..n])
  {
    if n == |rels| {
      assert rels[..n] == rels;
    } else {
      assert rels[..|rels| - 1][..n] == rels[..n];
      CheckRelationsErr(naming, tables, rels[..|rels| - 1], n);
    }
  }

  /** The per-table summary the checker memoises: column names and taken field names. */
  datatype TableMeta = TableMeta(columns: set<string>, fields: set<string>)

  ghost predicate MetaAgrees(naming: Naming, tables: Tables, meta: map<string, TableMeta>) {
    forall t :: t in meta ==>
      t in tables && meta[t] == TableMeta(TableColumns(tables[t]), TableFields(naming, tables[t]))
  }

  method LoadMeta(naming: Naming, tables: Tables, meta: map<string, TableMeta>, table: string)
    returns (known: bool, after: map<string, TableMeta>)
    requires MetaAgrees(naming, tables, meta)
    ensures MetaAgrees(naming, tables, after) && (known <==> table in tables) && (known ==> table in after)
  {
    if table in meta { return true, meta; }
    if table !in tables { return false, meta; }
    var cols := tables[table];
    var columns: set<string>, fields := {}, {"BaseModel"};
    for i := 0 to |cols|
      invariant columns == TableColumns(cols[..i]) && fields == TableFields(naming, cols[..i])
    {
      MetaStep(naming, cols, i);
      columns := columns + {cols[i].name};
      fields := fields + {naming.camel(cols[i].name)};
    }
    assert cols[..|cols|] == cols;
    return true, meta[table := TableMeta(columns, fields)];
  }

  lemma {:induction false} MetaStep(naming: Naming, cols: seq<Column>, i: nat)
    requires i < |cols|
    ensures TableColumns(cols[..i + 1]) == TableColumns(cols[..i]) + {cols[i].name}
    ensures TableFields(naming, cols[..i + 1]) == TableFields(naming, cols[..i]) + {naming.camel(cols[i].name)}
  {
    var s := cols[..i + 1];
    assert s[i] == cols[i];
    assert forall k :: 0 <= k < i ==> s[k] == cols[..i][k];
  }

  method CheckOneSide(naming: Naming, tables: Tables, meta: map<string, TableMeta>,
                      table: string, cols: seq<string>, field: string, emitted: bool)
    returns (r: GenResult<()>, after: map<string, TableMeta>)
    requires MetaAgrees(naming, tables, meta)
    ensures MetaAgrees(naming, tables, after)
    ensures r == CheckSide(naming, tables, table, cols, field, emitted)
  {
    var known: bool;
    known, after := LoadMeta(naming, tables, meta, table);
    if !known { return Err(UnknownTable), after; }
    for i := 0 to |cols|
      invariant forall k :: 0 <= k < i ==> cols[k] in after[table].columns
    {
      if cols[i] !in after[table].columns { return Err(ColumnNotFound), after; }
    }
    if emitted && field in after[table].fields { return Err(ColumnFieldConflict), after; }
    return Ok(()), after;
  }

  /** Both sides of one relation, source first. */
  method CheckBothSides(naming: Naming, tables: Tables, meta: map<string, TableMeta>, rel: Relation)
    returns (r: GenResult<()>, after: map<string, TableMeta>)
    requires MetaAgrees(naming, tables, meta)
    ensures MetaAgrees(naming, tables, after)
    ensures r == CheckRelation(naming, tables, rel)
  {
    var (field, reverseField) := FieldNames(naming, rel);
    var srcCols := if rel.IsM2M() then [] else Columns(rel.sourceColumn);
    var tgtCols := if rel.IsM2M() then [] else Columns(rel.targetColumn);
    r, after := CheckOneSide(naming, tables, meta, rel.sourceTable, srcCols, field, true);
    if r.Ok? {
      var emitted := rel.IsM2M() || !rel.skipReverse;
      r, after := CheckOneSide(naming, tables, after, rel.targetTable, tgtCols, reverseField, emitted);
    }
  }

  method ValidateRelationColumns(naming: Naming, tables: Tables, rels: seq<Relation>) returns (r: GenResult<()>)
    ensures r == CheckRelations(naming, tables, rels)
  {
    var meta: map<string, TableMeta> := map[];
    for i := 0 to |rels|
      invariant MetaAgrees(naming, tables, meta)
      invariant CheckRelations(naming, tables, rels[..i]).Ok?
    {
      r, meta := CheckBothSides(naming, tables, meta, rels[i]);
      CheckNext(naming, tables, rels, i);
      if r.Err? {
        return;
      }
    }
    assert rels[..|rels|] == rels;
    return Ok(());
  }

  /** What the check of one more relation decides. */
  lemma {:induction false} CheckNext(naming: Naming, tables: Tables, rels: seq<Relation>, i: nat)
    requires i < |rels| && CheckRelations(naming, tables, rels[..i]).Ok?
    ensures CheckRelations(naming, tables, rels[..i + 1]) == CheckRelation(naming, tables, rels[i])
    ensures CheckRelation(naming, tables, rels[i]).Err? ==>
              CheckRelations(naming, tables, rels) == CheckRelation(naming, tables, rels[i])
  {
    assert rels[..i + 1][..i] == rels[..i];
    if CheckRelation(naming, tables, rels[i]).Err? {
      CheckRelationsErr(naming, tables, rels, i + 1);
    }
  }

  /** A relation that passed the check takes no name of a column or of BaseModel. */
  lemma {:induction false} EmitAvoidsColumns(naming: Naming, tables: Tables, table: string, rels: seq<Relation>, k: nat)
    requires CheckRelations(naming, tables, rels).Ok? && table in tables
    requires k < |Emit(naming, table, rels)|
    ensures Emit(naming, table, rels)[k].name !in TableFields(naming, tables[table])
  {
    var n := |rels| - 1;
    if k < |Emit(naming, table, rels[..n])| {
      EmitAvoidsColumns(naming, tables, table, rels[..n], k);
    } else {
      CheckRelationsMeans(naming, tables, rels, n);
      EmitOneAvoids(naming, tables, table, rels[n], k - |Emit(naming, table, rels[..n])|);
    }
  }

  lemma {:induction false} EmitOneAvoids(naming: Naming, tables: Tables, table: string, r: Relation, k: nat)
    requires CheckRelation(naming, tables, r).Ok? && table in tables
    requires k < |EmitOne(naming, table, r)|
    ensures EmitOne(naming, table, r)[k].name !in TableFields(naming, tables[table])
  {
    CheckedNames(naming, tables, r);
    EmitOneNames(naming, table, r, k);
  }

  /** What the check of one relation rules out. */
  lemma {:induction false} CheckedNames(naming: Naming, tables: Tables, r: Relation)
    requires CheckRelation(naming, tables, r).Ok?
    ensures var (field, reverse) := FieldNames(naming, r);
      && r.sourceTable in tables && field !in TableFields(naming, tables[r.sourceTable])
      && r.targetTable in tables
      && (r.IsM2M() || !r.skipReverse ==> reverse !in TableFields(naming, tables[r.targetTable]))
  {
  }

  /** An emitted field is the forward field of its source or the reverse field of its target. */
  lemma {:induction false} EmitOneNames(naming: Naming, table: string, r: Relation, k: nat)
    requires k < |EmitOne(naming, table, r)|
    ensures var (field, reverse) := FieldNames(naming, r);
      var name := EmitOne(naming, table, r)[k].name;
      || (r.sourceTable == table && name == field)
      || (r.targetTable == table && name == reverse && (r.IsM2M() || !r.skipReverse))
  {
  }
}
