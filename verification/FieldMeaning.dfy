/**
 What the relation fields of a generated struct say (internal/database/gen/naming.go):
 which relation stands behind each field, which rows its join clause pairs, and
 that no end of a relation goes without its field.
 */
module FieldMeaning {
  import opened Wrappers
  import opened Text
  import opened Relations
  import opened Schema
  import opened Joins
  import opened Emission
  import opened Pipeline
  import opened Structs

  /** The two rows hold equal cells, none NULL, in each pair of columns the relation links. */
  ghost predicate ColumnsAgree(r: Relation, source: Row, target: Row) {
    forall i :: 0 <= i < |Columns(r.sourceColumn)| && i < |Columns(r.targetColumn)| ==>
      SameCell(source, Columns(r.sourceColumn)[i], target, Columns(r.targetColumn)[i])
  }

  /** On the struct of the source table: the clause pairs a source row with the target rows it refers to. */
  ghost predicate JoinsTargets(join: string, r: Relation) {
    forall source: Row, target: Row :: Matches(join, source, target) <==> ColumnsAgree(r, source, target)
  }

  /** On the struct of the target table: the clause pairs a target row with the source rows that refer to it. */
  ghost predicate JoinsSources(join: string, r: Relation) {
    forall source: Row, target: Row :: Matches(join, target, source) <==> ColumnsAgree(r, source, target)
  }

  /** The two halves of a many-to-many join, changed over. */
  ghost predicate HalvesSwapped(join: string, swapped: string) {
    forall a: string, b: string :: '=' !in a && join == a + ['='] + b ==> swapped == b + ['='] + a
  }

  /** The field is what the source table's struct should have for the relation. */
  ghost predicate AtSource(naming: Naming, table: string, f: StructField, r: Relation) {
    && r.sourceTable == table && f.model == naming.camel(r.targetTable) && f.name == FieldNames(naming, r).0
    && (r.IsM2M() ==> f.ManyToMany? && f.through == r.through && f.join == r.m2mJoin)
    && (!r.IsM2M() ==> f.BelongsTo? && JoinsTargets(f.join, r))
  }

  /** The field is what the target table's struct should have for the relation. */
  ghost predicate AtTarget(naming: Naming, table: string, f: StructField, r: Relation) {
    && r.targetTable == table && f.model == naming.camel(r.sourceTable) && f.name == FieldNames(naming, r).1
    && (r.IsM2M() ==> f.ManyToMany? && f.through == r.through && HalvesSwapped(r.m2mJoin, f.join))
    && (!r.IsM2M() ==> !r.skipReverse && (if r.hasOne then f.HasOne? else f.HasMany?) && JoinsSources(f.join, r))
  }

  /** A name given is the field's; without one the field is named after its model, or by its place in a hierarchy. */
  lemma {:induction false} SourceName(naming: Naming, table: string, f: StructField, r: Relation)
    requires AtSource(naming, table, f, r)
    ensures f.name ==
            if r.field != "" then r.field
            else if f.ManyToMany? then naming.plural(f.model)
            else if r.targetTable == table then "Parent"
            else naming.singular(f.model)
  {
  }

  lemma {:induction false} TargetName(naming: Naming, table: string, f: StructField, r: Relation)
    requires AtTarget(naming, table, f, r)
    ensures f.name ==
            if r.reverseField != "" then r.reverseField
            else if f.ManyToMany? || r.sourceTable != table then naming.plural(f.model)
            else if f.HasOne? then "Child"
            else "Children"
  {
  }

  // ---- clauses ----

  lemma {:induction false} ZipAgrees(src: seq<string>, tgt: seq<string>, source: Row, target: Row)
    ensures (forall p :: p in Zip(src, tgt) ==> SameCell(source, p.0, target, p.1)) <==>
            (forall i :: 0 <= i < |src| && i < |tgt| ==> SameCell(source, src[i], target, tgt[i]))
  {
    var pairs := Zip(src, tgt);
    if forall p :: p in pairs ==> SameCell(source, p.0, target, p.1) {
      forall i | 0 <= i < |src| && i < |tgt| ensures SameCell(source, src[i], target, tgt[i]) {
        assert pairs[i] in pairs;
      }
    }
  }

  lemma {:induction false} ForwardClause(r: Relation)
    requires ValidEndpoints(r)
    ensures JoinsTargets(JoinClause(r.sourceColumn, r.targetColumn), r)
  {
    ClauseMeans(r.sourceColumn, r.targetColumn);
    forall source: Row, target: Row
      ensures Matches(JoinClause(r.sourceColumn, r.targetColumn), source, target) <==> ColumnsAgree(r, source, target)
    {
      ZipAgrees(Columns(r.sourceColumn), Columns(r.targetColumn), source, target);
    }
  }

  lemma {:induction false} BackwardClause(r: Relation)
    requires ValidEndpoints(r)
    ensures JoinsSources(ReverseJoinClause(r.sourceColumn, r.targetColumn), r)
  {
    ForwardClause(r);
    forall source: Row, target: Row
      ensures Matches(ReverseJoinClause(r.sourceColumn, r.targetColumn), target, source) <==>
              ColumnsAgree(r, source, target)
    {
      ReverseIsConverse(r, source, target);
    }
  }

  lemma {:induction false} SwapHalves(a: string, b: string)
    requires '=' !in a
    ensures SwapM2MJoin(a + ['='] + b) == b + ['='] + a
  {
    SplitFirst(a, '=', b);
    var parts := Split(a + ['='] + b, '=');
    assert parts[0] == a && parts[1..] == Split(b, '=');
    JoinSplit(b, '=');
  }

  lemma {:induction false} JoinSplit(s: string, sep: char)
    ensures Join(Split(s, sep), [sep]) == s
  {
    if s != [] {
      JoinSplit(s[1..], sep);
      var rest := Split(s[1..], sep);
      if s[0] == sep {
        assert ([[]] + rest)[1..] == rest;
        assert s == [sep] + s[1..];
      } else {
        JoinHead([s[0]], rest, [sep]);
        assert s == [s[0]] + s[1..];
      }
    }
  }

  lemma {:induction false} JoinHead(a: string, parts: seq<string>, sep: string)
    requires parts != []
    ensures Join([a + parts[0]] + parts[1..], sep) == a + Join(parts, sep)
  {
    assert ([a + parts[0]] + parts[1..])[1..] == parts[1..];
  }

  lemma {:induction false} SwapMeans(join: string)
    ensures HalvesSwapped(join, SwapM2MJoin(join))
  {
    forall a: string, b: string | '=' !in a && join == a + ['='] + b ensures SwapM2MJoin(join) == b + ['='] + a {
      SwapHalves(a, b);
    }
  }

  // ---- one relation ----

  lemma {:induction false} OneAtSource(naming: Naming, table: string, r: Relation)
    requires ValidEndpoints(r) && r.sourceTable == table
    ensures EmitOne(naming, table, r) != [] && AtSource(naming, table, EmitOne(naming, table, r)[0], r)
  {
    ForwardClause(r);
  }

  lemma {:induction false} OneAtTarget(naming: Naming, table: string, r: Relation)
    requires ValidEndpoints(r) && r.targetTable == table && (r.IsM2M() || !r.skipReverse)
    ensures var own := EmitOne(naming, table, r); own != [] && AtTarget(naming, table, own[|own| - 1], r)
  {
    BackwardClause(r);
    SwapMeans(r.m2mJoin);
  }

  lemma {:induction false} OneField(naming: Naming, table: string, r: Relation, k: nat)
    requires ValidEndpoints(r) && k < |EmitOne(naming, table, r)|
    ensures var f := EmitOne(naming, table, r)[k]; AtSource(naming, table, f, r) || AtTarget(naming, table, f, r)
  {
    if r.sourceTable == table { OneAtSource(naming, table, r); }
    if r.targetTable == table && (r.IsM2M() || !r.skipReverse) { OneAtTarget(naming, table, r); }
  }

  // ---- one struct ----

  ghost predicate AllValid(rels: seq<Relation>) { forall i :: 0 <= i < |rels| ==> ValidEndpoints(rels[i]) }

  lemma {:induction false} FieldFrom(naming: Naming, table: string, rels: seq<Relation>, k: nat) returns (l: nat)
    requires AllValid(rels) && k < |Emit(naming, table, rels)|
    ensures l < |rels|
    ensures var f := Emit(naming, table, rels)[k];
            AtSource(naming, table, f, rels[l]) || AtTarget(naming, table, f, rels[l])
  {
    var n := |rels| - 1;
    var before := Emit(naming, table, rels[..n]);
    if k < |before| {
      l := FieldFrom(naming, table, rels[..n], k);
    } else {
      l := n;
      OneField(naming, table, rels[n], k - |before|);
    }
  }

  lemma {:induction false} SourceField(naming: Naming, table: string, rels: seq<Relation>, l: nat) returns (k: nat)
    requires AllValid(rels) && l < |rels| && rels[l].sourceTable == table
    ensures k < |Emit(naming, table, rels)| && AtSource(naming, table, Emit(naming, table, rels)[k], rels[l])
  {
    var n := |rels| - 1;
    if l < n {
      k := SourceField(naming, table, rels[..n], l);
    } else {
      k := |Emit(naming, table, rels[..n])|;
      OneAtSource(naming, table, rels[n]);
    }
  }

  lemma {:induction false} TargetField(naming: Naming, table: string, rels: seq<Relation>, l: nat) returns (k: nat)
    requires AllValid(rels) && l < |rels| && rels[l].targetTable == table && (rels[l].IsM2M() || !rels[l].skipReverse)
    ensures k < |Emit(naming, table, rels)| && AtTarget(naming, table, Emit(naming, table, rels)[k], rels[l])
  {
    var n := |rels| - 1;
    if l < n {
      k := TargetField(naming, table, rels[..n], l);
    } else {
      k := |Emit(naming, table, rels)| - 1;
      OneAtTarget(naming, table, rels[n]);
    }
  }

  // ---- every struct of a successful run ----

  lemma {:induction false} FinalValid(
    naming: Naming, tables: Tables, withRelations: bool, physical: seq<Relation>, logical: seq<Relation>)
    requires Generate(naming, tables, withRelations, physical, logical).Ok?
    ensures forall i :: 0 <= i < |Generate(naming, tables, withRelations, physical, logical).value| ==>
              ValidRelation(Generate(naming, tables, withRelations, physical, logical).value[i])
  {
    forall i | 0 <= i < |Generate(naming, tables, withRelations, physical, logical).value|
      ensures ValidRelation(Generate(naming, tables, withRelations, physical, logical).value[i])
    {
      GenerateKeeps(naming, tables, withRelations, physical, logical, _ => true, i);
    }
  }

  /** Behind every relation field of every struct stands a final relation, and the field says what it means. */
  lemma {:induction false} EveryFieldMeant(
    naming: Naming, tables: Tables, withRelations: bool, physical: seq<Relation>, logical: seq<Relation>,
    table: string, k: nat) returns (r: Relation)
    requires Generate(naming, tables, withRelations, physical, logical).Ok?
    requires k < |Emit(naming, table, Generate(naming, tables, withRelations, physical, logical).value)|
    ensures var out := Generate(naming, tables, withRelations, physical, logical).value;
            var f := Emit(naming, table, out)[k];
            r in out && (AtSource(naming, table, f, r) || AtTarget(naming, table, f, r))
  {
    FinalValid(naming, tables, withRelations, physical, logical);
    var out := Generate(naming, tables, withRelations, physical, logical).value;
    var l := FieldFrom(naming, table, out, k);
    r := out[l];
  }

  /** Every final relation has its field in its source table's struct. */
  lemma {:induction false} EverySourceShown(
    naming: Naming, tables: Tables, withRelations: bool, physical: seq<Relation>, logical: seq<Relation>, r: Relation)
    returns (k: nat)
    requires Generate(naming, tables, withRelations, physical, logical).Ok?
    requires r in Generate(naming, tables, withRelations, physical, logical).value
    ensures var fields := Emit(naming, r.sourceTable,
                               Generate(naming, tables, withRelations, physical, logical).value);
            k < |fields| && AtSource(naming, r.sourceTable, fields[k], r)
  {
    FinalValid(naming, tables, withRelations, physical, logical);
    var out := Generate(naming, tables, withRelations, physical, logical).value;
    var l :| 0 <= l < |out| && out[l] == r;
    k := SourceField(naming, r.sourceTable, out, l);
  }

  /** Every final relation whose reverse field is not suppressed has it in its target table's struct. */
  lemma {:induction false} EveryTargetShown(
    naming: Naming, tables: Tables, withRelations: bool, physical: seq<Relation>, logical: seq<Relation>, r: Relation)
    returns (k: nat)
    requires Generate(naming, tables, withRelations, physical, logical).Ok?
    requires r in Generate(naming, tables, withRelations, physical, logical).value && (r.IsM2M() || !r.skipReverse)
    ensures var fields := Emit(naming, r.targetTable,
                               Generate(naming, tables, withRelations, physical, logical).value);
            k < |fields| && AtTarget(naming, r.targetTable, fields[k], r)
  {
    FinalValid(naming, tables, withRelations, physical, logical);
    var out := Generate(naming, tables, withRelations, physical, logical).value;
    var l :| 0 <= l < |out| && out[l] == r;
    k := TargetField(naming, r.targetTable, out, l);
  }
}
