/**
 What becomes of each relation on its way through GenerateModels
 (internal/database/gen/model.go, internal/database/gen/relation.go): a logical
 relation's names, kind and junction win over the physical ones, a physical
 relation that nothing overrides keeps its own, a reverse field goes missing
 exactly for a junction's foreign keys, and every junction gets its many-to-many
 relation.
 */
module Overrides {
  import opened Wrappers
  import opened KeyedMaps
  import opened Relations
  import opened MergeLaws
  import opened Schema
  import opened Junctions
  import opened Joins
  import opened Emission
  import opened Pipeline
  import opened Structs
  import opened FinalRelations
  import opened FieldMeaning

  /** The last of the relations with this key. */
  function LastWithKey(rels: seq<Relation>, key: string): Option<Relation> {
    if rels == [] then None
    else if KeyOf(rels[|rels| - 1]) == key then Some(rels[|rels| - 1])
    else LastWithKey(rels[..|rels| - 1], key)
  }

  predicate SameEnds(r: Relation, x: Relation) {
    && r.sourceTable == x.sourceTable && r.sourceColumn == x.sourceColumn
    && r.targetTable == x.targetTable && r.targetColumn == x.targetColumn
  }

  /** Everything a user can write in a relation is the same. */
  predicate SameFace(r: Relation, x: Relation) {
    && SameEnds(r, x) && r.kind == x.kind && r.through == x.through
    && r.field == x.field && r.reverseField == x.reverseField
  }

  /** What q gives is r's; what it leaves out is the base's, if there is one. */
  predicate Follows(r: Relation, q: Relation, base: Option<Relation>) {
    && SameEnds(r, q)
    && r.field == (if q.field == "" && base.Some? then base.value.field else q.field)
    && r.reverseField == (if q.reverseField == "" && base.Some? then base.value.reverseField else q.reverseField)
    && r.kind == (if q.kind == "" && base.Some? then base.value.kind else q.kind)
    && r.through == (if q.through == "" && base.Some? then base.value.through else q.through)
  }

  // ---- the first merge ----

  lemma {:induction false} OverwriteLast(items: seq<Relation>, k: string)
    ensures var m := Overwrite(KeyOf, map[], items); LastWithKey(items, k) == if k in m then Some(m[k]) else None
  {
    if items != [] { OverwriteLast(items[..|items| - 1], k); }
  }

  lemma {:induction false} LastIs(rels: seq<Relation>, key: string)
    ensures LastWithKey(rels, key).Some? ==> LastWithKey(rels, key).value in rels
    ensures LastWithKey(rels, key).Some? ==> KeyOf(LastWithKey(rels, key).value) == key
    ensures LastWithKey(rels, key).None? ==> key !in KeySet(KeyOf, rels)
  {
    if rels != [] {
      var n := |rels| - 1;
      LastIs(rels[..n], key);
      assert rels == rels[..n] + [rels[n]];
      KeySetSnoc(KeyOf, rels[..n], rels[n]);
    }
  }

  /** What is filed under a key is listed under that key. */
  lemma {:induction false} MergedAt(naming: Naming, physical: seq<Relation>, logical: seq<Relation>, k: string)
    returns (j: nat)
    requires forall r :: r in logical ==> ValidRelation(r)
    requires Merge(naming, physical, logical).Ok? && k in MergedMap(physical, logical)
    ensures j < |Merge(naming, physical, logical).value|
    ensures var r := Merge(naming, physical, logical).value[j];
            r == MergedMap(physical, logical)[k] && KeyOf(r) == k
  {
    var rels := Merge(naming, physical, logical).value;
    MergeResult(naming, physical, logical);
    CombineAdds(KeyOf, Override, map[], rels);
    assert k in KeySet(KeyOf, rels);
    j :| 0 <= j < |rels| && KeyOf(rels[j]) == k;
    assert rels[j] in rels;
  }

  lemma {:induction false} MergedLogical(physical: seq<Relation>, logical: seq<Relation>, i: nat)
    requires DistinctKeys(logical) && i < |logical|
    ensures var q := logical[i]; var k := KeyOf(q); var base := LastWithKey(physical, k);
      k in MergedMap(physical, logical)
      && MergedMap(physical, logical)[k] == if base.Some? then Override(base.value, q) else q
  {
    var m := Overwrite(KeyOf, map[], physical);
    CombineAdds(KeyOf, Override, m, logical);
    assert logical[i] in logical;
    OverwriteLast(physical, KeyOf(logical[i]));
  }

  lemma {:induction false} MergedPhysical(physical: seq<Relation>, logical: seq<Relation>, i: nat)
    requires DistinctKeys(logical) && i < |physical| && KeyOf(physical[i]) !in KeySet(KeyOf, logical)
    ensures var k := KeyOf(physical[i]);
      k in MergedMap(physical, logical) && Some(MergedMap(physical, logical)[k]) == LastWithKey(physical, k)
  {
    var m := Overwrite(KeyOf, map[], physical);
    CombineAdds(KeyOf, Override, m, logical);
    OverwriteLast(physical, KeyOf(physical[i]));
    FoldedKeys(KeyOf, Override, map[], physical);
    assert KeyOf(physical[i]) in KeySet(KeyOf, physical);
  }

  lemma {:induction false} OverrideFollows(base: Relation, q: Relation)
    requires ValidRelation(q) && ValidRelation(Override(base, q)) && KeyOf(base) == KeyOf(q)
    requires KeyOf(Override(base, q)) == KeyOf(q)
    ensures Follows(Override(base, q), q, Some(base))
  {
    KeyInjective(Override(base, q), q);
  }

  /** The merge gives every logical relation what it asks for. */
  lemma {:induction false} MergeOverrides(naming: Naming, physical: seq<Relation>, logical: seq<Relation>, i: nat)
    returns (j: nat)
    requires DistinctKeys(logical) && forall r :: r in logical ==> ValidRelation(r)
    requires Merge(naming, physical, logical).Ok? && i < |logical|
    ensures var rels := Merge(naming, physical, logical).value; var k := KeyOf(logical[i]);
            && j < |rels| && KeyOf(rels[j]) == k && Follows(rels[j], logical[i], LastWithKey(physical, k))
            && forall l :: 0 <= l < |rels| && l != j ==> KeyOf(rels[l]) != k
  {
    var rels, k := Merge(naming, physical, logical).value, KeyOf(logical[i]);
    MergedLogical(physical, logical, i);
    j := MergedAt(naming, physical, logical, k);
    MergeResult(naming, physical, logical);
    LastIs(physical, k);
    assert logical[i] in logical;
    if LastWithKey(physical, k).Some? { OverrideFollows(LastWithKey(physical, k).value, logical[i]); }
    forall l | 0 <= l < |rels| && l != j ensures KeyOf(rels[l]) != k {
      if l < j { assert KeyOf(rels[l]) != KeyOf(rels[j]); } else { assert KeyOf(rels[j]) != KeyOf(rels[l]); }
    }
  }

  /** A physical relation that no logical one overrides is listed as it is, the last of its key. */
  lemma {:induction false} MergeKeepsPhysical(naming: Naming, physical: seq<Relation>, logical: seq<Relation>, i: nat)
    returns (j: nat)
    requires DistinctKeys(logical) && forall r :: r in logical ==> ValidRelation(r)
    requires Merge(naming, physical, logical).Ok?
    requires i < |physical| && KeyOf(physical[i]) !in KeySet(KeyOf, logical)
    ensures var rels := Merge(naming, physical, logical).value; var k := KeyOf(physical[i]);
            j < |rels| && KeyOf(rels[j]) == k && Some(rels[j]) == LastWithKey(physical, k)
  {
    MergedPhysical(physical, logical, i);
    j := MergedAt(naming, physical, logical, KeyOf(physical[i]));
  }

  // ---- the later passes ----

  /** A detected many-to-many relation names no fields. */
  predicate Unnamed(r: Relation) { r.field == "" && r.reverseField == "" }

  lemma {:induction false} UnnamedOverrides(r: Relation, x: Relation)
    requires ValidRelation(r) && ValidRelation(x) && KeyOf(r) == KeyOf(x) && Unnamed(x) && x.IsM2M()
    ensures SameFace(Override(r, x), r) && KeyOf(Override(r, x)) == KeyOf(r)
  {
    KeyInjective(r, x);
    OverrideKeepsKey(r, x);
  }

  /** Relations merged with nameless ones of distinct keys keep their face. */
  lemma {:induction false} MergeKeepsFace(naming: Naming, a: seq<Relation>, b: seq<Relation>, i: nat) returns (j: nat)
    requires forall r :: r in a + b ==> ValidRelation(r)
    requires DistinctKeys(a) && DistinctKeys(b) && forall x :: x in b ==> Unnamed(x) && x.IsM2M()
    requires Merge(naming, [], a + b).Ok? && i < |a|
    ensures var rels := Merge(naming, [], a + b).value;
            j < |rels| && KeyOf(rels[j]) == KeyOf(a[i]) && SameFace(rels[j], a[i])
  {
    var k, m := KeyOf(a[i]), Combine(KeyOf, Override, map[], a);
    CombineAdds(KeyOf, Override, map[], a);
    CombineAppend(KeyOf, Override, map[], a, b);
    CombineAdds(KeyOf, Override, m, b);
    assert a[i] in a && a[i] in a + b;
    assert k in m && m[k] == a[i];
    var after := Combine(KeyOf, Override, m, b);
    assert k in after && SameFace(after[k], a[i]) by {
      if k in KeySet(KeyOf, b) {
        var l :| 0 <= l < |b| && KeyOf(b[l]) == k;
        assert b[l] in b && b[l] in a + b;
        UnnamedOverrides(a[i], b[l]);
      }
    }
    j := MergedAt(naming, [], a + b, k);
  }

  /** Nameless relations whose key nothing else has are listed as they are. */
  lemma {:induction false} MergeKeepsNew(naming: Naming, a: seq<Relation>, b: seq<Relation>, i: nat) returns (j: nat)
    requires forall r :: r in a + b ==> ValidRelation(r)
    requires DistinctKeys(a) && DistinctKeys(b)
    requires Merge(naming, [], a + b).Ok? && i < |b| && KeyOf(b[i]) !in KeySet(KeyOf, a)
    ensures var rels := Merge(naming, [], a + b).value; j < |rels| && rels[j] == b[i]
  {
    var k, m := KeyOf(b[i]), Combine(KeyOf, Override, map[], a);
    CombineAdds(KeyOf, Override, map[], a);
    CombineAppend(KeyOf, Override, map[], a, b);
    CombineAdds(KeyOf, Override, m, b);
    assert b[i] in b;
    j := MergedAt(naming, [], a + b, k);
  }

  ghost function Autos(naming: Naming, tables: Tables, rels: seq<Relation>): (autos: seq<Relation>)
  {
    var annotated := AnnotateAll(tables, rels);
    SkipReverseAll(Suppressed(annotated, JunctionTables(tables, annotated)), Detected(naming, tables, rels))
  }

  ghost function Prepared(tables: Tables, rels: seq<Relation>): (list: seq<Relation>)
    ensures |list| == |rels|
  {
    var annotated := AnnotateAll(tables, rels);
    SkipReverseAll(Suppressed(annotated, JunctionTables(tables, annotated)), annotated)
  }

  lemma {:induction false} InferredParts(naming: Naming, tables: Tables, rels: seq<Relation>)
    requires DistinctKeys(rels) && forall r :: r in rels ==> ValidRelation(r)
    ensures var a, b := Prepared(tables, rels), Autos(naming, tables, rels);
      && Inferred(naming, tables, rels, JunctionsInOrder(tables, rels)) == a + b
      && (forall r :: r in a + b ==> ValidRelation(r))
      && DistinctKeys(a) && DistinctKeys(b) && (forall x :: x in b ==> Unnamed(x) && x.IsM2M())
      && (forall i :: 0 <= i < |rels| ==> KeyOf(a[i]) == KeyOf(rels[i]) && SameFace(a[i], rels[i]))
  {
    var order := JunctionsInOrder(tables, rels);
    InferredValid(naming, tables, rels, order);
    AnnotatedFacts(tables, rels);
    var annotated := AnnotateAll(tables, rels);
    var js := JunctionTables(tables, annotated);
    EnumeratedMembers(order, js);
    EnumeratedOnce(order, js);
    JunctionsDistinct(naming, annotated, order);
    SkippedDistinct(Suppressed(annotated, js), annotated);
    SkippedDistinct(Suppressed(annotated, js), Detected(naming, tables, rels));
    PreparedFaces(tables, rels);
  }

  lemma {:induction false} PreparedFaces(tables: Tables, rels: seq<Relation>)
    ensures forall i :: 0 <= i < |rels| ==>
              KeyOf(Prepared(tables, rels)[i]) == KeyOf(rels[i]) && SameFace(Prepared(tables, rels)[i], rels[i])
  {
    forall i | 0 <= i < |rels|
      ensures KeyOf(Prepared(tables, rels)[i]) == KeyOf(rels[i]) && SameFace(Prepared(tables, rels)[i], rels[i])
    {
      var annotated := AnnotateAll(tables, rels);
      AnnotateKeepsKey(tables, rels[i]);
      SkipKeepsKey(Suppressed(annotated, JunctionTables(tables, annotated)), annotated[i]);
    }
  }

  /** Every relation that enters inference is in the final list with the face it had. */
  lemma {:induction false} InferKeepsFace(naming: Naming, tables: Tables, rels: seq<Relation>, i: nat) returns (j: nat)
    requires DistinctKeys(rels) && forall r :: r in rels ==> ValidRelation(r)
    requires Infer(naming, tables, rels).Ok? && i < |rels|
    ensures var out := Infer(naming, tables, rels).value;
            j < |out| && KeyOf(out[j]) == KeyOf(rels[i]) && SameFace(out[j], rels[i])
  {
    var a, b := Prepared(tables, rels), Autos(naming, tables, rels);
    InferredParts(naming, tables, rels);
    j := MergeKeepsFace(naming, a, b, i);
    var merged := Merge(naming, [], a + b).value;
    ResolvedOnlyJoin(naming, merged, j);
    ResolvedIdentity(naming, merged, merged[j]);
  }

  // ---- the final list ----

  lemma {:induction false} GenerateInfers(
    naming: Naming, tables: Tables, withRelations: bool, physical: seq<Relation>, logical: seq<Relation>)
    requires Generate(naming, tables, withRelations, physical, logical).Ok?
    ensures var rels := Entering(naming, withRelations, physical, logical);
            && Infer(naming, tables, rels) == Generate(naming, tables, withRelations, physical, logical)
            && DistinctKeys(rels) && (forall r :: r in rels ==> ValidRelation(r))
    ensures DistinctKeys(logical) && (forall r :: r in logical ==> ValidRelation(r))
    ensures withRelations ==> Merge(naming, physical, logical).Ok?
    ensures DistinctKeys(Generate(naming, tables, withRelations, physical, logical).value)
  {
    InputFacts(naming, withRelations, physical, logical);
    FinalKeys(naming, tables, withRelations, physical, logical);
    assert Validated(logical).Ok?;
  }

  lemma {:induction false} OnlyOne<T>(key: T -> string, items: seq<T>, j: nat)
    requires Distinct(key, items) && j < |items|
    ensures forall l :: 0 <= l < |items| && l != j ==> key(items[l]) != key(items[j])
  {
    forall l | 0 <= l < |items| && l != j ensures key(items[l]) != key(items[j]) {
      if l < j { assert key(items[l]) != key(items[j]); } else { assert key(items[j]) != key(items[l]); }
    }
  }

  lemma {:induction false} FaceFollows(r: Relation, s: Relation, q: Relation, base: Option<Relation>)
    requires SameFace(r, s) && Follows(s, q, base)
    ensures Follows(r, q, base)
  {
  }

  /**
   For each logical relation the final list has one relation with its key. What
   the logical relation gives is what that one has; what it leaves out comes from
   the last physical relation with the key, if physical relations are read and
   there is one.
   */
  lemma {:induction false} LogicalWins(
    naming: Naming, tables: Tables, withRelations: bool, physical: seq<Relation>, logical: seq<Relation>, i: nat)
    returns (j: nat)
    requires Generate(naming, tables, withRelations, physical, logical).Ok? && i < |logical|
    ensures var out := Generate(naming, tables, withRelations, physical, logical).value;
            var k := KeyOf(logical[i]);
            && j < |out| && KeyOf(out[j]) == k
            && Follows(out[j], logical[i], if withRelations then LastWithKey(physical, k) else None)
            && forall l :: 0 <= l < |out| && l != j ==> KeyOf(out[l]) != k
  {
    GenerateInfers(naming, tables, withRelations, physical, logical);
    var rels := Entering(naming, withRelations, physical, logical);
    var e := i;
    if withRelations {
      e := MergeOverrides(naming, physical, logical, i);
    }
    j := InferKeepsFace(naming, tables, rels, e);
    var base := if withRelations then LastWithKey(physical, KeyOf(logical[i])) else None;
    var out := Generate(naming, tables, withRelations, physical, logical).value;
    FaceFollows(out[j], rels[e], logical[i], base);
    OnlyOne(KeyOf, out, j);
  }

  /** A physical relation that no logical one overrides reaches the final list with the names it came with. */
  lemma {:induction false} PhysicalKept(
    naming: Naming, tables: Tables, physical: seq<Relation>, logical: seq<Relation>, i: nat)
    returns (j: nat)
    requires Generate(naming, tables, true, physical, logical).Ok?
    requires i < |physical| && KeyOf(physical[i]) !in KeySet(KeyOf, logical)
    ensures var out := Generate(naming, tables, true, physical, logical).value;
            var last := LastWithKey(physical, KeyOf(physical[i]));
            && j < |out| && KeyOf(out[j]) == KeyOf(physical[i])
            && last.Some? && SameFace(out[j], last.value)
            && forall l :: 0 <= l < |out| && l != j ==> KeyOf(out[l]) != KeyOf(physical[i])
  {
    GenerateInfers(naming, tables, true, physical, logical);
    var e := MergeKeepsPhysical(naming, physical, logical, i);
    j := InferKeepsFace(naming, tables, Entering(naming, true, physical, logical), e);
    OnlyOne(KeyOf, Generate(naming, tables, true, physical, logical).value, j);
  }

  /** A field name a logical relation gives is the name of a field of its source table's struct. */
  lemma {:induction false} GivenFieldShown(
    naming: Naming, tables: Tables, withRelations: bool, physical: seq<Relation>, logical: seq<Relation>, i: nat)
    returns (k: nat)
    requires Generate(naming, tables, withRelations, physical, logical).Ok?
    requires i < |logical| && logical[i].field != ""
    ensures var q := logical[i];
            var fields := Emit(naming, q.sourceTable,
                               Generate(naming, tables, withRelations, physical, logical).value);
            && k < |fields| && fields[k].name == q.field && fields[k].model == naming.camel(q.targetTable)
            && (q.IsM2M() ==> fields[k].ManyToMany? && fields[k].through == q.through)
            && (!q.IsM2M() ==> fields[k].BelongsTo? && JoinsTargets(fields[k].join, q))
  {
    var j := LogicalWins(naming, tables, withRelations, physical, logical, i);
    var r := Generate(naming, tables, withRelations, physical, logical).value[j];
    k := EverySourceShown(naming, tables, withRelations, physical, logical, r);
    FinalValid(naming, tables, withRelations, physical, logical);
    GenerateInfers(naming, tables, withRelations, physical, logical);
    assert logical[i] in logical;
    KeyInjective(r, logical[i]);
    if !r.IsM2M() {
      SameJoin(r, logical[i], Emit(naming, r.sourceTable,
                                   Generate(naming, tables, withRelations, physical, logical).value)[k].join);
    }
  }

  lemma {:induction false} SameJoin(r: Relation, q: Relation, join: string)
    requires SameEnds(r, q) && JoinsTargets(join, r)
    ensures JoinsTargets(join, q)
  {
    forall source: Row, target: Row ensures Matches(join, source, target) <==> ColumnsAgree(q, source, target) {
      assert ColumnsAgree(q, source, target) <==> ColumnsAgree(r, source, target);
    }
  }
}
