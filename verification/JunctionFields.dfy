/**
 What detecting a junction does to the structs (internal/database/gen/relation.go,
 internal/database/gen/naming.go): whose reverse fields go missing, which
 many-to-many relation takes their place, and whether its join names the fields
 the junction's struct has.
 */
module JunctionFields {
  import opened Wrappers
  import opened Ordering
  import opened Text
  import opened KeyedMaps
  import opened Relations
  import opened MergeLaws
  import opened Schema
  import opened Junctions
  import opened Joins
  import opened Emission
  import opened Pipeline
  import opened Structs
  import opened JoinNames
  import opened FinalRelations
  import opened FieldMeaning
  import opened Overrides

  /** The tables detected as junctions. */
  ghost function JunctionsOf(tables: Tables, rels: seq<Relation>): set<string> {
    JunctionTables(tables, AnnotateAll(tables, rels))
  }

  /** The default name of a field that holds one row of the table. */
  function Singular(naming: Naming, table: string): string { naming.singular(naming.camel(table)) }

  // ---- missing reverse fields ----

  lemma {:induction false} SuppressedExact(annotated: seq<Relation>, js: set<string>, x: Relation)
    requires (forall r :: r in annotated ==> ValidRelation(r)) && ValidRelation(x) && (x.IsM2M() || x in annotated)
    ensures KeyOf(x) in Suppressed(annotated, js) <==> !x.IsM2M() && x.sourceTable in js
  {
    if KeyOf(x) in Suppressed(annotated, js) {
      var t :| t in js && KeyOf(x) in FkKeys(annotated, t);
      var i :| 0 <= i < |ForeignKeys(annotated, t)| && KeyOf(ForeignKeys(annotated, t)[i]) == KeyOf(x);
      assert ForeignKeys(annotated, t)[i] in ForeignKeys(annotated, t);
      KeyInjective(ForeignKeys(annotated, t)[i], x);
    }
    if !x.IsM2M() && x.sourceTable in js {
      ForeignKeyListed(annotated, x.sourceTable, x);
      KeySetMember(KeyOf, ForeignKeys(annotated, x.sourceTable), x);
      assert KeyOf(x) in FkKeys(annotated, x.sourceTable);
    }
  }

  predicate SkipsFor(js: set<string>, r: Relation) { r.skipReverse <==> !r.IsM2M() && r.sourceTable in js }

  lemma {:induction false} SkipsKept(js: set<string>)
    ensures OverrideKeeps(r => SkipsFor(js, r)) && JoinBlind(r => SkipsFor(js, r))
  {
    forall a, b | ValidRelation(a) && ValidRelation(b) && SkipsFor(js, a) && KeyOf(a) == KeyOf(b)
      ensures SkipsFor(js, Override(a, b))
    {
      OverrideValid(a, b);
    }
  }

  lemma {:induction false} EnteringUnskipped(
    naming: Naming, withRelations: bool, physical: seq<Relation>, logical: seq<Relation>, i: nat)
    requires forall i :: 0 <= i < |physical| ==> !physical[i].skipReverse
    requires forall i :: 0 <= i < |logical| ==> !logical[i].skipReverse
    requires i < |Entering(naming, withRelations, physical, logical)|
    ensures !Entering(naming, withRelations, physical, logical)[i].skipReverse
  {
    if withRelations && Merge(naming, physical, logical).Ok? {
      var p := (r: Relation) => !r.skipReverse;
      FiledKeeps(KeyOf, Override, p, map[], physical);
      FiledKeeps(KeyOf, Override, p, Overwrite(KeyOf, map[], physical), logical);
      StringKeys(MergedMap(physical, logical).Keys);
      var keys := SortedKeys(LessEq, MergedMap(physical, logical).Keys);
      assert keys[i] in keys;
    }
  }

  lemma {:induction false} PreparedSkips(tables: Tables, rels: seq<Relation>, i: nat)
    requires DistinctKeys(rels) && (forall r :: r in rels ==> ValidRelation(r)) && i < |rels| && !rels[i].skipReverse
    ensures SkipsFor(JunctionsOf(tables, rels), Prepared(tables, rels)[i])
  {
    var annotated := AnnotateAll(tables, rels);
    AnnotatedFacts(tables, rels);
    assert annotated[i] in annotated;
    SuppressedExact(annotated, JunctionsOf(tables, rels), annotated[i]);
  }

  lemma {:induction false} AutoSkips(naming: Naming, tables: Tables, rels: seq<Relation>, i: nat)
    requires DistinctKeys(rels) && (forall r :: r in rels ==> ValidRelation(r))
    requires i < |Autos(naming, tables, rels)|
    ensures SkipsFor(JunctionsOf(tables, rels), Autos(naming, tables, rels)[i])
  {
    var annotated, order := AnnotateAll(tables, rels), JunctionsInOrder(tables, rels);
    AnnotatedFacts(tables, rels);
    EnumeratedMembers(order, JunctionsOf(tables, rels));
    assert order[i] in order;
    JunctionValid(naming, annotated, order[i]);
    SuppressedExact(annotated, JunctionsOf(tables, rels), Detected(naming, tables, rels)[i]);
  }

  lemma {:induction false} InferredSkips(naming: Naming, tables: Tables, rels: seq<Relation>)
    requires DistinctKeys(rels) && (forall r :: r in rels ==> ValidRelation(r))
    requires forall i :: 0 <= i < |rels| ==> !rels[i].skipReverse
    ensures AllInferred(naming, tables, rels, r => SkipsFor(JunctionsOf(tables, rels), r))
  {
    var js := JunctionsOf(tables, rels);
    InferredParts(naming, tables, rels);
    var a, b := Prepared(tables, rels), Autos(naming, tables, rels);
    forall k | 0 <= k < |a + b| ensures SkipsFor(js, (a + b)[k]) {
      if k < |rels| { PreparedSkips(tables, rels, k); } else { AutoSkips(naming, tables, rels, k - |rels|); }
    }
  }

  /** A final relation's reverse field is suppressed exactly when it is a foreign key of a detected junction. */
  lemma {:induction false} SkippedExactly(
    naming: Naming, tables: Tables, withRelations: bool, physical: seq<Relation>, logical: seq<Relation>, i: nat)
    requires Generate(naming, tables, withRelations, physical, logical).Ok?
    requires forall i :: 0 <= i < |physical| ==> !physical[i].skipReverse
    requires forall i :: 0 <= i < |logical| ==> !logical[i].skipReverse
    requires i < |Generate(naming, tables, withRelations, physical, logical).value|
    ensures var r := Generate(naming, tables, withRelations, physical, logical).value[i];
            var js := JunctionsOf(tables, Entering(naming, withRelations, physical, logical));
            r.skipReverse <==> !r.IsM2M() && r.sourceTable in js
  {
    GenerateInfers(naming, tables, withRelations, physical, logical);
    var rels := Entering(naming, withRelations, physical, logical);
    forall k | 0 <= k < |rels| ensures !rels[k].skipReverse {
      EnteringUnskipped(naming, withRelations, physical, logical, k);
    }
    InferredSkips(naming, tables, rels);
    SkipsKept(JunctionsOf(tables, rels));
    GenerateKeeps(naming, tables, withRelations, physical, logical, r => SkipsFor(JunctionsOf(tables, rels), r), i);
  }

  /** A reverse name a logical relation gives is a field of its target table's struct, unless a junction absorbs it. */
  lemma {:induction false} GivenReverseShown(
    naming: Naming, tables: Tables, withRelations: bool, physical: seq<Relation>, logical: seq<Relation>, i: nat)
    returns (k: nat)
    requires Generate(naming, tables, withRelations, physical, logical).Ok?
    requires forall i :: 0 <= i < |physical| ==> !physical[i].skipReverse
    requires forall i :: 0 <= i < |logical| ==> !logical[i].skipReverse
    requires i < |logical| && logical[i].reverseField != ""
    requires logical[i].IsM2M() ||
             logical[i].sourceTable !in JunctionsOf(tables, Entering(naming, withRelations, physical, logical))
    ensures var q := logical[i];
            var fields := Emit(naming, q.targetTable,
                               Generate(naming, tables, withRelations, physical, logical).value);
            && k < |fields| && fields[k].name == q.reverseField && fields[k].model == naming.camel(q.sourceTable)
            && (q.IsM2M() ==> fields[k].ManyToMany? && fields[k].through == q.through)
            && (!q.IsM2M() ==> (fields[k].HasOne? || fields[k].HasMany?) && JoinsSources(fields[k].join, q))
  {
    var j := LogicalWins(naming, tables, withRelations, physical, logical, i);
    SkippedExactly(naming, tables, withRelations, physical, logical, j);
    FinalValid(naming, tables, withRelations, physical, logical);
    GenerateInfers(naming, tables, withRelations, physical, logical);
    assert logical[i] in logical;
    var r := Generate(naming, tables, withRelations, physical, logical).value[j];
    KeyInjective(r, logical[i]);
    k := EveryTargetShown(naming, tables, withRelations, physical, logical, r);
    if !r.IsM2M() {
      SameSources(r, logical[i], Emit(naming, r.targetTable,
                                      Generate(naming, tables, withRelations, physical, logical).value)[k].join);
    }
  }

  lemma {:induction false} SameSources(r: Relation, q: Relation, join: string)
    requires SameEnds(r, q) && JoinsSources(join, r)
    ensures JoinsSources(join, q)
  {
    forall source: Row, target: Row ensures Matches(join, target, source) <==> ColumnsAgree(q, source, target) {
      assert ColumnsAgree(q, source, target) <==> ColumnsAgree(r, source, target);
    }
  }

  // ---- the many-to-many relation of a junction ----

  /** The relation links what the two foreign keys point at, in table order. */
  predicate Links(r: Relation, t: string, left: Relation, right: Relation) {
    && r.IsM2M() && r.through == t && LessEq(left.targetTable, right.targetTable)
    && r.sourceTable == left.targetTable && r.sourceColumn == left.targetColumn
    && r.targetTable == right.targetTable && r.targetColumn == right.targetColumn
  }

  lemma {:induction false} DetectedAt(naming: Naming, tables: Tables, rels: seq<Relation>, t: string) returns (i: nat)
    requires t in JunctionsOf(tables, rels)
    ensures |ForeignKeys(AnnotateAll(tables, rels), t)| == 2
    ensures i < |Detected(naming, tables, rels)|
    ensures Detected(naming, tables, rels)[i] ==
            JunctionRelation(naming, t, ForeignKeys(AnnotateAll(tables, rels), t))
  {
    var order := JunctionsInOrder(tables, rels);
    EnumeratedMembers(order, JunctionsOf(tables, rels));
    assert t in order;
    i :| 0 <= i < |order| && order[i] == t;
  }

  lemma {:induction false} LinksAny(naming: Naming, t: string, fks: seq<Relation>)
    returns (left: Relation, right: Relation)
    requires |fks| == 2
    ensures Links(JunctionRelation(naming, t, fks), t, left, right)
    ensures fks == [left, right] || fks == [right, left]
    ensures JunctionRelation(naming, t, fks).m2mJoin ==
            Singular(naming, left.targetTable) + ['='] + Singular(naming, right.targetTable)
  {
    LessEqTotal(fks[0].targetTable, fks[1].targetTable);
    left, right := fks[0], fks[1];
    if !LessEq(fks[0].targetTable, fks[1].targetTable) {
      left, right := fks[1], fks[0];
    }
  }

  lemma {:induction false} AutoValid(naming: Naming, tables: Tables, rels: seq<Relation>, t: string, fks: seq<Relation>)
    requires DistinctKeys(rels) && (forall r :: r in rels ==> ValidRelation(r)) && t in JunctionsOf(tables, rels)
    requires fks == ForeignKeys(AnnotateAll(tables, rels), t)
    ensures |fks| == 2
    ensures ValidRelation(JunctionRelation(naming, t, fks))
    ensures KeyOf(JunctionRelation(naming, t, fks)) in KeySet(KeyOf, Detected(naming, tables, rels))
  {
    var i := DetectedAt(naming, tables, rels, t);
    AnnotatedFacts(tables, rels);
    JunctionValid(naming, AnnotateAll(tables, rels), t);
    KeySetMember(KeyOf, Detected(naming, tables, rels), Detected(naming, tables, rels)[i]);
  }

  lemma {:induction false} AutoLinks(naming: Naming, tables: Tables, rels: seq<Relation>, t: string, fks: seq<Relation>)
    returns (auto: Relation, left: Relation, right: Relation)
    requires DistinctKeys(rels) && (forall r :: r in rels ==> ValidRelation(r)) && t in JunctionsOf(tables, rels)
    requires fks == ForeignKeys(AnnotateAll(tables, rels), t)
    ensures ValidRelation(auto) && KeyOf(auto) in KeySet(KeyOf, Detected(naming, tables, rels))
    ensures Links(auto, t, left, right) && (fks == [left, right] || fks == [right, left])
  {
    AutoValid(naming, tables, rels, t, fks);
    auto := JunctionRelation(naming, t, fks);
    left, right := LinksAny(naming, t, fks);
  }

  lemma {:induction false} FinalWithKey(
    naming: Naming, tables: Tables, withRelations: bool, physical: seq<Relation>, logical: seq<Relation>, k: string)
    returns (j: nat)
    requires Generate(naming, tables, withRelations, physical, logical).Ok?
    requires k in KeySet(KeyOf, Detected(naming, tables, Entering(naming, withRelations, physical, logical)))
    ensures var out := Generate(naming, tables, withRelations, physical, logical).value;
            j < |out| && KeyOf(out[j]) == k && ValidRelation(out[j])
  {
    FinalKeys(naming, tables, withRelations, physical, logical);
    var out := Generate(naming, tables, withRelations, physical, logical).value;
    j :| 0 <= j < |out| && KeyOf(out[j]) == k;
    GenerateKeeps(naming, tables, withRelations, physical, logical, _ => true, j);
  }

  lemma {:induction false} SameLinks(r: Relation, auto: Relation, t: string, left: Relation, right: Relation)
    requires ValidRelation(r) && ValidRelation(auto) && KeyOf(r) == KeyOf(auto) && Links(auto, t, left, right)
    ensures Links(r, t, left, right)
  {
    KeyInjective(r, auto);
  }

  /**
   Each detected junction has a many-to-many relation in the final list, between
   what its two foreign keys point at.
   */
  lemma {:induction false} JunctionLinked(
    naming: Naming, tables: Tables, withRelations: bool, physical: seq<Relation>, logical: seq<Relation>, t: string)
    returns (j: nat, left: Relation, right: Relation)
    requires Generate(naming, tables, withRelations, physical, logical).Ok?
    requires t in JunctionsOf(tables, Entering(naming, withRelations, physical, logical))
    ensures var out := Generate(naming, tables, withRelations, physical, logical).value;
            var fks := ForeignKeys(AnnotateAll(tables, Entering(naming, withRelations, physical, logical)), t);
            && j < |out| && Links(out[j], t, left, right)
            && (fks == [left, right] || fks == [right, left])
  {
    GenerateInfers(naming, tables, withRelations, physical, logical);
    var auto;
    var rels := Entering(naming, withRelations, physical, logical);
    auto, left, right := AutoLinks(naming, tables, rels, t, ForeignKeys(AnnotateAll(tables, rels), t));
    j := FinalWithKey(naming, tables, withRelations, physical, logical, KeyOf(auto));
    SameLinks(Generate(naming, tables, withRelations, physical, logical).value[j], auto, t, left, right);
  }

  // ---- the join of a detected relation ----

  /** The foreign key's field is called after the table it points at. */
  predicate NamedByTable(naming: Naming, fk: Relation) {
    var name := Singular(naming, fk.targetTable);
    if fk.field != "" then fk.field == name else fk.sourceTable != fk.targetTable || name == "Parent"
  }

  /** The junction's struct has the foreign key's field, and this half of the join is its name in exactly that case. */
  ghost predicate HalfExact(naming: Naming, out: seq<Relation>, t: string, half: string, fk: Relation) {
    && fk in ForeignKeys(out, t) && half == Singular(naming, fk.targetTable)
    && BelongsToNamed(Emit(naming, t, out), FieldNames(naming, fk).0)
    && (half == FieldNames(naming, fk).0 <==> NamedByTable(naming, fk))
  }

  lemma {:induction false} FieldOfKey(naming: Naming, out: seq<Relation>, t: string, l: nat)
    requires l < |out| && IsForeignKey(out[l], t)
    ensures HalfExact(naming, out, t, Singular(naming, out[l].targetTable), out[l])
  {
    ForeignKeyListed(out, t, out[l]);
    var k := EmitContains(naming, t, out, l);
  }

  /** A foreign key that enters inference is a final one with the same face. */
  lemma {:induction false} KeyKept(naming: Naming, tables: Tables, rels: seq<Relation>, t: string, fk: Relation)
    returns (l: nat)
    requires DistinctKeys(rels) && (forall r :: r in rels ==> ValidRelation(r))
    requires Infer(naming, tables, rels).Ok? && fk in ForeignKeys(AnnotateAll(tables, rels), t)
    ensures var out := Infer(naming, tables, rels).value;
            l < |out| && IsForeignKey(out[l], t) && SameFace(out[l], fk)
  {
    var annotated := AnnotateAll(tables, rels);
    var x :| 0 <= x < |annotated| && annotated[x] == fk;
    l := InferKeepsFace(naming, tables, rels, x);
  }

  /** A merged relation that no input has the key of is a detected one. */
  lemma {:induction false} NewIsDetected(naming: Naming, tables: Tables, rels: seq<Relation>, i: nat) returns (n: nat)
    requires DistinctKeys(rels) && (forall r :: r in rels ==> ValidRelation(r))
    requires Infer(naming, tables, rels).Ok? && i < |Infer(naming, tables, rels).value|
    requires KeyOf(Infer(naming, tables, rels).value[i]) !in KeySet(KeyOf, rels)
    ensures n < |Autos(naming, tables, rels)|
    ensures Infer(naming, tables, rels).value[i] == Autos(naming, tables, rels)[n]
  {
    var a, b := Prepared(tables, rels), Autos(naming, tables, rels);
    InferredParts(naming, tables, rels);
    var merged := Merge(naming, [], a + b).value;
    ResolvedOnlyJoin(naming, merged, i);
    ResolvedIdentity(naming, merged, merged[i]);
    SameKeys(KeyOf, rels, a);
    n := MergedIsNew(naming, a, b, i);
    AutoJoined(naming, tables, rels, n);
  }

  lemma {:induction false} MergedIsNew(naming: Naming, a: seq<Relation>, b: seq<Relation>, i: nat) returns (n: nat)
    requires forall r :: r in a + b ==> ValidRelation(r)
    requires DistinctKeys(a) && DistinctKeys(b)
    requires Merge(naming, [], a + b).Ok? && i < |Merge(naming, [], a + b).value|
    requires KeyOf(Merge(naming, [], a + b).value[i]) !in KeySet(KeyOf, a)
    ensures n < |b| && Merge(naming, [], a + b).value[i] == b[n]
  {
    var merged := Merge(naming, [], a + b).value;
    MergeKeys(naming, [], a + b);
    n := KeyInSecond(KeyOf, a, b, merged, i);
    var j := MergeKeepsNew(naming, a, b, n);
    MergeResult(naming, [], a + b);
    OnlyOne(KeyOf, merged, j);
  }

  lemma {:induction false} KeyInSecond<T>(key: T -> string, a: seq<T>, b: seq<T>, all: seq<T>, i: nat)
    returns (n: nat)
    requires KeySet(key, all) <= KeySet(key, a + b) && i < |all| && key(all[i]) !in KeySet(key, a)
    ensures n < |b| && key(b[n]) == key(all[i])
  {
    KeySetAppend(key, a, b);
    assert key(all[i]) in KeySet(key, all);
    assert key(all[i]) in KeySet(key, b);
    n :| 0 <= n < |b| && key(b[n]) == key(all[i]);
  }

  lemma {:induction false} AutoJoined(naming: Naming, tables: Tables, rels: seq<Relation>, n: nat)
    requires n < |Autos(naming, tables, rels)|
    ensures Autos(naming, tables, rels)[n].m2mJoin != ""
  {
    var order := JunctionsInOrder(tables, rels);
    EnumeratedMembers(order, JunctionsOf(tables, rels));
    assert order[n] in order;
  }

  /** What a detected relation is made from. */
  lemma {:induction false} AutoFrom(naming: Naming, tables: Tables, rels: seq<Relation>, n: nat)
    returns (left: Relation, right: Relation)
    requires n < |Autos(naming, tables, rels)|
    ensures var r := Autos(naming, tables, rels)[n];
            var fks := ForeignKeys(AnnotateAll(tables, rels), r.through);
            && left in fks && right in fks && Links(r, r.through, left, right)
            && left.targetTable != right.targetTable
            && r.m2mJoin == Singular(naming, r.sourceTable) + ['='] + Singular(naming, r.targetTable)
  {
    var order := JunctionsInOrder(tables, rels);
    EnumeratedMembers(order, JunctionsOf(tables, rels));
    assert order[n] in order;
    var fks := ForeignKeys(AnnotateAll(tables, rels), order[n]);
    JunctionMember(tables, AnnotateAll(tables, rels), order[n]);
    left, right := LinksAny(naming, order[n], fks);
  }

  /**
   A many-to-many relation that was detected rather than declared joins the two
   tables its junction's foreign keys point at, by the names of those tables. The
   struct of the junction has the two foreign keys' fields, and each half is the
   field's name exactly when the foreign key was not given another one and does
   not point back at the junction.
   */
  lemma {:induction false} DetectedJoin(
    naming: Naming, tables: Tables, withRelations: bool, physical: seq<Relation>, logical: seq<Relation>, i: nat)
    returns (leftFk: Relation, rightFk: Relation)
    requires Generate(naming, tables, withRelations, physical, logical).Ok?
    requires var out := Generate(naming, tables, withRelations, physical, logical).value;
             i < |out| && KeyOf(out[i]) !in KeySet(KeyOf, Entering(naming, withRelations, physical, logical))
    ensures var out := Generate(naming, tables, withRelations, physical, logical).value;
            var r := out[i];
            var left, right := Singular(naming, r.sourceTable), Singular(naming, r.targetTable);
            && Links(r, r.through, leftFk, rightFk) && leftFk.targetTable != rightFk.targetTable
            && r.m2mJoin == left + ['='] + right
            && HalfExact(naming, out, r.through, left, leftFk) && HalfExact(naming, out, r.through, right, rightFk)
  {
    GenerateInfers(naming, tables, withRelations, physical, logical);
    leftFk, rightFk := InferredJoin(naming, tables, Entering(naming, withRelations, physical, logical), i);
  }

  lemma {:induction false} InferredJoin(naming: Naming, tables: Tables, rels: seq<Relation>, i: nat)
    returns (leftFk: Relation, rightFk: Relation)
    requires DistinctKeys(rels) && (forall r :: r in rels ==> ValidRelation(r))
    requires Infer(naming, tables, rels).Ok? && i < |Infer(naming, tables, rels).value|
    requires KeyOf(Infer(naming, tables, rels).value[i]) !in KeySet(KeyOf, rels)
    ensures var out := Infer(naming, tables, rels).value;
            var r := out[i];
            var left, right := Singular(naming, r.sourceTable), Singular(naming, r.targetTable);
            && Links(r, r.through, leftFk, rightFk) && leftFk.targetTable != rightFk.targetTable
            && r.m2mJoin == left + ['='] + right
            && HalfExact(naming, out, r.through, left, leftFk) && HalfExact(naming, out, r.through, right, rightFk)
  {
    var n := NewIsDetected(naming, tables, rels, i);
    var out := Infer(naming, tables, rels).value;
    var left, right := AutoFrom(naming, tables, rels, n);
    var l := KeyKept(naming, tables, rels, out[i].through, left);
    var q := KeyKept(naming, tables, rels, out[i].through, right);
    FieldOfKey(naming, out, out[i].through, l);
    FieldOfKey(naming, out, out[i].through, q);
    leftFk, rightFk := out[l], out[q];
  }

  // ---- columns ----

  /** The relation's tables exist and so do the columns of a foreign key. */
  ghost predicate ColumnsFound(tables: Tables, r: Relation) {
    && r.sourceTable in tables && r.targetTable in tables
    && (!r.IsM2M() ==> Found(tables[r.sourceTable], Columns(r.sourceColumn)))
    && (!r.IsM2M() ==> Found(tables[r.targetTable], Columns(r.targetColumn)))
  }

  ghost predicate Found(columns: seq<Column>, cols: seq<string>) {
    forall c :: c in cols ==> exists k :: 0 <= k < |columns| && columns[k].name == c
  }

  lemma {:induction false} CheckedSide(
    naming: Naming, tables: Tables, table: string, cols: seq<string>, field: string, emitted: bool)
    requires CheckSide(naming, tables, table, cols, field, emitted).Ok?
    ensures table in tables && Found(tables[table], cols)
  {
    forall c | c in cols ensures c in TableColumns(tables[table]) {
      var i :| 0 <= i < |cols| && cols[i] == c;
    }
  }

  lemma {:induction false} CheckedColumns(naming: Naming, tables: Tables, r: Relation)
    requires CheckRelation(naming, tables, r).Ok?
    ensures ColumnsFound(tables, r)
  {
    var (field, reverse) := FieldNames(naming, r);
    CheckedSide(naming, tables, r.sourceTable, if r.IsM2M() then [] else Columns(r.sourceColumn), field, true);
    CheckedSide(naming, tables, r.targetTable, if r.IsM2M() then [] else Columns(r.targetColumn), reverse,
                r.IsM2M() || !r.skipReverse);
  }

  /** No relation field takes the name of a column's field or of BaseModel. */
  ghost predicate NamesFree(naming: Naming, tables: Tables, r: Relation) {
    var (field, reverse) := FieldNames(naming, r);
    && (r.sourceTable in tables ==> Untaken(naming, tables[r.sourceTable], field))
    && (r.targetTable in tables && (r.IsM2M() || !r.skipReverse) ==> Untaken(naming, tables[r.targetTable], reverse))
  }

  ghost predicate Untaken(naming: Naming, columns: seq<Column>, field: string) {
    field != "BaseModel" && forall k :: 0 <= k < |columns| ==> naming.camel(columns[k].name) != field
  }

  lemma {:induction false} SideExactly(
    naming: Naming, tables: Tables, table: string, cols: seq<string>, field: string, emitted: bool)
    ensures CheckSide(naming, tables, table, cols, field, emitted).Ok? <==>
            && table in tables && Found(tables[table], cols) && (emitted ==> Untaken(naming, tables[table], field))
  {
    if CheckSide(naming, tables, table, cols, field, emitted).Ok? {
      CheckedSide(naming, tables, table, cols, field, emitted);
    } else if table in tables && Found(tables[table], cols) {
      forall i | 0 <= i < |cols| ensures cols[i] in TableColumns(tables[table]) {
        assert cols[i] in cols;
      }
    }
  }

  /** The relation's tables and columns exist and its fields take no column's name. */
  ghost predicate Fits(naming: Naming, tables: Tables, r: Relation) {
    ColumnsFound(tables, r) && NamesFree(naming, tables, r)
  }

  lemma {:induction false} OneExactly(naming: Naming, tables: Tables, r: Relation)
    ensures CheckRelation(naming, tables, r).Ok? <==> Fits(naming, tables, r)
  {
    var (field, reverse) := FieldNames(naming, r);
    SideExactly(naming, tables, r.sourceTable, if r.IsM2M() then [] else Columns(r.sourceColumn), field, true);
    SideExactly(naming, tables, r.targetTable, if r.IsM2M() then [] else Columns(r.targetColumn), reverse,
                r.IsM2M() || !r.skipReverse);
  }

  /** The column check passes exactly when all tables and columns exist and no field takes a column's name. */
  lemma {:induction false} CheckedExactly(naming: Naming, tables: Tables, rels: seq<Relation>)
    ensures CheckRelations(naming, tables, rels).Ok? <==> forall r :: r in rels ==> Fits(naming, tables, r)
  {
    forall r ensures CheckRelation(naming, tables, r).Ok? <==> Fits(naming, tables, r) {
      OneExactly(naming, tables, r);
    }
    if CheckRelations(naming, tables, rels).Ok? {
      forall i | 0 <= i < |rels| ensures CheckRelation(naming, tables, rels[i]).Ok? {
        CheckRelationsMeans(naming, tables, rels, i);
      }
    } else if forall r :: r in rels ==> Fits(naming, tables, r) {
      AllChecked(naming, tables, rels);
    }
  }

  /** Every column a final foreign key names is a column of its table. */
  lemma {:induction false} ColumnsExist(
    naming: Naming, tables: Tables, withRelations: bool, physical: seq<Relation>, logical: seq<Relation>, i: nat)
    requires Generate(naming, tables, withRelations, physical, logical).Ok?
    requires i < |Generate(naming, tables, withRelations, physical, logical).value|
    ensures ColumnsFound(tables, Generate(naming, tables, withRelations, physical, logical).value[i])
  {
    GeneratedChecked(naming, tables, withRelations, physical, logical);
    var out := Generate(naming, tables, withRelations, physical, logical).value;
    CheckRelationsMeans(naming, tables, out, i);
    CheckedColumns(naming, tables, out[i]);
  }

  lemma {:induction false} GeneratedChecked(
    naming: Naming, tables: Tables, withRelations: bool, physical: seq<Relation>, logical: seq<Relation>)
    requires Generate(naming, tables, withRelations, physical, logical).Ok?
    ensures CheckRelations(naming, tables, Generate(naming, tables, withRelations, physical, logical).value).Ok?
  {
    GenerateInfers(naming, tables, withRelations, physical, logical);
    var rels := Entering(naming, withRelations, physical, logical);
    SettledChecked(naming, tables, Merge(naming, [], Inferred(naming, tables, rels, JunctionsInOrder(tables, rels))));
  }

  lemma {:induction false} SettledChecked(naming: Naming, tables: Tables, merged: GenResult<seq<Relation>>)
    requires Settle(naming, tables, merged).Ok?
    ensures CheckRelations(naming, tables, Settle(naming, tables, merged).value).Ok?
  {
  }
}
