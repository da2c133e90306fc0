/**
 What the generated structs say about the database: every has-one field rests
 on a real unique key and every model a field mentions is generated too.
 */
module Structs {
  import opened Wrappers
  import opened Ordering
  import opened Text
  import opened KeyedMaps
  import opened Relations
  import opened MergeLaws
  import opened Schema
  import opened Joins
  import opened Junctions
  import opened Emission
  import opened Pipeline

  // ---- properties that survive the merge ----

  /** A property that overriding one valid relation by another of the same key keeps. */
  ghost predicate OverrideKeeps(p: Relation -> bool) {
    forall a, b {:trigger Override(a, b)} ::
      ValidRelation(a) && ValidRelation(b) && p(a) && p(b) && KeyOf(a) == KeyOf(b) ==> p(Override(a, b))
  }

  /** A property that resolving the join text keeps. */
  ghost predicate JoinBlind(p: Relation -> bool) {
    forall r: Relation, join {:trigger r.(m2mJoin := join)} :: p(r) ==> p(r.(m2mJoin := join))
  }

  lemma {:induction false} OverrideValid(a: Relation, b: Relation)
    requires ValidRelation(a) && ValidRelation(b) && KeyOf(a) == KeyOf(b)
    ensures ValidRelation(Override(a, b)) && KeyOf(Override(a, b)) == KeyOf(a)
    ensures Override(a, b).IsM2M() == a.IsM2M()
  {
    OverrideKeepsKey(a, b);
    KeyInjective(a, b);
  }

  /** Such a property of all inputs holds of every relation a successful merge lists. */
  lemma {:induction false} MergeKeeps(naming: Naming, list: seq<Relation>, p: Relation -> bool, i: nat)
    requires OverrideKeeps(p) && forall i :: 0 <= i < |list| ==> ValidRelation(list[i]) && p(list[i])
    requires Merge(naming, [], list).Ok? && i < |Merge(naming, [], list).value|
    ensures p(Merge(naming, [], list).value[i])
  {
    var q := (r: Relation) => ValidRelation(r) && p(r);
    assert Preserves(KeyOf, Override, q) by {
      forall a, b | q(a) && q(b) && KeyOf(a) == KeyOf(b)
          ensures q(Override(a, b)) && KeyOf(Override(a, b)) == KeyOf(a) {
        OverrideValid(a, b);
      }
    }
    var m := MergedMap([], list);
    CombineKeeps(KeyOf, Override, q, map[], list);
    StringKeys(m.Keys);
    var keys := SortedKeys(LessEq, m.Keys);
    assert keys[i] in keys;
    assert q(m[keys[i]]);
  }

  /** The relations that enter inference. */
  ghost function Entering(
    naming: Naming, withRelations: bool, physical: seq<Relation>, logical: seq<Relation>): (rels: seq<Relation>) {
    if withRelations && Merge(naming, physical, logical).Ok? then Merge(naming, physical, logical).value else logical
  }

  ghost predicate AllInferred(naming: Naming, tables: Tables, rels: seq<Relation>, p: Relation -> bool) {
    var list := Inferred(naming, tables, rels, JunctionsInOrder(tables, rels));
    forall i :: 0 <= i < |list| ==> p(list[i])
  }

  /** A property of the inferred relations that overriding and join resolution keep reaches the final list. */
  lemma {:induction false} GenerateKeeps(
    naming: Naming, tables: Tables, withRelations: bool, physical: seq<Relation>, logical: seq<Relation>,
    p: Relation -> bool, i: nat)
    requires Generate(naming, tables, withRelations, physical, logical).Ok?
    requires i < |Generate(naming, tables, withRelations, physical, logical).value|
    requires OverrideKeeps(p) && AllInferred(naming, tables, Entering(naming, withRelations, physical, logical), p)
    requires JoinBlind(p)
    ensures p(Generate(naming, tables, withRelations, physical, logical).value[i])
    ensures ValidRelation(Generate(naming, tables, withRelations, physical, logical).value[i])
  {
    InputFacts(naming, withRelations, physical, logical);
    var rels := Entering(naming, withRelations, physical, logical);
    InferredValid(naming, tables, rels, JunctionsInOrder(tables, rels));
    SettledKeeps(naming, tables, Inferred(naming, tables, rels, JunctionsInOrder(tables, rels)), p, i);
  }

  lemma {:induction false} SettledKeeps(
    naming: Naming, tables: Tables, list: seq<Relation>, p: Relation -> bool, i: nat)
    requires forall r :: r in list ==> ValidRelation(r)
    requires OverrideKeeps(p) && forall i :: 0 <= i < |list| ==> p(list[i])
    requires JoinBlind(p)
    requires Settle(naming, tables, Merge(naming, [], list)).Ok?
    requires i < |Settle(naming, tables, Merge(naming, [], list)).value|
    ensures var r := Settle(naming, tables, Merge(naming, [], list)).value[i]; p(r) && ValidRelation(r)
  {
    MergeKeeps(naming, list, p, i);
    MergeResult(naming, [], list);
    var merged := Merge(naming, [], list).value;
    var out := Settle(naming, tables, Ok(merged)).value;
    ResolvedOnlyJoin(naming, merged, i);
  }

  /** Resolving changes nothing but the join text. */
  lemma {:induction false} ResolvedOnlyJoin(naming: Naming, merged: seq<Relation>, i: nat)
    requires ResolveJoins(naming, merged, merged).Ok? && i < |merged|
    ensures var out := ResolveJoins(naming, merged, merged).value; out[i] == merged[i].(m2mJoin := out[i].m2mJoin)
  {
    var out := ResolveJoins(naming, merged, merged).value;
    assert Ok(out[i]) == ResolveJoin(naming, merged, merged[i]);
  }

  // ---- has-one fields ----

  predicate HasOneBacked(tables: Tables, r: Relation) { r.hasOne <==> SourceIsUnique(tables, r) }

  lemma {:induction false} BackedKept(tables: Tables)
    ensures OverrideKeeps(r => HasOneBacked(tables, r)) && JoinBlind(r => HasOneBacked(tables, r))
  {
    forall a, b | ValidRelation(a) && ValidRelation(b) && HasOneBacked(tables, a) && KeyOf(a) == KeyOf(b)
      ensures HasOneBacked(tables, Override(a, b))
    {
      OverrideValid(a, b);
    }
  }

  lemma {:induction false} EnteringNoHasOne(
    naming: Naming, withRelations: bool, physical: seq<Relation>, logical: seq<Relation>, i: nat)
    requires forall i :: 0 <= i < |physical| ==> !physical[i].hasOne
    requires forall i :: 0 <= i < |logical| ==> !logical[i].hasOne
    requires i < |Entering(naming, withRelations, physical, logical)|
    ensures !Entering(naming, withRelations, physical, logical)[i].hasOne
  {
    if withRelations && Merge(naming, physical, logical).Ok? {
      var p := (r: Relation) => !r.hasOne;
      FiledKeeps(KeyOf, Override, p, map[], physical);
      FiledKeeps(KeyOf, Override, p, Overwrite(KeyOf, map[], physical), logical);
      StringKeys(MergedMap(physical, logical).Keys);
      var keys := SortedKeys(LessEq, MergedMap(physical, logical).Keys);
      assert keys[i] in keys;
    }
  }

  /** Each inferred relation is an annotated input or a detected junction. */
  lemma {:induction false} InferredElement(
    naming: Naming, tables: Tables, rels: seq<Relation>, i: nat)
    returns (suppress: set<string>)
    requires i < |Inferred(naming, tables, rels, JunctionsInOrder(tables, rels))|
    ensures var a := AnnotateAll(tables, rels);
            var order := JunctionsInOrder(tables, rels);
            var r := Inferred(naming, tables, rels, order)[i];
            if i < |rels| then r == SkipReverse(suppress, Annotate(tables, rels[i]))
            else i - |rels| < |order| && |ForeignKeys(a, order[i - |rels|])| == 2
                 && r == SkipReverse(suppress,
                     JunctionRelation(naming, order[i - |rels|], ForeignKeys(a, order[i - |rels|])))
  {
    var a := AnnotateAll(tables, rels);
    var order := JunctionsInOrder(tables, rels);
    EnumeratedMembers(order, JunctionTables(tables, a));
    suppress := Suppressed(a, JunctionTables(tables, a));
    if i >= |rels| { assert order[i - |rels|] in order; }
  }

  lemma {:induction false} AnnotateBacks(tables: Tables, suppress: set<string>, r: Relation)
    requires !r.hasOne
    ensures HasOneBacked(tables, SkipReverse(suppress, Annotate(tables, r)))
  {
  }

  lemma {:induction false} InferredBackedAt(naming: Naming, tables: Tables, rels: seq<Relation>, i: nat)
    requires forall i :: 0 <= i < |rels| ==> !rels[i].hasOne
    requires i < |Inferred(naming, tables, rels, JunctionsInOrder(tables, rels))|
    ensures HasOneBacked(tables, Inferred(naming, tables, rels, JunctionsInOrder(tables, rels))[i])
  {
    var suppress := InferredElement(naming, tables, rels, i);
    if i < |rels| { AnnotateBacks(tables, suppress, rels[i]); }
  }

  /** A final relation is has-one exactly when its source column is unique. */
  lemma {:induction false} GeneratedBacked(
    naming: Naming, tables: Tables, withRelations: bool, physical: seq<Relation>, logical: seq<Relation>, i: nat)
    requires Generate(naming, tables, withRelations, physical, logical).Ok?
    requires forall i :: 0 <= i < |physical| ==> !physical[i].hasOne
    requires forall i :: 0 <= i < |logical| ==> !logical[i].hasOne
    requires i < |Generate(naming, tables, withRelations, physical, logical).value|
    ensures var r := Generate(naming, tables, withRelations, physical, logical).value[i];
            HasOneBacked(tables, r) && ValidRelation(r)
  {
    var rels := Entering(naming, withRelations, physical, logical);
    forall i | 0 <= i < |rels| ensures !rels[i].hasOne {
      EnteringNoHasOne(naming, withRelations, physical, logical, i);
    }
    assert AllInferred(naming, tables, rels, r => HasOneBacked(tables, r)) by {
      forall i | 0 <= i < |Inferred(naming, tables, rels, JunctionsInOrder(tables, rels))|
        ensures HasOneBacked(tables, Inferred(naming, tables, rels, JunctionsInOrder(tables, rels))[i])
      {
        InferredBackedAt(naming, tables, rels, i);
      }
    }
    BackedKept(tables);
    GenerateKeeps(naming, tables, withRelations, physical, logical, r => HasOneBacked(tables, r), i);
  }

  lemma {:induction false} EmittedReverse(naming: Naming, table: string, rels: seq<Relation>, k: nat) returns (i: nat)
    requires k < |Emit(naming, table, rels)|
    requires (Emit(naming, table, rels)[k].HasOne? || Emit(naming, table, rels)[k].HasMany?)
    ensures i < |rels| && !rels[i].IsM2M() && rels[i].targetTable == table
    ensures rels[i].hasOne <==> Emit(naming, table, rels)[k].HasOne?
    ensures Emit(naming, table, rels)[k].join == ReverseJoinClause(rels[i].sourceColumn, rels[i].targetColumn)
    ensures Emit(naming, table, rels)[k].model == naming.camel(rels[i].sourceTable)
  {
    var n := |rels| - 1;
    if k < |Emit(naming, table, rels[..n])| { i := EmittedReverse(naming, table, rels[..n], k); } else { i := n; }
  }

  /**
   Behind every has-one or has-many field stands a relation, and it is has-one
   exactly when its source column is unique.
   */
  lemma {:induction false} ReverseFieldExact(
    naming: Naming, tables: Tables, withRelations: bool, physical: seq<Relation>, logical: seq<Relation>,
    table: string, k: nat)
    returns (r: Relation)
    requires Generate(naming, tables, withRelations, physical, logical).Ok?
    requires forall i :: 0 <= i < |physical| ==> !physical[i].hasOne
    requires forall i :: 0 <= i < |logical| ==> !logical[i].hasOne
    requires var fields := Emit(naming, table, Generate(naming, tables, withRelations, physical, logical).value);
             k < |fields| && (fields[k].HasOne? || fields[k].HasMany?)
    ensures var out := Generate(naming, tables, withRelations, physical, logical).value;
            && r in out && r.targetTable == table
            && Emit(naming, table, out)[k].model == naming.camel(r.sourceTable)
            && Emit(naming, table, out)[k].join == ReverseJoinClause(r.sourceColumn, r.targetColumn)
            && (Emit(naming, table, out)[k].HasOne? <==> SourceIsUnique(tables, r))
    ensures ValidEndpoints(r)
  {
    var out := Generate(naming, tables, withRelations, physical, logical).value;
    var i := EmittedReverse(naming, table, out, k);
    r := out[i];
    GeneratedBacked(naming, tables, withRelations, physical, logical, i);
  }

  /**
   Every has-one field of every generated struct: its clause joins a row of the
   struct's table to at most one row of the source table, in all instances that
   keep the declared constraints, exactly when its relation names a target column.
   */
  lemma {:induction false} HasOneFieldSound(
    naming: Naming, tables: Tables, withRelations: bool, physical: seq<Relation>, logical: seq<Relation>,
    table: string, k: nat, columns: seq<Column>, groups: Groups) returns (r: Relation)
    requires Generate(naming, tables, withRelations, physical, logical).Ok?
    requires forall i :: 0 <= i < |physical| ==> !physical[i].hasOne
    requires forall i :: 0 <= i < |logical| ==> !logical[i].hasOne
    requires var fields := Emit(naming, table, Generate(naming, tables, withRelations, physical, logical).value);
             k < |fields| && fields[k].HasOne?
    requires (forall i :: 0 <= i < |columns| ==> Untagged(columns[i])) && NamedGroups(groups)
    ensures var field := Emit(naming, table, Generate(naming, tables, withRelations, physical, logical).value)[k];
            && r.targetTable == table && r.sourceTable in tables && field.model == naming.camel(r.sourceTable)
            && (tables[r.sourceTable] == Tagged(columns, groups) ==>
                  ((forall rows: seq<Row>, target: Row :: Satisfies(rows, columns, groups) ==>
                      AtMostOne(field.join, target, rows))
                   <==> |Columns(r.targetColumn)| > 0))
  {
    r := ReverseFieldExact(naming, tables, withRelations, physical, logical, table, k);
    if tables[r.sourceTable] == Tagged(columns, groups) { HasOneExact(tables, r, columns, groups); }
  }

  // ---- every mentioned model is generated ----

  function NamesOf(r: Relation): seq<string> { [r.sourceTable, r.targetTable, r.through] }

  function AddName(tables: seq<string>, name: string): seq<string> {
    if name == "" || name in tables then tables else tables + [name]
  }

  function Expand(tables: seq<string>, rels: seq<Relation>): (out: seq<string>) {
    if rels == [] then tables
    else
      var r := rels[|rels| - 1];
      AddName(AddName(AddName(Expand(tables, rels[..|rels| - 1]), r.sourceTable), r.targetTable), r.through)
  }

  method ExpandTablesForRelations(tables: seq<string>, rels: seq<Relation>) returns (out: seq<string>)
    ensures out == Expand(tables, rels)
  {
    var seen: set<string> := set t | t in tables;
    out := tables;
    for i := 0 to |rels|
      invariant out == Expand(tables, rels[..i]) && forall t :: t in seen <==> t in out
    {
      assert rels[..i + 1][..i] == rels[..i];
      var names := NamesOf(rels[i]);
      ghost var before := out;
      for k := 0 to 3
        invariant forall t :: t in seen <==> t in out
        invariant k == 0 ==> out == before
        invariant k == 1 ==> out == AddName(before, names[0])
        invariant k == 2 ==> out == AddName(AddName(before, names[0]), names[1])
        invariant k == 3 ==> out == AddName(AddName(AddName(before, names[0]), names[1]), names[2])
      {
        if names[k] == "" || names[k] in seen { continue; }
        out := out + [names[k]];
        seen := seen + {names[k]};
      }
    }
    assert rels[..|rels|] == rels;
  }

  predicate Listed(all: set<string>, r: Relation) {
    && (r.sourceTable == "" || r.sourceTable in all)
    && (r.targetTable == "" || r.targetTable in all)
    && (r.through == "" || r.through in all)
  }

  function Named(r: Relation): set<string> { {r.sourceTable, r.targetTable, r.through} - {""} }

  lemma {:induction false} AddNameMembers(tables: seq<string>, name: string)
    ensures Members(AddName(tables, name)) == Members(tables) + ({name} - {""})
  {
  }

  lemma {:induction false} ExpandStep(tables: seq<string>, rels: seq<Relation>)
    requires rels != []
    ensures var n := |rels| - 1;
            Members(Expand(tables, rels)) == Members(Expand(tables, rels[..n])) + Named(rels[n])
  {
    var r := rels[|rels| - 1];
    var before := Expand(tables, rels[..|rels| - 1]);
    AddNameMembers(before, r.sourceTable);
    AddNameMembers(AddName(before, r.sourceTable), r.targetTable);
    AddNameMembers(AddName(AddName(before, r.sourceTable), r.targetTable), r.through);
  }

  lemma {:induction false} ListedGrows(all: set<string>, more: set<string>, r: Relation)
    requires all <= more && (Listed(all, r) || Named(r) <= more)
    ensures Listed(more, r)
  {
  }

  /** Expansion lists every table the relations mention. */
  lemma {:induction false} ExpandMembers(tables: seq<string>, rels: seq<Relation>, i: nat)
    requires i < |rels|
    ensures Listed(Members(Expand(tables, rels)), rels[i])
  {
    ExpandAll(tables, rels);
    MentionedAt(rels, i);
    ListedGrows(Members(Expand(tables, rels)), Members(Expand(tables, rels)), rels[i]);
  }

  /** All the tables the relations mention. */
  function Mentioned(rels: seq<Relation>): set<string> {
    if rels == [] then {} else Mentioned(rels[..|rels| - 1]) + Named(rels[|rels| - 1])
  }

  lemma {:induction false} ExpandAll(tables: seq<string>, rels: seq<Relation>)
    ensures Members(Expand(tables, rels)) == Members(tables) + Mentioned(rels)
  {
    if rels != [] {
      ExpandStep(tables, rels);
      ExpandAll(tables, rels[..|rels| - 1]);
    }
  }

  lemma {:induction false} MentionedAt(rels: seq<Relation>, i: nat)
    requires i < |rels|
    ensures Named(rels[i]) <= Mentioned(rels)
  {
    var n := |rels| - 1;
    if i < n {
      MentionedAt(rels[..n], i);
      assert rels[..n][i] == rels[i];
    }
  }

  /** The requested tables come first, as they were, and each table added is added once. */
  lemma {:induction false} ExpandShape(tables: seq<string>, rels: seq<Relation>)
    ensures var out := Expand(tables, rels);
            && tables <= out
            && forall i, j :: 0 <= i < |out| && |tables| <= j < |out| && i != j ==> out[i] != out[j]
  {
    if rels != [] {
      var r := rels[|rels| - 1];
      var out := Expand(tables, rels[..|rels| - 1]);
      ExpandShape(tables, rels[..|rels| - 1]);
      AddNameShape(tables, out, r.sourceTable);
      AddNameShape(tables, AddName(out, r.sourceTable), r.targetTable);
      AddNameShape(tables, AddName(AddName(out, r.sourceTable), r.targetTable), r.through);
    }
  }

  lemma {:induction false} AddNameShape(tables: seq<string>, out: seq<string>, name: string)
    requires tables <= out
    requires forall i, j :: 0 <= i < |out| && |tables| <= j < |out| && i != j ==> out[i] != out[j]
    ensures var after := AddName(out, name);
            && tables <= after
            && forall i, j :: 0 <= i < |after| && |tables| <= j < |after| && i != j ==> after[i] != after[j]
  {
  }

  /** The tables GenerateModels ends up with. */
  ghost function Expanded(
    naming: Naming, requested: seq<string>, withRelations: bool, physical: seq<Relation>, logical: seq<Relation>)
    : seq<string>
  {
    var first := Expand(requested, logical);
    if withRelations then Expand(first, Entering(naming, withRelations, physical, logical)) else first
  }

  lemma {:induction false} JunctionListed(naming: Naming, all: set<string>, rels: seq<Relation>, t: string)
    requires |ForeignKeys(rels, t)| == 2 && forall r :: r in rels ==> Listed(all, r)
    ensures Listed(all, JunctionRelation(naming, t, ForeignKeys(rels, t)))
  {
    var fks := ForeignKeys(rels, t);
    assert fks[0] in fks && fks[1] in fks;
  }

  lemma {:induction false} PassesKeepListed(all: set<string>, tables: Tables, suppress: set<string>, r: Relation)
    requires Listed(all, r)
    ensures Listed(all, Annotate(tables, r)) && Listed(all, SkipReverse(suppress, r))
  {
  }

  lemma {:induction false} AnnotatedListed(tables: Tables, rels: seq<Relation>, all: set<string>)
    requires forall k :: 0 <= k < |rels| ==> Listed(all, rels[k])
    ensures forall r :: r in AnnotateAll(tables, rels) ==> Listed(all, r)
  {
    var a := AnnotateAll(tables, rels);
    forall i | 0 <= i < |rels| ensures Listed(all, a[i]) {
      PassesKeepListed(all, tables, {}, rels[i]);
    }
  }

  lemma {:induction false} InferredListedAt(
    naming: Naming, tables: Tables, rels: seq<Relation>, all: set<string>, k: nat)
    requires forall k :: 0 <= k < |rels| ==> Listed(all, rels[k])
    requires k < |Inferred(naming, tables, rels, JunctionsInOrder(tables, rels))|
    ensures Listed(all, Inferred(naming, tables, rels, JunctionsInOrder(tables, rels))[k])
  {
    var suppress := InferredElement(naming, tables, rels, k);
    if k < |rels| {
      PassesKeepListed(all, tables, suppress, rels[k]);
      PassesKeepListed(all, tables, suppress, Annotate(tables, rels[k]));
    } else {
      var a, t := AnnotateAll(tables, rels), JunctionsInOrder(tables, rels)[k - |rels|];
      AnnotatedListed(tables, rels, all);
      JunctionListed(naming, all, a, t);
      PassesKeepListed(all, tables, suppress, JunctionRelation(naming, t, ForeignKeys(a, t)));
    }
  }

  lemma {:induction false} ListedKept(all: set<string>)
    ensures OverrideKeeps(r => Listed(all, r)) && JoinBlind(r => Listed(all, r))
  {
  }

  lemma {:induction false} AllListed(naming: Naming, tables: Tables, rels: seq<Relation>, all: set<string>)
    requires forall k :: 0 <= k < |rels| ==> Listed(all, rels[k])
    ensures AllInferred(naming, tables, rels, r => Listed(all, r))
  {
    forall k | 0 <= k < |Inferred(naming, tables, rels, JunctionsInOrder(tables, rels))|
      ensures Listed(all, Inferred(naming, tables, rels, JunctionsInOrder(tables, rels))[k])
    {
      InferredListedAt(naming, tables, rels, all, k);
    }
  }

  lemma {:induction false} EnteringListed(
    naming: Naming, requested: seq<string>, withRelations: bool, physical: seq<Relation>, logical: seq<Relation>,
    k: nat)
    requires k < |Entering(naming, withRelations, physical, logical)|
    ensures Listed(Members(Expanded(naming, requested, withRelations, physical, logical)),
                   Entering(naming, withRelations, physical, logical)[k])
  {
    var rels := Entering(naming, withRelations, physical, logical);
    if withRelations { ExpandMembers(Expand(requested, logical), rels, k); }
        else { ExpandMembers(requested, logical, k); }
  }

  lemma {:induction false} GeneratedListed(
    naming: Naming, tables: Tables, requested: seq<string>, withRelations: bool,
    physical: seq<Relation>, logical: seq<Relation>, i: nat)
    requires Generate(naming, tables, withRelations, physical, logical).Ok?
    requires i < |Generate(naming, tables, withRelations, physical, logical).value|
    ensures var r := Generate(naming, tables, withRelations, physical, logical).value[i];
            Listed(Members(Expanded(naming, requested, withRelations, physical, logical)), r) && ValidRelation(r)
  {
    var rels := Entering(naming, withRelations, physical, logical);
    var all := Members(Expanded(naming, requested, withRelations, physical, logical));
    forall k | 0 <= k < |rels| ensures Listed(all, rels[k]) {
      EnteringListed(naming, requested, withRelations, physical, logical, k);
    }
    AllListed(naming, tables, rels, all);
    ListedKept(all);
    GenerateKeeps(naming, tables, withRelations, physical, logical, r => Listed(all, r), i);
  }

  /** Both ends and the junction of every final relation are among the generated tables. */
  lemma {:induction false} ModelsGenerated(
    naming: Naming, tables: Tables, requested: seq<string>, withRelations: bool,
    physical: seq<Relation>, logical: seq<Relation>, i: nat)
    requires Generate(naming, tables, withRelations, physical, logical).Ok?
    requires i < |Generate(naming, tables, withRelations, physical, logical).value|
    ensures var r := Generate(naming, tables, withRelations, physical, logical).value[i];
            var all := Expanded(naming, requested, withRelations, physical, logical);
            r.sourceTable in all && r.targetTable in all && (r.IsM2M() ==> r.through in all)
  {
    GeneratedListed(naming, tables, requested, withRelations, physical, logical, i);
  }
}
