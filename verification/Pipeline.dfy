/**
 The relation passes of GenerateModels (internal/database/gen/model.go) end to
 end: validate, merge with the physical foreign keys, annotate, detect pure
 junctions, suppress reverse fields, merge again, resolve joins, check columns.
 */
module Pipeline {
  import opened Wrappers
  import opened Ordering
  import opened Text
  import opened KeyedMaps
  import opened Permutations
  import opened Relations
  import opened MergeLaws
  import opened PhysicalOrder
  import opened Schema
  import opened Junctions
  import opened Emission

  // ---- validateRelations ----

  ghost function Validated(rels: seq<Relation>): (r: GenResult<()>)
    ensures r.Ok? <==> (forall i :: 0 <= i < |rels| ==> ValidRelation(rels[i])) && DistinctKeys(rels)
  {
    if rels == [] then Ok(())
    else
      var n := |rels| - 1;
      match Validated(rels[..n])
      case Err(e) => Err(e)
      case Ok(_) =>
        if !ValidRelation(rels[n]) then Err(InvalidRelation)
        else if KeyOf(rels[n]) in KeySet(KeyOf, rels[..n]) then Err(DuplicateRelation)
        else Ok(())
  }

  lemma {:induction false} ValidatedErr(rels: seq<Relation>, n: nat)
    requires n <= |rels| && Validated(rels[..n]).Err?
    ensures Validated(rels) == Validated(rels[..n])
  {
    if n == |rels| {
      assert rels[..n] == rels;
    } else {
      assert rels[..|rels| - 1][..n] == rels[..n];
      ValidatedErr(rels[..|rels| - 1], n);
    }
  }

  method ValidateRelations(rels: seq<Relation>) returns (r: GenResult<()>)
    ensures r == Validated(rels)
  {
    var seen: set<string> := {};
    for i := 0 to |rels|
      invariant Validated(rels[..i]).Ok? && seen == KeySet(KeyOf, rels[..i])
    {
      ValidatedStep(rels, i);
      if !ValidRelation(rels[i]) {
        return Err(InvalidRelation);
      }
      var key := KeyOf(rels[i]);
      if key in seen {
        return Err(DuplicateRelation);
      }
      seen := seen + {key};
    }
    assert rels[..|rels|] == rels;
    return Ok(());
  }

  /** What checking one more relation decides. */
  lemma {:induction false} ValidatedStep(rels: seq<Relation>, i: nat)
    requires i < |rels| && Validated(rels[..i]).Ok?
    ensures !ValidRelation(rels[i]) ==> Validated(rels) == Err(InvalidRelation)
    ensures ValidRelation(rels[i]) && KeyOf(rels[i]) in KeySet(KeyOf, rels[..i]) ==>
        Validated(rels) == Err(DuplicateRelation)
    ensures ValidRelation(rels[i]) && KeyOf(rels[i]) !in KeySet(KeyOf, rels[..i]) ==>
              Validated(rels[..i + 1]).Ok? && KeySet(KeyOf, rels[..i + 1]) == KeySet(KeyOf, rels[..i]) +
                  {KeyOf(rels[i])}
  {
    ValidatedNext(rels, i);
    if Validated(rels[..i + 1]).Err? {
      ValidatedErr(rels, i + 1);
    } else {
      KeySetLast(KeyOf, rels[..i + 1]);
      assert rels[..i + 1][..i] == rels[..i];
    }
  }

  lemma {:induction false} ValidatedNext(rels: seq<Relation>, i: nat)
    requires i < |rels| && Validated(rels[..i]).Ok?
    ensures Validated(rels[..i + 1]) ==
            if !ValidRelation(rels[i]) then Err(InvalidRelation)
            else if KeyOf(rels[i]) in KeySet(KeyOf, rels[..i]) then Err(DuplicateRelation)
            else Ok(())
  {
    assert rels[..i + 1][..i] == rels[..i];
  }

  // ---- the passes ----

  /** What the second merge receives, for one order of the junction tables. */
  ghost function Inferred(naming: Naming, tables: Tables, rels: seq<Relation>, order: seq<string>): (out: seq<Relation>)
    requires Enumerates(order, JunctionTables(tables, AnnotateAll(tables, rels)))
  {
    var annotated := AnnotateAll(tables, rels);
    EnumeratedMembers(order, JunctionTables(tables, annotated));
    var suppress := Suppressed(annotated, JunctionTables(tables, annotated));
    SkipReverseAll(suppress, annotated) + SkipReverseAll(suppress, JunctionRelations(naming, annotated, order))
  }

  ghost function JunctionsInOrder(tables: Tables, rels: seq<Relation>): (order: seq<string>)
    ensures Enumerates(order, JunctionTables(tables, AnnotateAll(tables, rels)))
  {
    StringKeys(JunctionTables(tables, AnnotateAll(tables, rels)));
    SortedKeys(LessEq, JunctionTables(tables, AnnotateAll(tables, rels)))
  }

  ghost function Settle(
    naming: Naming, tables: Tables, merged: GenResult<seq<Relation>>): (out: GenResult<seq<Relation>>) {
    match merged
    case Err(e) => Err(e)
    case Ok(rels) =>
      match ResolveJoins(naming, rels, rels)
      case Err(e) => Err(e)
      case Ok(resolved) =>
        match CheckRelations(naming, tables, resolved)
        case Err(e) => Err(e)
        case Ok(_) => Ok(resolved)
  }

  /** Annotate to column check, with the junctions taken in ascending order. */
  ghost function Infer(naming: Naming, tables: Tables, rels: seq<Relation>): (out: GenResult<seq<Relation>>) {
    Settle(naming, tables, Merge(naming, [], Inferred(naming, tables, rels, JunctionsInOrder(tables, rels))))
  }

  ghost function Generate(
    naming: Naming, tables: Tables, withRelations: bool, physical: seq<Relation>, logical: seq<Relation>)
    : (out: GenResult<seq<Relation>>)
  {
    match Validated(logical)
    case Err(e) => Err(e)
    case Ok(_) =>
      match (if withRelations then Merge(naming, physical, logical) else Ok(logical))
      case Err(e) => Err(e)
      case Ok(rels) => Infer(naming, tables, rels)
  }

  // ---- junction relations are valid and distinct ----

  lemma {:induction false} JunctionValid(naming: Naming, rels: seq<Relation>, t: string)
    requires forall r :: r in rels ==> ValidRelation(r)
    requires |ForeignKeys(rels, t)| == 2
    ensures ValidRelation(JunctionRelation(naming, t, ForeignKeys(rels, t)))
  {
    var fks := ForeignKeys(rels, t);
    assert fks[0] in fks && fks[1] in fks;
  }

  lemma {:induction false} EnumeratedOnce(order: seq<string>, s: set<string>)
    requires Enumerates(order, s)
    ensures forall i, j :: 0 <= i < j < |order| ==> order[i] != order[j]
  {
    forall i, j | 0 <= i < j < |order| ensures order[i] != order[j] {
      assert multiset(s)[order[i]] <= 1;
      if order[i] == order[j] { RepeatedTwice(order, i, j); }
    }
  }

  lemma {:induction false} JunctionsDistinct(naming: Naming, rels: seq<Relation>, order: seq<string>)
    requires forall r :: r in rels ==> ValidRelation(r)
    requires forall t :: t in order ==> |ForeignKeys(rels, t)| == 2
    requires forall i, j :: 0 <= i < j < |order| ==> order[i] != order[j]
    ensures DistinctKeys(JunctionRelations(naming, rels, order))
  {
    var m2m := JunctionRelations(naming, rels, order);
    forall i, j | 0 <= i < j < |order| ensures KeyOf(m2m[i]) != KeyOf(m2m[j]) {
      assert order[i] in order && order[j] in order;
      JunctionValid(naming, rels, order[i]);
      JunctionValid(naming, rels, order[j]);
      KeyInjective(m2m[i], m2m[j]);
    }
  }

  lemma {:induction false} AnnotateKeepsKey(tables: Tables, r: Relation)
    ensures KeyOf(Annotate(tables, r)) == KeyOf(r)
    ensures ValidRelation(r) ==> ValidRelation(Annotate(tables, r))
  {
  }

  lemma {:induction false} SkipKeepsKey(suppress: set<string>, r: Relation)
    ensures KeyOf(SkipReverse(suppress, r)) == KeyOf(r)
    ensures ValidRelation(r) ==> ValidRelation(SkipReverse(suppress, r))
  {
  }

  /** A pass that keeps keys keeps them distinct. */
  lemma {:induction false} MapKeepsDistinct<T>(key: T -> string, s: seq<T>, t: seq<T>)
    requires Distinct(key, s) && |s| == |t| && forall i :: 0 <= i < |s| ==> key(t[i]) == key(s[i])
    ensures Distinct(key, t)
  {
  }

  lemma {:induction false} AnnotatedFacts(tables: Tables, rels: seq<Relation>)
    requires DistinctKeys(rels) && forall r :: r in rels ==> ValidRelation(r)
    ensures var a := AnnotateAll(tables, rels); DistinctKeys(a) && forall r :: r in a ==> ValidRelation(r)
  {
    var a := AnnotateAll(tables, rels);
    forall i | 0 <= i < |rels| ensures KeyOf(a[i]) == KeyOf(rels[i]) && ValidRelation(a[i]) {
      assert rels[i] in rels;
      AnnotateKeepsKey(tables, rels[i]);
    }
    MapKeepsDistinct(KeyOf, rels, a);
  }

  lemma {:induction false} SkippedDistinct(suppress: set<string>, rels: seq<Relation>)
    requires DistinctKeys(rels)
    ensures DistinctKeys(SkipReverseAll(suppress, rels))
  {
    var s := SkipReverseAll(suppress, rels);
    forall i | 0 <= i < |rels| ensures KeyOf(s[i]) == KeyOf(rels[i]) { SkipKeepsKey(suppress, rels[i]); }
    MapKeepsDistinct(KeyOf, rels, s);
  }

  // ---- the order of relations and of map iteration does not matter ----

  lemma {:induction false} ForeignKeyCount(rels: seq<Relation>, t: string, x: Relation)
    ensures multiset(ForeignKeys(rels, t))[x] == if IsForeignKey(x, t) then multiset(rels)[x] else 0
  {
    if rels != [] {
      var n := |rels| - 1;
      assert rels == rels[..n] + [rels[n]];
      ForeignKeyCount(rels[..n], t, x);
    }
  }

  lemma {:induction false} ForeignKeysPermutation(rels: seq<Relation>, rels': seq<Relation>, t: string)
    requires multiset(rels) == multiset(rels')
    ensures multiset(ForeignKeys(rels, t)) == multiset(ForeignKeys(rels', t))
  {
    forall x: Relation ensures multiset(ForeignKeys(rels, t))[x] == multiset(ForeignKeys(rels', t))[x] {
      ForeignKeyCount(rels, t, x);
      ForeignKeyCount(rels', t, x);
    }
  }

  lemma {:induction false} JunctionSymmetric(
    naming: Naming, tables: Tables, t: string, fks: seq<Relation>, fks': seq<Relation>)
    requires multiset(fks) == multiset(fks')
    ensures IsJunction(tables, fks, t) <==> IsJunction(tables, fks', t)
    ensures IsJunction(tables, fks, t) ==> JunctionRelation(naming, t, fks) == JunctionRelation(naming, t, fks')
  {
    SameLength(fks, fks');
    if |fks| == 2 {
      TwoOrders(fks, fks');
      assert FkColumnSet(fks) == FkColumnSet(fks') by { FkColumnsSwap(fks, fks'); }
      LessEqTotal(fks[0].targetTable, fks[1].targetTable);
    }
  }

  lemma {:induction false} FkColumnsSwap(fks: seq<Relation>, fks': seq<Relation>)
    requires |fks| == 2 && |fks'| == 2 && (fks' == fks || fks' == [fks[1], fks[0]])
    ensures FkColumnSet(fks) == FkColumnSet(fks')
  {
    assert fks == [] + [fks[0]] + [fks[1]] && fks' == [] + [fks'[0]] + [fks'[1]];
    FkColumnStep([fks[0]], fks[1]);
    FkColumnStep([], fks[0]);
    FkColumnStep([fks'[0]], fks'[1]);
    FkColumnStep([], fks'[0]);
  }

  lemma {:induction false} DetectionPermutation(
    naming: Naming, tables: Tables, rels: seq<Relation>, rels': seq<Relation>)
    requires multiset(rels) == multiset(rels')
    ensures JunctionTables(tables, rels) == JunctionTables(tables, rels')
    ensures var js := JunctionTables(tables, rels);
            && Suppressed(rels, js) == Suppressed(rels', js)
            && forall t :: t in js ==>
                 JunctionRelation(naming, t, ForeignKeys(rels, t)) == JunctionRelation(naming, t, ForeignKeys(rels', t))
  {
    forall t ensures t in JunctionTables(tables, rels) <==> t in JunctionTables(tables, rels') {
      ForeignKeysPermutation(rels, rels', t);
      JunctionSymmetric(naming, tables, t, ForeignKeys(rels, t), ForeignKeys(rels', t));
      JunctionMember(tables, rels, t);
      JunctionMember(tables, rels', t);
    }
    forall t | t in JunctionTables(tables, rels)
      ensures JunctionRelation(naming, t, ForeignKeys(rels, t)) == JunctionRelation(naming, t, ForeignKeys(rels', t))
    {
      ForeignKeysPermutation(rels, rels', t);
      JunctionSymmetric(naming, tables, t, ForeignKeys(rels, t), ForeignKeys(rels', t));
      JunctionMember(tables, rels, t);
    }
    forall t ensures FkKeys(rels, t) == FkKeys(rels', t) {
      ForeignKeysPermutation(rels, rels', t);
      KeySetPermutation(KeyOf, ForeignKeys(rels, t), ForeignKeys(rels', t));
    }
  }

  /** The junction relation of a table, extended to tables that are no junction. */
  function AutoFor(naming: Naming, rels: seq<Relation>, t: string): Relation {
    if |ForeignKeys(rels, t)| == 2 then JunctionRelation(naming, t, ForeignKeys(rels, t))
    else Relation("", "", "", "", "", "", "", "", false, "", false)
  }

  lemma {:induction false} AutosPermutation(
    naming: Naming, rels: seq<Relation>, order: seq<string>, order': seq<string>)
    requires multiset(order) == multiset(order')
    requires forall t :: t in order ==> |ForeignKeys(rels, t)| == 2
    requires forall t :: t in order' ==> |ForeignKeys(rels, t)| == 2
    ensures multiset(JunctionRelations(naming, rels, order)) == multiset(JunctionRelations(naming, rels, order'))
  {
    forall i | 0 <= i < |order| ensures |ForeignKeys(rels, order[i])| == 2 { assert order[i] in order; }
    forall i | 0 <= i < |order'| ensures |ForeignKeys(rels, order'[i])| == 2 { assert order'[i] in order'; }
    MapPermutation(t => AutoFor(naming, rels, t), order, order',
                   JunctionRelations(naming, rels, order), JunctionRelations(naming, rels, order'));
  }

  lemma {:induction false} AnnotatePermutation(tables: Tables, rels: seq<Relation>, rels': seq<Relation>)
    requires multiset(rels) == multiset(rels')
    ensures multiset(AnnotateAll(tables, rels)) == multiset(AnnotateAll(tables, rels'))
  {
    MapPermutation(r => Annotate(tables, r), rels, rels', AnnotateAll(tables, rels), AnnotateAll(tables, rels'));
  }

  lemma {:induction false} SkipPermutation(suppress: set<string>, rels: seq<Relation>, rels': seq<Relation>)
    requires multiset(rels) == multiset(rels')
    ensures multiset(SkipReverseAll(suppress, rels)) == multiset(SkipReverseAll(suppress, rels'))
  {
    MapPermutation(r => SkipReverse(suppress, r), rels, rels', SkipReverseAll(suppress, rels),
        SkipReverseAll(suppress, rels'));
  }

  /** The second merge sees one answer, whatever the order of relations and of junction tables. */
  lemma {:induction false} SameJunctions(naming: Naming, a: seq<Relation>, a': seq<Relation>, order: seq<string>)
    requires forall t :: t in order ==> |ForeignKeys(a, t)| == 2 && |ForeignKeys(a', t)| == 2
    requires forall t :: t in order ==>
        JunctionRelation(naming, t, ForeignKeys(a, t)) == JunctionRelation(naming, t, ForeignKeys(a', t))
    ensures JunctionRelations(naming, a, order) == JunctionRelations(naming, a', order)
  {
    forall i | 0 <= i < |order|
        ensures JunctionRelations(naming, a, order)[i] == JunctionRelations(naming, a', order)[i] {
      assert order[i] in order;
    }
  }

  lemma {:induction false} InferredPermutation(
    naming: Naming, tables: Tables, rels: seq<Relation>, rels': seq<Relation>, order: seq<string>, order': seq<string>)
    requires multiset(rels) == multiset(rels') && DistinctKeys(rels) && forall r :: r in rels ==> ValidRelation(r)
    requires Enumerates(order, JunctionTables(tables, AnnotateAll(tables, rels)))
    requires Enumerates(order', JunctionTables(tables, AnnotateAll(tables, rels')))
    ensures Merge(naming, [], Inferred(naming, tables, rels, order)) ==
        Merge(naming, [], Inferred(naming, tables, rels', order'))
  {
    var a, a' := AnnotateAll(tables, rels), AnnotateAll(tables, rels');
    AnnotatePermutation(tables, rels, rels');
    AnnotatedFacts(tables, rels);
    DetectionPermutation(naming, tables, a, a');
    var js := JunctionTables(tables, a);
    var suppress := Suppressed(a, js);
    EnumeratedMembers(order, js);
    EnumeratedMembers(order', js);
    EnumeratedOnce(order, js);
    var autos, autos' := JunctionRelations(naming, a, order), JunctionRelations(naming, a', order');
    AutosPermutation(naming, a, order, order');
    SameJunctions(naming, a, a', order');
    JunctionsDistinct(naming, a, order);
    SkippedDistinct(suppress, a);
    SkippedDistinct(suppress, autos);
    SkipPermutation(suppress, a, a');
    SkipPermutation(suppress, autos, autos');
    MergeAppendPermutation(naming, SkipReverseAll(suppress, a), SkipReverseAll(suppress, a'),
                           SkipReverseAll(suppress, autos), SkipReverseAll(suppress, autos'));
  }

  /**
   The final relation list, and whether generation succeeds, is the same for
   every order of the logical relations and of the physical foreign keys,
   repeated or malformed ones included.
   */
  lemma {:induction false} GeneratePermutation(
    naming: Naming, tables: Tables, withRelations: bool,
    physical: seq<Relation>, physical': seq<Relation>, logical: seq<Relation>, logical': seq<Relation>)
    requires (forall r :: r in physical ==> Physical(r)) && multiset(physical) == multiset(physical')
    requires multiset(logical) == multiset(logical')
    ensures SameOutcome(Generate(naming, tables, withRelations, physical, logical),
                        Generate(naming, tables, withRelations, physical', logical'))
  {
    ValidatedPermutation(logical, logical');
    if Validated(logical).Ok? {
      assert forall r :: r in logical ==> ValidRelation(r);
      if withRelations {
        MergeAnyOrder(naming, physical, physical', logical, logical');
      } else {
        InferredPermutation(naming, tables, logical, logical', JunctionsInOrder(tables, logical),
            JunctionsInOrder(tables, logical'));
      }
    }
  }

  lemma {:induction false} ValidatedPermutation(rels: seq<Relation>, rels': seq<Relation>)
    requires multiset(rels) == multiset(rels')
    ensures Validated(rels).Ok? <==> Validated(rels').Ok?
  {
    if Validated(rels).Ok? { ValidatedTransfers(rels, rels'); }
    if Validated(rels').Ok? { ValidatedTransfers(rels', rels); }
  }

  lemma {:induction false} ValidatedTransfers(rels: seq<Relation>, rels': seq<Relation>)
    requires multiset(rels) == multiset(rels') && Validated(rels).Ok?
    ensures Validated(rels').Ok?
  {
    PermutedDistinct(KeyOf, rels, rels');
    SameMembers(rels, rels');
    forall i | 0 <= i < |rels'| ensures ValidRelation(rels'[i]) {
      assert rels'[i] in rels;
      var k :| 0 <= k < |rels| && rels[k] == rels'[i];
    }
  }

  /** The relations that enter inference are valid, with distinct keys. */
  lemma {:induction false} InputFacts(
    naming: Naming, withRelations: bool, physical: seq<Relation>, logical: seq<Relation>)
    requires Validated(logical).Ok? && (withRelations ==> Merge(naming, physical, logical).Ok?)
    ensures var rels := if withRelations then Merge(naming, physical, logical).value else logical;
            DistinctKeys(rels) && forall r :: r in rels ==> ValidRelation(r)
  {
    if withRelations {
      assert forall r :: r in logical ==> ValidRelation(r);
      MergeResult(naming, physical, logical);
    }
  }

  /**
   The passes as the program runs them, over Go maps visited in any order. The
   result is the one order-free Generate gives.
   */
  method GenerateRelations(
    naming: Naming, tables: Tables, withRelations: bool, physical: seq<Relation>, logical: seq<Relation>)
    returns (out: GenResult<seq<Relation>>)
    ensures out == Generate(naming, tables, withRelations, physical, logical)
  {
    var valid := ValidateRelations(logical);
    if valid.Err? { return Err(valid.error); }
    var rels := logical;
    if withRelations {
      var merged := MergeRelations(naming, physical, logical);
      if merged.Err? { return merged; }
      rels := merged.value;
    }
    InputFacts(naming, withRelations, physical, logical);
    out := InferRelations(naming, tables, rels);
  }

  method InferRelations(naming: Naming, tables: Tables, rels: seq<Relation>) returns (out: GenResult<seq<Relation>>)
    requires DistinctKeys(rels) && forall r :: r in rels ==> ValidRelation(r)
    ensures out == Infer(naming, tables, rels)
  {
    var annotated := AnnotateSlice(tables, rels);
    var skipped, order := AppendJunctions(naming, tables, rels, annotated);
    InferredPermutation(naming, tables, rels, rels, order, JunctionsInOrder(tables, rels));
    var merged := MergeRelations(naming, [], skipped);
    out := SettleRelations(naming, tables, merged);
  }

  method AnnotateSlice(tables: Tables, rels: seq<Relation>) returns (annotated: seq<Relation>)
    ensures annotated == AnnotateAll(tables, rels)
  {
    var uniqueSingle, pkCols := CollectUniqueness(tables);
    var slice := new Relation[|rels|](i requires 0 <= i < |rels| => rels[i]);
    assert slice[..] == rels;
    AnnotateHasOne(slice, tables, uniqueSingle, pkCols);
    annotated := slice[..];
  }

  method AppendJunctions(naming: Naming, tables: Tables, ghost rels: seq<Relation>, annotated: seq<Relation>)
    returns (skipped: seq<Relation>, ghost order: seq<string>)
    requires annotated == AnnotateAll(tables, rels)
    ensures Enumerates(order, JunctionTables(tables, annotated))
    ensures skipped == Inferred(naming, tables, rels, order)
  {
    var autoM2M, suppress, found := DetectPureM2MTables(naming, tables, annotated);
    order := found;
    skipped := ApplySkipReverse(annotated + autoM2M, suppress);
    SkipAppend(suppress, annotated, autoM2M);
  }

  lemma {:induction false} SkipAppend(suppress: set<string>, s: seq<Relation>, t: seq<Relation>)
    ensures SkipReverseAll(suppress, s + t) == SkipReverseAll(suppress, s) + SkipReverseAll(suppress, t)
  {
  }

  method SettleRelations(
    naming: Naming, tables: Tables, merged: GenResult<seq<Relation>>)
    returns (out: GenResult<seq<Relation>>)
    ensures out == Settle(naming, tables, merged)
  {
    if merged.Err? { return merged; }
    var resolved := ResolveM2MJoins(naming, merged.value);
    if resolved.Err? { return resolved; }
    var checked := ValidateRelationColumns(naming, tables, resolved.value);
    if checked.Err? { return Err(checked.error); }
    return resolved;
  }

  // ---- the generated structs ----

  lemma {:induction false} ResolveKeepsClaim(naming: Naming, all: seq<Relation>, r: Relation)
    requires ResolveJoin(naming, all, r).Ok?
    ensures ClaimOf(naming, ResolveJoin(naming, all, r).value) == ClaimOf(naming, r)
  {
  }

  lemma {:induction false} InferredValid(naming: Naming, tables: Tables, rels: seq<Relation>, order: seq<string>)
    requires DistinctKeys(rels) && forall r :: r in rels ==> ValidRelation(r)
    requires Enumerates(order, JunctionTables(tables, AnnotateAll(tables, rels)))
    ensures forall r :: r in Inferred(naming, tables, rels, order) ==> ValidRelation(r)
  {
    var a := AnnotateAll(tables, rels);
    AnnotatedFacts(tables, rels);
    EnumeratedMembers(order, JunctionTables(tables, a));
    var suppress := Suppressed(a, JunctionTables(tables, a));
    var autos := JunctionRelations(naming, a, order);
    forall i | 0 <= i < |a| ensures ValidRelation(SkipReverseAll(suppress, a)[i]) {
      assert a[i] in a;
      SkipKeepsKey(suppress, a[i]);
    }
    forall i | 0 <= i < |autos| ensures ValidRelation(SkipReverseAll(suppress, autos)[i]) {
      assert order[i] in order;
      JunctionValid(naming, a, order[i]);
      SkipKeepsKey(suppress, autos[i]);
    }
  }

  /**
   In every struct generated from a successful run, the relation fields have
   pairwise distinct names, none of them a column's field or BaseModel.
   */
  lemma {:induction false} StructFieldsDistinct(
    naming: Naming, tables: Tables, withRelations: bool, physical: seq<Relation>, logical: seq<Relation>, table: string)
    requires Generate(naming, tables, withRelations, physical, logical).Ok? && table in tables
    ensures var fields := Emit(naming, table, Generate(naming, tables, withRelations, physical, logical).value);
            && DistinctNames(fields)
            && forall k :: 0 <= k < |fields| ==> fields[k].name !in TableFields(naming, tables[table])
  {
    InputFacts(naming, withRelations, physical, logical);
    var rels := if withRelations then Merge(naming, physical, logical).value else logical;
    var order := JunctionsInOrder(tables, rels);
    InferredValid(naming, tables, rels, order);
    SettledStructs(naming, tables, Inferred(naming, tables, rels, order), table);
  }

  lemma {:induction false} SettledStructs(naming: Naming, tables: Tables, list: seq<Relation>, table: string)
    requires forall r :: r in list ==> ValidRelation(r)
    requires Settle(naming, tables, Merge(naming, [], list)).Ok? && table in tables
    ensures var fields := Emit(naming, table, Settle(naming, tables, Merge(naming, [], list)).value);
            && DistinctNames(fields)
            && forall k :: 0 <= k < |fields| ==> fields[k].name !in TableFields(naming, tables[table])
  {
    var merged := Merge(naming, [], list).value;
    var out := Settle(naming, tables, Ok(merged)).value;
    MergeResult(naming, [], list);
    SettledDistinct(naming, merged, out, table);
    forall k | 0 <= k < |Emit(naming, table, out)|
      ensures Emit(naming, table, out)[k].name !in TableFields(naming, tables[table])
    {
      EmitAvoidsColumns(naming, tables, table, out, k);
    }
  }

  lemma {:induction false} SettledDistinct(naming: Naming, merged: seq<Relation>, out: seq<Relation>, table: string)
    requires MergeCheck(Claims(naming, merged), |merged|).Ok? && DistinctKeys(merged)
    requires ResolveJoins(naming, merged, merged) == Ok(out)
    ensures DistinctNames(Emit(naming, table, out))
  {
    CheckMeans(Claims(naming, merged), |merged|);
    forall i | 0 <= i < |out| ensures ClaimOf(naming, out[i]) == Claims(naming, merged)[i] {
      ResolveKeepsClaim(naming, merged, merged[i]);
    }
    forall i, j | 0 <= i < j < |out| ensures ClaimOf(naming, out[i]).name != ClaimOf(naming, out[j]).name {
      assert KeyOf(merged[i]) != KeyOf(merged[j]);
    }
    EmitDistinct(naming, table, out);
  }
}
