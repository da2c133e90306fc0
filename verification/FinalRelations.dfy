/**
 What the final relation list of GenerateModels (internal/database/gen/model.go)
 consists of: every relation that came in and every junction that was detected,
 none lost and none added, with the joins of the explicit many-to-many ones.
 */
module FinalRelations {
  import opened Wrappers
  import opened Ordering
  import opened Text
  import opened KeyedMaps
  import opened Relations
  import opened MergeLaws
  import opened Schema
  import opened Junctions
  import opened Pipeline
  import opened Structs
  import opened JoinNames

  // ---- keys ----

  lemma {:induction false} KeySetAppend<T>(key: T -> string, s: seq<T>, t: seq<T>)
    ensures KeySet(key, s + t) == KeySet(key, s) + KeySet(key, t)
  {
    if t == [] {
      assert s + t == s;
    } else {
      var n := |t| - 1;
      KeySetAppend(key, s, t[..n]);
      assert s + t == (s + t[..n]) + [t[n]] && t == t[..n] + [t[n]];
      KeySetSnoc(key, s + t[..n], t[n]);
      KeySetSnoc(key, t[..n], t[n]);
    }
  }

  lemma {:induction false} SameKeys<T>(key: T -> string, s: seq<T>, t: seq<T>)
    requires |s| == |t| && forall i :: 0 <= i < |s| ==> key(t[i]) == key(s[i])
    ensures KeySet(key, t) == KeySet(key, s)
  {
    forall i | 0 <= i < |s| ensures key(s[i]) in KeySet(key, t) { assert key(t[i]) == key(s[i]); }
  }

  /** Folding items into a map adds their keys, in both ways of folding. */
  lemma {:induction false} FoldedKeys<T>(key: T -> string, over: (T, T) -> T, m: map<string, T>, items: seq<T>)
    ensures Combine(key, over, m, items).Keys == m.Keys + KeySet(key, items)
    ensures Overwrite(key, m, items).Keys == m.Keys + KeySet(key, items)
  {
    if items != [] {
      var n := |items| - 1;
      FoldedKeys(key, over, m, items[..n]);
      assert items == items[..n] + [items[n]];
      KeySetSnoc(key, items[..n], items[n]);
    }
  }

  /** A successful merge lists exactly the keys of its inputs. */
  lemma {:induction false} MergeKeys(naming: Naming, physical: seq<Relation>, logical: seq<Relation>)
    requires forall r :: r in logical ==> ValidRelation(r)
    requires Merge(naming, physical, logical).Ok?
    ensures KeySet(KeyOf, Merge(naming, physical, logical).value) == KeySet(KeyOf, physical) + KeySet(KeyOf, logical)
  {
    var rels := Merge(naming, physical, logical).value;
    MergeResult(naming, physical, logical);
    CombineAdds(KeyOf, Override, map[], rels);
    FoldedKeys(KeyOf, Override, map[], physical);
    FoldedKeys(KeyOf, Override, Overwrite(KeyOf, map[], physical), logical);
  }

  /** The junctions detected among the relations that enter inference. */
  ghost function Detected(naming: Naming, tables: Tables, rels: seq<Relation>): seq<Relation> {
    var order := JunctionsInOrder(tables, rels);
    EnumeratedMembers(order, JunctionTables(tables, AnnotateAll(tables, rels)));
    JunctionRelations(naming, AnnotateAll(tables, rels), order)
  }

  lemma {:induction false} SkippedKeys(suppress: set<string>, rels: seq<Relation>)
    ensures KeySet(KeyOf, SkipReverseAll(suppress, rels)) == KeySet(KeyOf, rels)
  {
    forall i | 0 <= i < |rels| ensures KeyOf(SkipReverseAll(suppress, rels)[i]) == KeyOf(rels[i]) {
      SkipKeepsKey(suppress, rels[i]);
    }
    SameKeys(KeyOf, rels, SkipReverseAll(suppress, rels));
  }

  lemma {:induction false} AnnotatedKeys(tables: Tables, rels: seq<Relation>)
    ensures KeySet(KeyOf, AnnotateAll(tables, rels)) == KeySet(KeyOf, rels)
  {
    forall i | 0 <= i < |rels| ensures KeyOf(AnnotateAll(tables, rels)[i]) == KeyOf(rels[i]) {
      AnnotateKeepsKey(tables, rels[i]);
    }
    SameKeys(KeyOf, rels, AnnotateAll(tables, rels));
  }

  lemma {:induction false} InferredKeys(naming: Naming, tables: Tables, rels: seq<Relation>)
    ensures KeySet(KeyOf, Inferred(naming, tables, rels, JunctionsInOrder(tables, rels))) ==
            KeySet(KeyOf, rels) + KeySet(KeyOf, Detected(naming, tables, rels))
  {
    var annotated := AnnotateAll(tables, rels);
    var suppress := Suppressed(annotated, JunctionTables(tables, annotated));
    var autos := Detected(naming, tables, rels);
    KeySetAppend(KeyOf, SkipReverseAll(suppress, annotated), SkipReverseAll(suppress, autos));
    SkippedKeys(suppress, annotated);
    SkippedKeys(suppress, autos);
    AnnotatedKeys(tables, rels);
  }

  lemma {:induction false} ResolvedKeys(naming: Naming, merged: seq<Relation>)
    requires ResolveJoins(naming, merged, merged).Ok? && DistinctKeys(merged)
    ensures KeySet(KeyOf, ResolveJoins(naming, merged, merged).value) == KeySet(KeyOf, merged)
    ensures DistinctKeys(ResolveJoins(naming, merged, merged).value)
  {
    var out := ResolveJoins(naming, merged, merged).value;
    forall i | 0 <= i < |merged| ensures KeyOf(out[i]) == KeyOf(merged[i]) {
      assert Ok(out[i]) == ResolveJoin(naming, merged, merged[i]);
    }
    SameKeys(KeyOf, merged, out);
    MapKeepsDistinct(KeyOf, merged, out);
  }

  lemma {:induction false} SettledKeys(naming: Naming, tables: Tables, list: seq<Relation>)
    requires forall r :: r in list ==> ValidRelation(r)
    requires Settle(naming, tables, Merge(naming, [], list)).Ok?
    ensures var out := Settle(naming, tables, Merge(naming, [], list)).value;
      KeySet(KeyOf, out) == KeySet(KeyOf, list) && DistinctKeys(out)
  {
    MergeKeys(naming, [], list);
    MergeResult(naming, [], list);
    ResolvedKeys(naming, Merge(naming, [], list).value);
  }

  /**
   The final relations have exactly the keys of the physical relations, of the
   logical ones and of the detected junctions, each once.
   */
  lemma {:induction false} FinalKeys(
    naming: Naming, tables: Tables, withRelations: bool, physical: seq<Relation>, logical: seq<Relation>)
    requires Generate(naming, tables, withRelations, physical, logical).Ok?
    ensures var out := Generate(naming, tables, withRelations, physical, logical).value;
            var rels := Entering(naming, withRelations, physical, logical);
            && DistinctKeys(out)
            && KeySet(KeyOf, out) == (if withRelations then KeySet(KeyOf, physical) else {}) + KeySet(KeyOf, logical)
                                     + KeySet(KeyOf, Detected(naming, tables, rels))
  {
    InputFacts(naming, withRelations, physical, logical);
    var rels := Entering(naming, withRelations, physical, logical);
    if withRelations {
      assert forall r :: r in logical ==> ValidRelation(r);
      MergeKeys(naming, physical, logical);
    }
    InferredValid(naming, tables, rels, JunctionsInOrder(tables, rels));
    InferredKeys(naming, tables, rels);
    SettledKeys(naming, tables, Inferred(naming, tables, rels, JunctionsInOrder(tables, rels)));
  }

  // ---- joins ----

  predicate NoJoin(r: Relation) { r.m2mJoin == "" }

  /** A key filed first by a relation without a join text has none after later overrides. */
  lemma {:induction false} FirstFiledDecides(m: map<string, Relation>, items: seq<Relation>, k: string)
    requires k in m && NoJoin(m[k])
    ensures k in Combine(KeyOf, Override, m, items) && NoJoin(Combine(KeyOf, Override, m, items)[k])
  {
    if items != [] { FirstFiledDecides(m, items[..|items| - 1], k); }
  }

  lemma {:induction false} NoneJoined(items: seq<Relation>)
    requires forall i :: 0 <= i < |items| ==> NoJoin(items[i])
    ensures forall k :: k in Combine(KeyOf, Override, map[], items) ==>
        NoJoin(Combine(KeyOf, Override, map[], items)[k])
  {
    if items != [] { NoneJoined(items[..|items| - 1]); }
  }

  /** A merged relation whose key the first part files has no join text yet. */
  lemma {:induction false} ExplicitUnjoined(naming: Naming, a: seq<Relation>, b: seq<Relation>, i: nat)
    requires forall r :: r in a + b ==> ValidRelation(r)
    requires forall i :: 0 <= i < |a| ==> NoJoin(a[i])
    requires Merge(naming, [], a + b).Ok? && i < |Merge(naming, [], a + b).value|
    requires KeyOf(Merge(naming, [], a + b).value[i]) in KeySet(KeyOf, a)
    ensures NoJoin(Merge(naming, [], a + b).value[i])
  {
    var rels := Merge(naming, [], a + b).value;
    var k := KeyOf(rels[i]);
    MergeResult(naming, [], a + b);
    CombineAdds(KeyOf, Override, map[], rels);
    assert rels[i] in rels;
    CombineAppend(KeyOf, Override, map[], a, b);
    NoneJoined(a);
    FoldedKeys(KeyOf, Override, map[], a);
    FirstFiledDecides(Combine(KeyOf, Override, map[], a), b, k);
  }

  lemma {:induction false} EnteringUnjoined(
    naming: Naming, withRelations: bool, physical: seq<Relation>, logical: seq<Relation>, i: nat)
    requires forall i :: 0 <= i < |physical| ==> NoJoin(physical[i])
    requires forall i :: 0 <= i < |logical| ==> NoJoin(logical[i])
    requires i < |Entering(naming, withRelations, physical, logical)|
    ensures NoJoin(Entering(naming, withRelations, physical, logical)[i])
  {
    if withRelations && Merge(naming, physical, logical).Ok? {
      FiledKeeps(KeyOf, Override, NoJoin, map[], physical);
      FiledKeeps(KeyOf, Override, NoJoin, Overwrite(KeyOf, map[], physical), logical);
      StringKeys(MergedMap(physical, logical).Keys);
      var keys := SortedKeys(LessEq, MergedMap(physical, logical).Keys);
      assert keys[i] in keys;
    }
  }

  lemma {:induction false} SettledJoin(naming: Naming, tables: Tables, a: seq<Relation>, b: seq<Relation>, i: nat)
    returns (leftFk: Relation, rightFk: Relation)
    requires forall r :: r in a + b ==> ValidRelation(r)
    requires forall i :: 0 <= i < |a| ==> NoJoin(a[i])
    requires Settle(naming, tables, Merge(naming, [], a + b)).Ok?
    requires var out := Settle(naming, tables, Merge(naming, [], a + b)).value;
             i < |out| && out[i].IsM2M() && KeyOf(out[i]) in KeySet(KeyOf, a)
    ensures var out := Settle(naming, tables, Merge(naming, [], a + b)).value;
            JoinExact(naming, out, out[i], leftFk, rightFk)
  {
    var merged := Merge(naming, [], a + b).value;
    var out := ResolveJoins(naming, merged, merged).value;
    assert Ok(out[i]) == ResolveJoin(naming, merged, merged[i]);
    ResolvedIdentity(naming, merged, merged[i]);
    ExplicitUnjoined(naming, a, b, i);
    leftFk, rightFk := JoinNamesExact(naming, a + b, i);
  }

  lemma {:induction false} ResolvedIdentity(naming: Naming, all: seq<Relation>, r: Relation)
    requires ResolveJoin(naming, all, r).Ok?
    ensures var s := ResolveJoin(naming, all, r).value; KeyOf(s) == KeyOf(r) && s.IsM2M() == r.IsM2M()
  {
  }

  lemma {:induction false} AnnotatedUnjoined(tables: Tables, suppress: set<string>, rels: seq<Relation>)
    requires forall i :: 0 <= i < |rels| ==> NoJoin(rels[i])
    ensures forall i :: 0 <= i < |rels| ==> NoJoin(SkipReverseAll(suppress, AnnotateAll(tables, rels))[i])
  {
  }

  /** Every many-to-many relation that came in, rather than being detected, ends up with an exactly described join. */
  lemma {:induction false} FinalJoin(
    naming: Naming, tables: Tables, withRelations: bool, physical: seq<Relation>, logical: seq<Relation>, i: nat)
    returns (leftFk: Relation, rightFk: Relation)
    requires Generate(naming, tables, withRelations, physical, logical).Ok?
    requires forall i :: 0 <= i < |physical| ==> NoJoin(physical[i])
    requires forall i :: 0 <= i < |logical| ==> NoJoin(logical[i])
    requires var out := Generate(naming, tables, withRelations, physical, logical).value;
             i < |out| && out[i].IsM2M()
             && KeyOf(out[i]) in KeySet(KeyOf, Entering(naming, withRelations, physical, logical))
    ensures var out := Generate(naming, tables, withRelations, physical, logical).value;
            JoinExact(naming, out, out[i], leftFk, rightFk)
  {
    var rels := Entering(naming, withRelations, physical, logical);
    InputFacts(naming, withRelations, physical, logical);
    forall i | 0 <= i < |rels| ensures NoJoin(rels[i]) {
      EnteringUnjoined(naming, withRelations, physical, logical, i);
    }
    var annotated := AnnotateAll(tables, rels);
    var suppress := Suppressed(annotated, JunctionTables(tables, annotated));
    InferredValid(naming, tables, rels, JunctionsInOrder(tables, rels));
    AnnotatedUnjoined(tables, suppress, rels);
    SkippedKeys(suppress, annotated);
    AnnotatedKeys(tables, rels);
    leftFk, rightFk := SettledJoin(naming, tables, SkipReverseAll(suppress, annotated),
                                   SkipReverseAll(suppress, Detected(naming, tables, rels)), i);
  }
}
