/**
 Laws of mergeRelations: the result does not depend on the order of either
 input list, a successful result is a fixed point, and success means that no
 two relations fill the same struct slot.
 */
module MergeLaws {
  import opened Wrappers
  import opened Ordering
  import opened Text
  import opened KeyedMaps
  import opened Relations

  /** mergeRelations gives the same answer for every order of its inputs, repeated physical relations included. */
  lemma {:induction false} MergePermutation(
    naming: Naming, physical: seq<Relation>, physical': seq<Relation>, logical: seq<Relation>, logical': seq<Relation>)
    requires Consistent(KeyOf, physical) && multiset(physical) == multiset(physical')
    requires DistinctKeys(logical) && multiset(logical) == multiset(logical')
    ensures Merge(naming, physical, logical) == Merge(naming, physical', logical')
  {
    OverwritePermutation(KeyOf, physical, physical');
    CombinePermutation(KeyOf, Override, Overwrite(KeyOf, map[], physical), logical, logical');
  }

  /** The same for one list made of two parts, as the second merge receives it. */
  lemma {:induction false} MergeAppendPermutation(
    naming: Naming, a: seq<Relation>, a': seq<Relation>, b: seq<Relation>, b': seq<Relation>)
    requires DistinctKeys(a) && multiset(a) == multiset(a')
    requires DistinctKeys(b) && multiset(b) == multiset(b')
    ensures Merge(naming, [], a + b) == Merge(naming, [], a' + b')
  {
    CombineAppend(KeyOf, Override, map[], a, b);
    CombineAppend(KeyOf, Override, map[], a', b');
    CombinePermutation(KeyOf, Override, map[], a, a');
    CombinePermutation(KeyOf, Override, Combine(KeyOf, Override, map[], a), b, b');
  }

  // ---- success means no shared slot ----

  lemma {:induction false} CheckMeans(claims: seq<Claim>, n: nat)
    requires n <= |claims| && MergeCheck(claims, n).Ok?
    ensures forall i :: 0 <= i < n ==> claims[i].valid && !claims[i].selfClash
    ensures forall i, j :: 0 <= i < j < n ==> !Clash(claims[i], claims[j])
  {
    if n > 0 { CheckMeans(claims, n - 1); }
  }

  lemma {:induction false} CheckHolds(claims: seq<Claim>, n: nat)
    requires n <= |claims|
    requires forall i :: 0 <= i < n ==> claims[i].valid && !claims[i].selfClash
    requires forall i, j :: 0 <= i < j < n ==> !Clash(claims[i], claims[j])
    ensures MergeCheck(claims, n).Ok?
  {
    if n > 0 { CheckHolds(claims, n - 1); }
  }

  /** Valid relations with distinct keys that fill different slots always merge, and all of them are listed. */
  lemma {:induction false} MergeAccepts(naming: Naming, list: seq<Relation>)
    requires DistinctKeys(list) && forall r :: r in list ==> ValidRelation(r) && !ClaimOf(naming, r).selfClash
    requires forall a, b :: a in list && b in list ==> !Clash(ClaimOf(naming, a), ClaimOf(naming, b))
    ensures Merge(naming, [], list).Ok?
    ensures forall r :: r in Merge(naming, [], list).value <==> r in list
  {
    var m := MergedMap([], list);
    CombineAdds(KeyOf, Override, map[], list);
    StringKeys(m.Keys);
    var rels := Pick(m, SortedKeys(LessEq, m.Keys));
    PickMembers(KeyOf, m, SortedKeys(LessEq, m.Keys), list, rels);
    ClaimsHold(naming, rels, list);
  }

  lemma {:induction false} PickMembers<T>(
    key: T -> string, m: map<string, T>, keys: seq<string>, list: seq<T>, rels: seq<T>)
    requires m.Keys == KeySet(key, list) && forall r :: r in list ==> key(r) in m && m[key(r)] == r
    requires (forall k :: k in keys <==> k in m) && |rels| == |keys|
    requires forall i :: 0 <= i < |keys| ==> keys[i] in keys && rels[i] == m[keys[i]]
    ensures forall r :: r in rels <==> r in list
  {
    forall i | 0 <= i < |rels| ensures rels[i] in list {
      assert keys[i] in KeySet(key, list);
      var j :| 0 <= j < |list| && key(list[j]) == keys[i];
      assert list[j] in list;
    }
    forall r | r in list ensures r in rels {
      assert key(r) in keys;
      var i :| 0 <= i < |keys| && keys[i] == key(r);
      assert rels[i] == r;
    }
  }

  lemma {:induction false} ClaimsHold(naming: Naming, rels: seq<Relation>, list: seq<Relation>)
    requires forall r :: r in rels <==> r in list
    requires forall r :: r in list ==> ClaimOf(naming, r).valid && !ClaimOf(naming, r).selfClash
    requires forall a, b :: a in list && b in list ==> !Clash(ClaimOf(naming, a), ClaimOf(naming, b))
    ensures MergeCheck(Claims(naming, rels), |rels|).Ok?
  {
    var claims := Claims(naming, rels);
    forall i | 0 <= i < |rels| ensures rels[i] in list && claims[i] == ClaimOf(naming, rels[i]) {
      assert rels[i] in rels;
    }
    CheckHolds(claims, |rels|);
  }

  // ---- keys are stable, so merging again changes nothing ----

  lemma {:induction false} UniqueColon(a: string, x: string, b: string, y: string)
    requires ':' !in a && ':' !in x && a + [':'] + x == b + [':'] + y
    ensures a == b && x == y
  {
    var s := a + [':'] + x;
    assert s == b + [':'] + y;
    assert s[|b|] == ':';
    forall i | 0 <= i < |s| && i != |a| ensures s[i] != ':' {
      assert s[i] == if i < |a| then a[i] else x[i - |a| - 1];
    }
    assert a == s[..|a|] && b == s[..|a|];
    assert x == s[|a| + 1..] && y == s[|a| + 1..];
  }

  /** An override by a validated relation keeps the key it was filed under. */
  lemma {:induction false} OverrideKeepsKey(e: Relation, r: Relation)
    requires ValidRelation(r) && e.Key() == r.Key() && ValidEndpoints(e)
    ensures Override(e, r).Key() == r.Key()
  {
    NoColon(e);
    NoColon(r);
    if e.IsM2M() { M2MKeyHasColon(e); }
    if r.IsM2M() { M2MKeyHasColon(r); }
    if e.IsM2M() && r.IsM2M() {
      assert ':' !in r.through;
      UniqueColon(r.through, r.Endpoints(), e.through, e.Endpoints());
    }
  }

  ghost predicate KeysStable(m: map<string, Relation>) {
    forall k :: k in m && ValidEndpoints(m[k]) ==> m[k].Key() == k
  }

  lemma {:induction false} LogicalStable(m: map<string, Relation>, rels: seq<Relation>)
    requires KeysStable(m) && forall r :: r in rels ==> ValidRelation(r)
    ensures KeysStable(Combine(KeyOf, Override, m, rels))
  {
    if rels != [] {
      var rest, last := rels[..|rels| - 1], rels[|rels| - 1];
      LogicalStable(m, rest);
      var before := Combine(KeyOf, Override, m, rest);
      var k := last.Key();
      if k in before && ValidEndpoints(before[k]) { OverrideKeepsKey(before[k], last); }
    }
  }

  lemma {:induction false} PhysicalStable(rels: seq<Relation>)
    ensures KeysStable(Overwrite(KeyOf, map[], rels))
  {
    if rels != [] { PhysicalStable(rels[..|rels| - 1]); }
  }

  /** Listing a map by its sorted keys and filing the list again restores the map. */
  lemma {:induction false} RefileRestores<T>(
    key: T -> string, over: (T, T) -> T, m: map<string, T>, keys: seq<string>, items: seq<T>)
    requires forall k :: k in keys <==> k in m
    requires forall i, j :: 0 <= i < j < |keys| ==> keys[i] != keys[j]
    requires |items| == |keys| && forall i :: 0 <= i < |keys| ==> items[i] == m[keys[i]] && key(items[i]) == keys[i]
    ensures Distinct(key, items) && Combine(key, over, map[], items) == m
  {
    CombineAdds(key, over, map[], items);
    var after := Combine(key, over, map[], items);
    forall k | k in m ensures k in after && after[k] == m[k] {
      var i :| 0 <= i < |keys| && keys[i] == k;
      assert items[i] in items;
    }
    forall k | k in after ensures k in m {
      assert k in KeySet(key, items);
      var i :| 0 <= i < |items| && key(items[i]) == k;
      assert keys[i] in keys;
    }
  }

  /** A successful merge lists valid relations in strictly ascending key order. */
  lemma {:induction false} MergeResult(naming: Naming, physical: seq<Relation>, logical: seq<Relation>)
    requires forall r :: r in logical ==> ValidRelation(r)
    requires Merge(naming, physical, logical).Ok?
    ensures var rels := Merge(naming, physical, logical).value;
            && (forall i :: 0 <= i < |rels| ==> ValidRelation(rels[i]))
            && DistinctKeys(rels)
            && Combine(KeyOf, Override, map[], rels) == MergedMap(physical, logical)
            && (forall i, j :: 0 <= i < j < |rels| ==> LessEq(KeyOf(rels[i]), KeyOf(rels[j])))
  {
    var m := MergedMap(physical, logical);
    var keys := SortedKeys(LessEq, m.Keys);
    StringKeys(m.Keys);
    var rels := Pick(m, keys);
    var claims := Claims(naming, rels);
    CheckMeans(claims, |rels|);
    PhysicalStable(physical);
    LogicalStable(Overwrite(KeyOf, map[], physical), logical);
    forall i | 0 <= i < |rels| ensures ValidRelation(rels[i]) && KeyOf(rels[i]) == keys[i] {
      assert claims[i].valid;
      assert keys[i] in m;
    }
    RefileRestores(KeyOf, Override, m, keys, rels);
  }

  /** Merging a successful result again is the identity. */
  lemma {:induction false} MergeIdempotent(naming: Naming, physical: seq<Relation>, logical: seq<Relation>)
    requires forall r :: r in logical ==> ValidRelation(r)
    requires Merge(naming, physical, logical).Ok?
    ensures var rels := Merge(naming, physical, logical).value;
            && Merge(naming, [], rels) == Ok(rels)
            && Merge(naming, rels, []) == Ok(rels)
  {
    MergeResult(naming, physical, logical);
    OverwriteIsCombine(KeyOf, Override, Merge(naming, physical, logical).value);
  }
}
