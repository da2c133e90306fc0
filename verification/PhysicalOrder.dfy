/**
 Physical relations come straight from the database (getPhysicalRelations in
 internal/database/gen/model.go) and are not validated first, so their names may
 hold the characters that separate the parts of a key. Two of them that share a
 key without being the same are both invalid, and the merge fails in any order.
 */
module PhysicalOrder {
  import opened Ordering
  import opened Text
  import opened KeyedMaps
  import opened Relations
  import opened MergeLaws

  /** Only the endpoints are set. */
  predicate Physical(r: Relation) {
    r == Relation("", "", r.sourceTable, r.sourceColumn, r.targetTable, r.targetColumn, "", "", false, "", false)
  }

  ghost predicate SameOutcome(a: GenResult<seq<Relation>>, b: GenResult<seq<Relation>>) {
    a == b || (a.Err? && b.Err?)
  }

  // ---- conflicting physical relations never merge ----

  predicate SameEnds(a: Relation, b: Relation) {
    && a.sourceTable == b.sourceTable && a.sourceColumn == b.sourceColumn
    && a.targetTable == b.targetTable && a.targetColumn == b.targetColumn
  }

  lemma {:induction false} CombineKeepsEnds(m: map<string, Relation>, items: seq<Relation>, k: string)
    requires k in m
    ensures k in Combine(KeyOf, Override, m, items) && SameEnds(Combine(KeyOf, Override, m, items)[k], m[k])
  {
    if items != [] { CombineKeepsEnds(m, items[..|items| - 1], k); }
  }

  lemma {:induction false} OverwritePicks<T>(key: T -> string, items: seq<T>, i: nat) returns (j: nat)
    requires i < |items|
    ensures j < |items| && key(items[j]) == key(items[i])
    ensures key(items[i]) in Overwrite(key, map[], items) && Overwrite(key, map[], items)[key(items[i])] == items[j]
  {
    var n := |items| - 1;
    if key(items[n]) == key(items[i]) {
      j := n;
    } else {
      j := OverwritePicks(key, items[..n], i);
    }
  }

  lemma {:induction false} InvalidFails(naming: Naming, m: map<string, Relation>, k: string)
    requires k in m && !ValidRelation(m[k])
    ensures Finish(naming, m).Err?
  {
    StringKeys(m.Keys);
    var keys := SortedKeys(LessEq, m.Keys);
    var rels := Pick(m, keys);
    assert k in keys;
    var i :| 0 <= i < |keys| && keys[i] == k;
    var claims := Claims(naming, rels);
    if MergeCheck(claims, |rels|).Ok? {
      CheckMeans(claims, |rels|);
    }
  }

  /** The list files an invalid relation under the key of its i-th one. */
  lemma {:induction false} ConflictFails(naming: Naming, physical: seq<Relation>, logical: seq<Relation>, k: string)
    requires exists i :: 0 <= i < |physical| && KeyOf(physical[i]) == k
    requires forall i :: 0 <= i < |physical| && KeyOf(physical[i]) == k ==> !ValidEndpoints(physical[i])
    ensures Merge(naming, physical, logical).Err?
  {
    var i :| 0 <= i < |physical| && KeyOf(physical[i]) == k;
    var j := OverwritePicks(KeyOf, physical, i);
    var base := Overwrite(KeyOf, map[], physical);
    CombineKeepsEnds(base, logical, k);
    InvalidFails(naming, MergedMap(physical, logical), k);
  }

  lemma {:induction false} ConflictInvalid(physical: seq<Relation>, i: nat, j: nat, l: nat)
    requires forall r :: r in physical ==> Physical(r)
    requires i < |physical| && j < |physical| && l < |physical| && physical[i] != physical[j]
    requires KeyOf(physical[i]) == KeyOf(physical[j]) == KeyOf(physical[l])
    ensures !ValidEndpoints(physical[l])
  {
    assert physical[i] in physical && physical[j] in physical && physical[l] in physical;
    assert "" != MANY_TO_MANY;
    if ValidEndpoints(physical[l]) {
      EndpointsForced(physical[l], physical[i]);
      EndpointsForced(physical[l], physical[j]);
    }
  }

  /**
   mergeRelations succeeds or fails alike, with one result, for every order of
   the physical relations, whatever their names, and of the logical ones.
   */
  lemma {:induction false} MergeAnyOrder(
    naming: Naming, physical: seq<Relation>, physical': seq<Relation>, logical: seq<Relation>, logical': seq<Relation>)
    requires (forall r :: r in physical ==> Physical(r)) && multiset(physical) == multiset(physical')
    requires DistinctKeys(logical) && multiset(logical) == multiset(logical')
    ensures SameOutcome(Merge(naming, physical, logical), Merge(naming, physical', logical'))
  {
    if Consistent(KeyOf, physical) {
      MergePermutation(naming, physical, physical', logical, logical');
    } else {
      var i, j :| 0 <= i < j < |physical| && KeyOf(physical[i]) == KeyOf(physical[j]) && physical[i] != physical[j];
      var k := KeyOf(physical[i]);
      forall l | 0 <= l < |physical| && KeyOf(physical[l]) == k ensures !ValidEndpoints(physical[l]) {
        ConflictInvalid(physical, i, j, l);
      }
      ConflictFails(naming, physical, logical, k);
      SameMembers(physical, physical');
      forall l | 0 <= l < |physical'| && KeyOf(physical'[l]) == k ensures !ValidEndpoints(physical'[l]) {
        assert physical'[l] in physical;
      }
      assert physical[i] in physical';
      ConflictFails(naming, physical', logical', k);
    }
  }
}
