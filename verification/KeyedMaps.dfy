/**
 Filing items in a map under a string key, as mergeRelations does twice: once
 overwriting, once combining with what is already there. When the keys of the
 items are distinct, the order in which they arrive does not matter.
 */
module KeyedMaps {

  predicate Distinct<T>(key: T -> string, items: seq<T>) {
    forall i, j :: 0 <= i < j < |items| ==> key(items[i]) != key(items[j])
  }

  function Overwrite<T>(key: T -> string, m: map<string, T>, items: seq<T>): (r: map<string, T>) {
    if items == [] then m
    else
      var last := items[|items| - 1];
      Overwrite(key, m, items[..|items| - 1])[key(last) := last]
  }

  function Combine<T>(key: T -> string, over: (T, T) -> T, m: map<string, T>, items: seq<T>): (r: map<string, T>) {
    if items == [] then m
    else
      var last := items[|items| - 1];
      var before := Combine(key, over, m, items[..|items| - 1]);
      var k := key(last);
      before[k := if k in before then over(before[k], last) else last]
  }

  // ---- reordering ----

  lemma {:induction false} RepeatedTwice<T>(s: seq<T>, i: nat, j: nat)
    requires i < j < |s| && s[i] == s[j]
    ensures multiset(s)[s[i]] >= 2
  {
    assert s == s[..j] + [s[j]] + s[j + 1..];
    assert s[i] in s[..j];
  }

  lemma {:induction false} DistinctOnce<T>(key: T -> string, s: seq<T>, x: T)
    requires Distinct(key, s)
    ensures multiset(s)[x] <= 1
  {
    if s != [] {
      var n := |s| - 1;
      assert s == s[..n] + [s[n]];
      DistinctOnce(key, s[..n], x);
      assert s[n] !in s[..n] by {
        forall i | 0 <= i < n ensures s[i] != s[n] { assert key(s[i]) != key(s[n]); }
      }
    }
  }

  /** Distinct keys survive any reordering. */
  lemma {:induction false} PermutedDistinct<T>(key: T -> string, s: seq<T>, t: seq<T>)
    requires Distinct(key, s) && multiset(s) == multiset(t)
    ensures Distinct(key, t)
  {
    forall i, j | 0 <= i < j < |t| ensures key(t[i]) != key(t[j]) {
      assert t[i] in multiset(s) && t[j] in multiset(s);
      assert t[i] != t[j] by {
        DistinctOnce(key, s, t[i]);
        if t[i] == t[j] { RepeatedTwice(t, i, j); }
      }
      var a :| 0 <= a < |s| && s[a] == t[i];
      var b :| 0 <= b < |s| && s[b] == t[j];
      assert a < b || b < a;
    }
  }

  lemma {:induction false} SameMembers<T>(s: seq<T>, t: seq<T>)
    requires multiset(s) == multiset(t)
    ensures forall x :: x in s <==> x in t
  {
    forall x | x in s || x in t ensures x in s && x in t {
      assert x in multiset(s) <==> x in s;
      assert x in multiset(t) <==> x in t;
    }
  }

  lemma {:induction false} DistinctLast<T>(key: T -> string, items: seq<T>, x: T)
    requires Distinct(key, items) && items != []
    requires x in items[..|items| - 1]
    ensures key(x) != key(items[|items| - 1])
  {
    var i :| 0 <= i < |items| - 1 && items[i] == x;
  }

  // ---- what the folds compute ----

  function KeySet<T>(key: T -> string, items: seq<T>): (keys: set<string>) {
    set i | 0 <= i < |items| :: key(items[i])
  }

  lemma {:induction false} KeySetMember<T>(key: T -> string, items: seq<T>, x: T)
    requires x in items
    ensures key(x) in KeySet(key, items)
  {
    var i :| 0 <= i < |items| && items[i] == x;
  }

  function AddedAt<T>(key: T -> string, over: (T, T) -> T, m: map<string, T>, x: T): T {
    if key(x) in m then over(m[key(x)], x) else x
  }

  /** The outcome of Combine on distinct keys, said without order. */
  ghost predicate IsAdded<T>(
    key: T -> string, over: (T, T) -> T, m: map<string, T>, items: seq<T>, after: map<string, T>) {
    && after.Keys == m.Keys + KeySet(key, items)
    && (forall x :: x in items ==> key(x) in after && after[key(x)] == AddedAt(key, over, m, x))
    && (forall k :: k in m && k !in KeySet(key, items) ==> k in after && after[k] == m[k])
  }

  lemma {:induction false} LastApart<T>(key: T -> string, items: seq<T>)
    requires Distinct(key, items) && items != []
    ensures var n := |items| - 1;
      forall x :: x in items ==> x == items[n] || (x in items[..n] && key(x) != key(items[n]))
  {
    var n := |items| - 1;
    assert items == items[..n] + [items[n]];
    forall x | x in items[..n] ensures key(x) != key(items[n]) { DistinctLast(key, items, x); }
  }

  lemma {:induction false} CombineAdds<T>(key: T -> string, over: (T, T) -> T, m: map<string, T>, items: seq<T>)
    requires Distinct(key, items)
    ensures IsAdded(key, over, m, items, Combine(key, over, m, items))
  {
    if items != [] {
      var n := |items| - 1;
      var rest, last := items[..n], items[n];
      CombineAdds(key, over, m, rest);
      var before := Combine(key, over, m, rest);
      KeySetLast(key, items);
      LastApart(key, items);
      assert key(last) in before <==> key(last) in m;
    }
  }

  lemma {:induction false} KeySetLast<T>(key: T -> string, items: seq<T>)
    requires Distinct(key, items) && items != []
    ensures var n := |items| - 1;
            && KeySet(key, items) == KeySet(key, items[..n]) + {key(items[n])}
            && key(items[n]) !in KeySet(key, items[..n])
  {
    var n := |items| - 1;
    forall k | k in KeySet(key, items) ensures k in KeySet(key, items[..n]) + {key(items[n])} {
      var i :| 0 <= i < |items| && key(items[i]) == k;
      if i < n { assert items[..n][i] == items[i]; }
    }
    forall k | k in KeySet(key, items[..n]) ensures k in KeySet(key, items) {
      var i :| 0 <= i < n && key(items[..n][i]) == k;
      assert items[..n][i] == items[i];
    }
  }

  lemma {:induction false} AddedUnique<T>(key: T -> string, over: (T, T) -> T, m: map<string, T>, s: seq<T>, t: seq<T>,
                       a: map<string, T>, b: map<string, T>)
    requires IsAdded(key, over, m, s, a) && IsAdded(key, over, m, t, b)
    requires forall x :: x in s <==> x in t
    ensures a == b
  {
    assert KeySet(key, s) == KeySet(key, t) by {
      forall i | 0 <= i < |s| ensures key(s[i]) in KeySet(key, t) { KeySetMember(key, t, s[i]); }
      forall i | 0 <= i < |t| ensures key(t[i]) in KeySet(key, s) { KeySetMember(key, s, t[i]); }
    }
    forall k | k in a ensures a[k] == b[k] {
      if k in KeySet(key, s) {
        var i :| 0 <= i < |s| && key(s[i]) == k;
        assert s[i] in s && s[i] in t;
      }
    }
  }

  /** Combining items with distinct keys gives the same map in every order. */
  lemma {:induction false} CombinePermutation<T>(
    key: T -> string, over: (T, T) -> T, m: map<string, T>, s: seq<T>, t: seq<T>)
    requires Distinct(key, s) && multiset(s) == multiset(t)
    ensures Combine(key, over, m, s) == Combine(key, over, m, t)
  {
    PermutedDistinct(key, s, t);
    CombineAdds(key, over, m, s);
    CombineAdds(key, over, m, t);
    SameMembers(s, t);
    AddedUnique(key, over, m, s, t, Combine(key, over, m, s), Combine(key, over, m, t));
  }

  /** With distinct keys, starting empty, both folds agree. */
  lemma {:induction false} OverwriteIsCombine<T>(key: T -> string, over: (T, T) -> T, items: seq<T>)
    requires Distinct(key, items)
    ensures Overwrite(key, map[], items) == Combine(key, over, map[], items)
  {
    if items != [] {
      var n := |items| - 1;
      OverwriteIsCombine(key, over, items[..n]);
      CombineAdds(key, over, map[], items[..n]);
      assert key(items[n]) !in KeySet(key, items[..n]);
    }
  }

  /** Items filed under one key are the same item: repeats are allowed, conflicts are not. */
  predicate Consistent<T(==)>(key: T -> string, items: seq<T>) {
    forall i, j :: 0 <= i < j < |items| && key(items[i]) == key(items[j]) ==> items[i] == items[j]
  }

  /** The outcome of Overwrite on consistent items, said without order. */
  lemma {:induction false} OverwriteFiles<T>(key: T -> string, items: seq<T>)
    requires Consistent(key, items)
    ensures Overwrite(key, map[], items).Keys == KeySet(key, items)
    ensures forall x :: x in items ==>
        key(x) in Overwrite(key, map[], items) && Overwrite(key, map[], items)[key(x)] == x
  {
    if items != [] {
      var n := |items| - 1;
      var rest, last := items[..n], items[n];
      OverwriteFiles(key, rest);
      assert items == rest + [last];
      KeySetSnoc(key, rest, last);
      forall x | x in rest && key(x) == key(last) ensures x == last {
        var i :| 0 <= i < n && rest[i] == x;
        assert items[i] == x;
      }
    }
  }

  lemma {:induction false} KeySetSnoc<T>(key: T -> string, rest: seq<T>, last: T)
    ensures KeySet(key, rest + [last]) == KeySet(key, rest) + {key(last)}
  {
    var items := rest + [last];
    assert items[|rest|] == last;
    forall i | 0 <= i < |rest| ensures items[i] == rest[i] {
    }
  }

  /** Filing consistent items gives the same map in every order. */
  lemma {:induction false} OverwritePermutation<T>(key: T -> string, s: seq<T>, t: seq<T>)
    requires Consistent(key, s) && multiset(s) == multiset(t)
    ensures Overwrite(key, map[], s) == Overwrite(key, map[], t)
  {
    SameMembers(s, t);
    forall i, j | 0 <= i < j < |t| && key(t[i]) == key(t[j]) ensures t[i] == t[j] {
      assert t[i] in s && t[j] in s;
    }
    OverwriteFiles(key, s);
    OverwriteFiles(key, t);
    KeySetPermutation(key, s, t);
    forall k | k in Overwrite(key, map[], s) ensures Overwrite(key, map[], s)[k] == Overwrite(key, map[], t)[k] {
      var i :| 0 <= i < |s| && key(s[i]) == k;
      assert s[i] in s && s[i] in t;
    }
  }

  lemma {:induction false} CombineAppend<T>(
    key: T -> string, over: (T, T) -> T, m: map<string, T>, s: seq<T>, t: seq<T>)
    ensures Combine(key, over, m, s + t) == Combine(key, over, Combine(key, over, m, s), t)
  {
    if t == [] {
      assert s + t == s;
    } else {
      var n := |t| - 1;
      assert (s + t)[..|s| + n] == s + t[..n];
      CombineAppend(key, over, m, s, t[..n]);
    }
  }

  lemma {:induction false} KeySetPermutation<T>(key: T -> string, s: seq<T>, t: seq<T>)
    requires multiset(s) == multiset(t)
    ensures KeySet(key, s) == KeySet(key, t)
  {
    SameMembers(s, t);
    forall i | 0 <= i < |s| ensures key(s[i]) in KeySet(key, t) { KeySetMember(key, t, s[i]); }
    forall i | 0 <= i < |t| ensures key(t[i]) in KeySet(key, s) { KeySetMember(key, s, t[i]); }
  }

  /** Combining two items filed under one key keeps the property and the key. */
  ghost predicate Preserves<T(!new)>(key: T -> string, over: (T, T) -> T, p: T -> bool) {
    forall x, y {:trigger over(x, y)} :: p(x) && p(y) && key(x) == key(y) ==> p(over(x, y)) && key(over(x, y)) == key(x)
  }

  ghost predicate AllFiled<T>(key: T -> string, p: T -> bool, m: map<string, T>) {
    forall k :: k in m ==> key(m[k]) == k && p(m[k])
  }

  /** A property of all items that combining keeps holds of everything filed. */
  lemma {:induction false} CombineKeeps<T(!new)>(
    key: T -> string, over: (T, T) -> T, p: T -> bool, m: map<string, T>, items: seq<T>)
    requires AllFiled(key, p, m) && Preserves(key, over, p)
    requires forall i :: 0 <= i < |items| ==> p(items[i])
    ensures AllFiled(key, p, Combine(key, over, m, items))
  {
    if items != [] {
      CombineKeeps(key, over, p, m, items[..|items| - 1]);
    }
  }

  ghost predicate Closed<T(!new)>(over: (T, T) -> T, p: T -> bool) {
    forall x, y {:trigger over(x, y)} :: p(x) && p(y) ==> p(over(x, y))
  }

  /** A property that combining keeps whatever the keys needs no key to be stable. */
  lemma {:induction false} FiledKeeps<T(!new)>(
    key: T -> string, over: (T, T) -> T, p: T -> bool, m: map<string, T>, items: seq<T>)
    requires Closed(over, p) && forall k :: k in m ==> p(m[k])
    requires forall i :: 0 <= i < |items| ==> p(items[i])
    ensures forall k :: k in Combine(key, over, m, items) ==> p(Combine(key, over, m, items)[k])
    ensures forall k :: k in Overwrite(key, m, items) ==> p(Overwrite(key, m, items)[k])
  {
    if items != [] { FiledKeeps(key, over, p, m, items[..|items| - 1]); }
  }
}
