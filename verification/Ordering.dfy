/**
 Sorting by a total order. A sorted sequence is determined by what it holds,
 so a Go sort over the keys of a map gives one result whatever order the range
 loop visited them in.
 */
module Ordering {

  ghost predicate TotalOrder<T(!new)>(le: (T, T) -> bool) {
    && (forall a, b :: le(a, b) || le(b, a))
    && (forall a, b :: le(a, b) && le(b, a) ==> a == b)
    && (forall a, b, c :: le(a, b) && le(b, c) ==> le(a, c))
  }

  ghost predicate Sorted<T>(le: (T, T) -> bool, s: seq<T>) {
    forall i, j :: 0 <= i < j < |s| ==> le(s[i], s[j])
  }

  function InsertSorted<T>(le: (T, T) -> bool, x: T, s: seq<T>): (r: seq<T>)
    ensures multiset(r) == multiset(s) + multiset{x}
  {
    if s == [] then [x]
    else if le(x, s[0]) then [x] + s
    else
      assert s == [s[0]] + s[1..];
      [s[0]] + InsertSorted(le, x, s[1..])
  }

  /** The library sort: any correct sort computes this, by SortUnique. */
  function SortBy<T>(le: (T, T) -> bool, s: seq<T>): (r: seq<T>)
    ensures multiset(r) == multiset(s)
  {
    if s == [] then []
    else
      assert s == [s[0]] + s[1..];
      InsertSorted(le, s[0], SortBy(le, s[1..]))
  }

  lemma {:induction false} InsertKeepsSorted<T(!new)>(le: (T, T) -> bool, x: T, s: seq<T>)
    requires TotalOrder(le) && Sorted(le, s)
    ensures Sorted(le, InsertSorted(le, x, s))
  {
    if s != [] && !le(x, s[0]) {
      InsertKeepsSorted(le, x, s[1..]);
      var t := InsertSorted(le, x, s[1..]);
      forall j | 0 <= j < |t| ensures le(s[0], t[j]) {
        assert t[j] in multiset(t);
        if t[j] != x {
          assert t[j] in multiset(s[1..]);
          assert t[j] in s[1..];
        }
      }
    }
  }

  lemma {:induction false} SortBySorted<T(!new)>(le: (T, T) -> bool, s: seq<T>)
    requires TotalOrder(le)
    ensures Sorted(le, SortBy(le, s))
  {
    if s != [] {
      SortBySorted(le, s[1..]);
      InsertKeepsSorted(le, s[0], SortBy(le, s[1..]));
    }
  }

  lemma {:induction false} SortedHead<T(!new)>(le: (T, T) -> bool, s: seq<T>, x: T)
    requires TotalOrder(le) && Sorted(le, s) && x in s
    ensures le(s[0], x)
  {
  }

  /** A sorted sequence is determined by what it holds. */
  lemma {:induction false} SortUnique<T(!new)>(le: (T, T) -> bool, s: seq<T>, t: seq<T>)
    requires TotalOrder(le) && Sorted(le, s) && Sorted(le, t) && multiset(s) == multiset(t)
    ensures s == t
  {
    assert |s| == |multiset(s)| == |multiset(t)| == |t|;
    if s != [] {
      assert s[0] == t[0] by {
        assert s[0] in multiset(t) && t[0] in multiset(s);
        SortedHead(le, s, t[0]);
        SortedHead(le, t, s[0]);
      }
      assert multiset(s[1..]) == multiset(t[1..]) by {
        assert s == [s[0]] + s[1..] && t == [t[0]] + t[1..];
        assert multiset(s[1..]) == multiset(s) - multiset{s[0]};
        assert multiset(t[1..]) == multiset(t) - multiset{t[0]};
      }
      SortUnique(le, s[1..], t[1..]);
      assert s == [s[0]] + s[1..] && t == [t[0]] + t[1..];
    }
  }

  // ---- the members of a set in ascending order ----

  ghost predicate IsLeast<T>(le: (T, T) -> bool, least: T, keys: set<T>) {
    least in keys && forall k :: k in keys ==> le(least, k)
  }

  lemma {:induction false} LeastExists<T(!new)>(le: (T, T) -> bool, keys: set<T>)
    requires TotalOrder(le) && keys != {}
    ensures exists least :: IsLeast(le, least, keys)
  {
    var x :| x in keys;
    var rest := keys - {x};
    if rest == {} {
      forall k | k in keys ensures k == x { assert k !in rest; }
      assert IsLeast(le, x, keys);
    } else {
      LeastExists(le, rest);
      var y :| IsLeast(le, y, rest);
      assert IsLeast(le, if le(x, y) then x else y, keys);
    }
  }

  /** By repeatedly taking a least member; see AscendingKeys for when this lists them all. */
  ghost function SortedKeys<T(!new)>(le: (T, T) -> bool, keys: set<T>): (r: seq<T>) {
    if exists least :: IsLeast(le, least, keys) then
      var least :| IsLeast(le, least, keys);
      [least] + SortedKeys(le, keys - {least})
    else []
  }

  ghost predicate Ascending<T(!new)>(le: (T, T) -> bool, r: seq<T>, keys: set<T>) {
    && multiset(r) == multiset(keys)
    && Sorted(le, r)
    && (forall k :: k in r <==> k in keys)
    && (forall i, j :: 0 <= i < j < |r| ==> r[i] != r[j])
  }

  lemma {:induction false} AscendingKeys<T(!new)>(le: (T, T) -> bool, keys: set<T>)
    requires TotalOrder(le)
    ensures Ascending(le, SortedKeys(le, keys), keys)
  {
    if keys != {} {
      LeastExists(le, keys);
      var r := SortedKeys(le, keys);
      var least := r[0];
      assert IsLeast(le, least, keys);
      AscendingKeys(le, keys - {least});
      assert r[1..] == SortedKeys(le, keys - {least});
      LeastFirst(le, least, r[1..], keys);
      assert r == [least] + r[1..];
    }
  }

  lemma {:induction false} LeastFirst<T(!new)>(le: (T, T) -> bool, least: T, r: seq<T>, keys: set<T>)
    requires IsLeast(le, least, keys) && Ascending(le, r, keys - {least})
    ensures Ascending(le, [least] + r, keys)
  {
    assert multiset(keys) == multiset(keys - {least}) + multiset{least};
    forall i | 0 <= i < |r| ensures le(least, r[i]) && r[i] != least {
      assert r[i] in r;
    }
  }

  /** A key above all others comes last. */
  lemma {:induction false} SortedKeysSnoc<T(!new)>(le: (T, T) -> bool, keys: set<T>, x: T)
    requires TotalOrder(le) && x !in keys && forall t :: t in keys ==> le(t, x)
    ensures SortedKeys(le, keys + {x}) == SortedKeys(le, keys) + [x]
  {
    AscendingKeys(le, keys);
    AscendingKeys(le, keys + {x});
    var s := SortedKeys(le, keys);
    forall i | 0 <= i < |s| ensures le(s[i], x) { assert s[i] in s; }
    assert multiset(keys + {x}) == multiset(keys) + multiset{x};
    SortUnique(le, SortedKeys(le, keys + {x}), s + [x]);
  }

  // ---- repeats in a sorted list ----

  function Fold<A, B>(f: (B, A) -> B, init: B, s: seq<A>): B {
    if s == [] then init else f(Fold(f, init, s[..|s| - 1]), s[|s| - 1])
  }

  lemma {:induction false} FoldSnoc<A, B>(f: (B, A) -> B, init: B, s: seq<A>, x: A)
    ensures Fold(f, init, s + [x]) == f(Fold(f, init, s), x)
  {
    assert (s + [x])[..|s|] == s;
  }

  function Elements<T>(s: seq<T>): set<T> { set x | x in s }

  /** The last of a sorted list, when it is not repeated, is above all others. */
  lemma {:induction false} LastIsNew<T(!new)>(le: (T, T) -> bool, s: seq<T>)
    requires TotalOrder(le) && Sorted(le, s) && s != []
    requires |s| > 1 ==> s[|s| - 2] != s[|s| - 1]
    ensures var n := |s| - 1; s[n] !in s[..n] && forall t :: t in s[..n] ==> le(t, s[n])
  {
    var n := |s| - 1;
    forall i | 0 <= i < n ensures s[i] != s[n] {
      if i < n - 1 {
        assert le(s[i], s[n - 1]) && le(s[n - 1], s[n]);
      }
    }
  }

  /** Folding a step that may be repeated without effect only sees the set of a sorted list. */
  lemma {:induction false} RepeatsIrrelevant<T(!new), B(!new)>(le: (T, T) -> bool, f: (B, T) -> B, init: B, s: seq<T>)
    requires TotalOrder(le) && Sorted(le, s) && forall b, x :: f(f(b, x), x) == f(b, x)
    ensures Fold(f, init, s) == Fold(f, init, SortedKeys(le, Elements(s)))
  {
    if s == [] {
      AscendingKeys(le, Elements(s));
      assert |SortedKeys(le, Elements(s))| == |multiset(Elements(s))| == 0;
    } else {
      var n := |s| - 1;
      var rest, x := s[..n], s[n];
      RepeatsIrrelevant(le, f, init, rest);
      assert s == rest + [x];
      if n > 0 && s[n - 1] == x {
        assert Elements(s) == Elements(rest);
        assert rest == rest[..n - 1] + [x];
        FoldSnoc(f, init, rest[..n - 1], x);
      } else {
        LastIsNew(le, s);
        assert Elements(s) == Elements(rest) + {x};
        SortedKeysSnoc(le, Elements(rest), x);
        FoldSnoc(f, init, SortedKeys(le, Elements(rest)), x);
      }
    }
  }

  /** Collect the keys of a Go map in whatever order a range loop visits them, then sort. */
  method CollectSorted<T(!new, ==)>(le: (T, T) -> bool, keys: set<T>) returns (r: seq<T>)
    requires TotalOrder(le)
    ensures r == SortedKeys(le, keys)
  {
    var pending := keys;
    var visited := [];
    while pending != {}
      invariant multiset(visited) + multiset(pending) == multiset(keys)
      decreases pending
    {
      var k :| k in pending;
      assert multiset(pending) == multiset(pending - {k}) + multiset{k};
      pending := pending - {k};
      visited := visited + [k];
    }
    r := SortBy(le, visited);
    SortBySorted(le, visited);
    AscendingKeys(le, keys);
    SortUnique(le, r, SortedKeys(le, keys));
  }
}
