/** Reorderings of sequences, said with multisets. */
module Permutations {

  function Without<T>(s: seq<T>, i: nat): (r: seq<T>)
    requires i < |s|
    ensures |r| == |s| - 1
    ensures forall k :: 0 <= k < |r| ==> r[k] == if k < i then s[k] else s[k + 1]
    ensures multiset(s) == multiset(r) + multiset{s[i]}
  {
    assert s == s[..i] + [s[i]] + s[i + 1..];
    s[..i] + s[i + 1..]
  }

  /** Mapping a function over two orders of the same items gives two orders of the same images. */
  lemma {:induction false} MapPermutation<T, U>(f: T -> U, s: seq<T>, t: seq<T>, fs: seq<U>, ft: seq<U>)
    requires multiset(s) == multiset(t)
    requires |fs| == |s| && forall i :: 0 <= i < |s| ==> fs[i] == f(s[i])
    requires |ft| == |t| && forall i :: 0 <= i < |t| ==> ft[i] == f(t[i])
    ensures multiset(fs) == multiset(ft)
  {
    SameLength(s, t);
    if s != [] {
      var n := |s| - 1;
      var j := LastMatched(s, t);
      MapPermutation(f, s[..n], Without(t, j), fs[..n], Without(ft, j));
      assert fs == fs[..n] + [fs[n]];
    }
  }

  /** A two-element list has two orders. */
  lemma {:induction false} TwoOrders<T>(s: seq<T>, t: seq<T>)
    requires multiset(s) == multiset(t) && |s| == 2
    ensures t == s || t == [s[1], s[0]]
  {
    assert |t| == |multiset(t)| == 2;
    assert s == [s[0], s[1]] && t == [t[0], t[1]];
    assert t[0] in multiset(s);
    assert multiset(s) == multiset{s[0], s[1]} && multiset(t) == multiset{t[0], t[1]};
    if t[0] == s[0] {
      assert multiset(t) - multiset{t[0]} == multiset{t[1]};
      assert multiset(s) - multiset{t[0]} == multiset{s[1]};
      assert t[1] in multiset{s[1]};
    } else {
      assert t[0] == s[1];
      assert multiset(t) - multiset{t[0]} == multiset{t[1]};
      assert multiset(s) - multiset{t[0]} == multiset{s[0]};
      assert t[1] in multiset{s[0]};
    }
  }

  lemma {:induction false} SameLength<T>(s: seq<T>, t: seq<T>)
    requires multiset(s) == multiset(t)
    ensures |s| == |t|
  {
    assert |s| == |multiset(s)| == |multiset(t)| == |t|;
  }

  /** What f gives for the items, all together. */
  ghost function Total<K, T>(f: K -> multiset<T>, s: seq<K>): multiset<T> {
    if s == [] then multiset{} else Total(f, s[..|s| - 1]) + f(s[|s| - 1])
  }

  lemma {:induction false} TotalPermutation<K, T>(f: K -> multiset<T>, s: seq<K>, t: seq<K>)
    requires multiset(s) == multiset(t)
    ensures Total(f, s) == Total(f, t)
  {
    SameLength(s, t);
    if s != [] {
      var n := |s| - 1;
      var j := LastMatched(s, t);
      TotalPermutation(f, s[..n], Without(t, j));
      TotalWithout(f, t, j);
    }
  }

  /** The last item of one order, found in the other and taken out of both. */
  lemma {:induction false} LastMatched<K>(s: seq<K>, t: seq<K>) returns (j: nat)
    requires multiset(s) == multiset(t) && s != []
    ensures j < |t| && t[j] == s[|s| - 1]
    ensures multiset(s[..|s| - 1]) == multiset(Without(t, j))
  {
    var n := |s| - 1;
    assert s[n] in multiset(t);
    j :| 0 <= j < |t| && t[j] == s[n];
    assert s == s[..n] + [s[n]];
    assert multiset(s[..n]) == multiset(s) - multiset{s[n]} && multiset(Without(t, j)) == multiset(t) - multiset{s[n]};
  }

  lemma {:induction false} TotalWithout<K, T>(f: K -> multiset<T>, t: seq<K>, j: nat)
    requires j < |t|
    ensures Total(f, t) == Total(f, Without(t, j)) + f(t[j])
  {
    var n := |t| - 1;
    var r := Without(t, j);
    if j == n {
      assert r == t[..n];
    } else {
      TotalWithout(f, t[..n], j);
      WithoutEarlier(t, j);
      TotalLast(f, t);
      TotalLast(f, r);
    }
  }

  lemma {:induction false} TotalLast<K, T>(f: K -> multiset<T>, s: seq<K>)
    requires s != []
    ensures Total(f, s) == Total(f, s[..|s| - 1]) + f(s[|s| - 1])
  {
  }

  /** Taking out an earlier item leaves the last in place. */
  lemma {:induction false} WithoutEarlier<K>(t: seq<K>, j: nat)
    requires j < |t| - 1
    ensures var r := Without(t, j);
      r[..|r| - 1] == Without(t[..|t| - 1], j) && r[|r| - 1] == t[|t| - 1] && t[..|t| - 1][j] == t[j]
  {
  }
}
