/**
 One event's subscriber list (pkg/event/bus.go): a slice that is appended to,
 re-sorted and spliced in place.
 */
module Subscribers {

  /** A registration; `id` stands for the identity the unsubscribe closure compares. */
  datatype Subscriber = Subscriber(id: nat, async: bool, priority: int)

  /** The zero value of HandlerPriority (pkg/event/event.go). */
  const PRIORITY_LOW := 0

  // ---- what a stable descending sort is ----

  ghost predicate Descending(s: seq<Subscriber>) {
    forall i, j :: 0 <= i < j < |s| ==> s[i].priority >= s[j].priority
  }

  /** The elements of priority p, in order. */
  ghost function Level(s: seq<Subscriber>, p: int): seq<Subscriber> {
    if s == [] then []
    else if s[|s| - 1].priority == p then Level(s[..|s| - 1], p) + [s[|s| - 1]]
    else Level(s[..|s| - 1], p)
  }

  ghost predicate SameLevels(s: seq<Subscriber>, t: seq<Subscriber>) {
    forall p :: Level(s, p) == Level(t, p)
  }

  /** `sorted` is `s` in descending priority, equal priorities in the order of `s`. */
  ghost predicate IsStableSort(s: seq<Subscriber>, sorted: seq<Subscriber>) {
    Descending(sorted) && SameLevels(s, sorted)
  }

  lemma {:induction false} LevelAppend(s: seq<Subscriber>, t: seq<Subscriber>, p: int)
    ensures Level(s + t, p) == Level(s, p) + Level(t, p)
  {
    if t == [] {
      assert s + t == s;
    } else {
      var n := |t| - 1;
      LevelAppend(s, t[..n], p);
      assert (s + t)[..|s + t| - 1] == s + t[..n];
    }
  }

  lemma {:induction false} LevelMembers(s: seq<Subscriber>, p: int)
    ensures forall x :: x in Level(s, p) <==> x in s && x.priority == p
  {
    if s != [] {
      LevelMembers(s[..|s| - 1], p);
      assert s == s[..|s| - 1] + [s[|s| - 1]];
    }
  }

  /** The definition leaves no choice: two stable sorts of one list are equal. */
  lemma {:induction false} StableSortUnique(a: seq<Subscriber>, b: seq<Subscriber>)
    requires Descending(a) && Descending(b) && SameLevels(a, b)
    ensures a == b
  {
    StableSortMembers(a, b);
    assert |a| == |multiset(a)| && |b| == |multiset(b)|;
    if a != [] {
      var m, n := |a| - 1, |b| - 1;
      LastIsLeast(a, b);
      LastIsLeast(b, a);
      ShorterLevels(a, b);
      StableSortUnique(a[..m], b[..n]);
      assert a == a[..m] + [a[m]] && b == b[..n] + [b[n]];
    }
  }

  /** Lists with equal levels whose last elements have one priority end alike. */
  lemma {:induction false} ShorterLevels(a: seq<Subscriber>, b: seq<Subscriber>)
    requires a != [] && b != [] && SameLevels(a, b) && a[|a| - 1].priority == b[|b| - 1].priority
    ensures a[|a| - 1] == b[|b| - 1] && SameLevels(a[..|a| - 1], b[..|b| - 1])
  {
    var m, n := |a| - 1, |b| - 1;
    var q := a[m].priority;
    assert Level(a, q) == Level(b, q);
    SameEnds(Level(a[..m], q), a[m], Level(b[..n], q), b[n]);
    forall p ensures Level(a[..m], p) == Level(b[..n], p) {
      assert Level(a, p) == Level(b, p);
    }
  }

  lemma {:induction false} SameEnds(s: seq<Subscriber>, x: Subscriber, t: seq<Subscriber>, y: Subscriber)
    requires s + [x] == t + [y]
    ensures s == t && x == y
  {
    assert s == (s + [x])[..|s|] && t == (t + [y])[..|t|];
    assert x == (s + [x])[|s|] && y == (t + [y])[|t|];
  }

  lemma {:induction false} LastIsLeast(a: seq<Subscriber>, b: seq<Subscriber>)
    requires Descending(a) && Descending(b) && SameLevels(a, b) && a != [] && b != []
    ensures a[|a| - 1].priority >= b[|b| - 1].priority
  {
    var x := a[|a| - 1];
    LevelMembers(a, x.priority);
    LevelMembers(b, x.priority);
    assert Level(a, x.priority) == Level(b, x.priority);
    assert x in b;
  }

  /** A stable sort is a permutation. */
  lemma {:induction false} StableSortMembers(s: seq<Subscriber>, sorted: seq<Subscriber>)
    requires SameLevels(s, sorted)
    ensures forall x :: x in s <==> x in sorted
    ensures multiset(s) == multiset(sorted)
  {
    forall x ensures multiset(s)[x] == multiset(sorted)[x] {
      LevelCount(s, x);
      LevelCount(sorted, x);
      assert Level(s, x.priority) == Level(sorted, x.priority);
    }
    forall x ensures x in s <==> x in sorted {
      assert x in s <==> multiset(s)[x] > 0;
      assert x in sorted <==> multiset(sorted)[x] > 0;
    }
  }

  lemma {:induction false} LevelCount(s: seq<Subscriber>, x: Subscriber)
    ensures multiset(Level(s, x.priority))[x] == multiset(s)[x]
  {
    if s != [] {
      LevelCount(s[..|s| - 1], x);
      assert s == s[..|s| - 1] + [s[|s| - 1]];
    }
  }

  // ---- edits commute with the sort ----

  /** Sorting a sorted list with one more element sorts the registrations with one more. */
  lemma {:induction false} SubscribeSorts(
    live: seq<Subscriber>, list: seq<Subscriber>, x: Subscriber, sorted: seq<Subscriber>)
    requires IsStableSort(live, list) && IsStableSort(list + [x], sorted)
    ensures IsStableSort(live + [x], sorted)
  {
    forall p ensures Level(live + [x], p) == Level(sorted, p) {
      LevelAppend(live, [x], p);
      LevelAppend(list, [x], p);
      assert Level(live, p) == Level(list, p);
      assert Level(list + [x], p) == Level(sorted, p);
    }
  }

  /** The list without the registration `id`. */
  function Without(s: seq<Subscriber>, id: nat): seq<Subscriber> {
    if s == [] then []
    else if s[|s| - 1].id == id then Without(s[..|s| - 1], id)
    else Without(s[..|s| - 1], id) + [s[|s| - 1]]
  }

  lemma {:induction false} WithoutMembers(s: seq<Subscriber>, id: nat)
    ensures |Without(s, id)| <= |s|
    ensures forall x :: x in Without(s, id) <==> x in s && x.id != id
  {
    if s != [] {
      WithoutMembers(s[..|s| - 1], id);
      assert s == s[..|s| - 1] + [s[|s| - 1]];
    }
  }

  lemma {:induction false} WithoutAbsent(s: seq<Subscriber>, id: nat)
    requires forall x <- s :: x.id != id
    ensures Without(s, id) == s
  {
    if s != [] {
      WithoutAbsent(s[..|s| - 1], id);
    }
  }

  lemma {:induction false} WithoutLast(s: seq<Subscriber>, id: nat)
    requires s != []
    ensures Without(s, id) == Without(s[..|s| - 1], id) + if s[|s| - 1].id == id then [] else [s[|s| - 1]]
  {
  }

  lemma {:induction false} WithoutAppend(s: seq<Subscriber>, t: seq<Subscriber>, id: nat)
    ensures Without(s + t, id) == Without(s, id) + Without(t, id)
  {
    if t == [] {
      assert s + t == s;
    } else {
      var n := |t| - 1;
      WithoutAppend(s, t[..n], id);
      assert (s + t)[..|s| + n] == s + t[..n] && (s + t)[|s| + n] == t[n];
      WithoutLast(s + t, id);
      WithoutLast(t, id);
    }
  }

  lemma {:induction false} LevelWithout(s: seq<Subscriber>, id: nat, p: int)
    ensures Level(Without(s, id), p) == Without(Level(s, p), id)
  {
    if s != [] {
      var n := |s| - 1;
      LevelWithout(s[..n], id, p);
      LevelAppend(Without(s[..n], id), [s[n]], p);
      WithoutAppend(Level(s[..n], p), [s[n]], id);
    }
  }

  lemma {:induction false} WithoutDescending(s: seq<Subscriber>, id: nat)
    requires Descending(s)
    ensures Descending(Without(s, id))
  {
    if s != [] {
      WithoutMembers(s[..|s| - 1], id);
      WithoutDescending(s[..|s| - 1], id);
    }
  }

  /** Removing from a sorted list sorts the registrations that remain. */
  lemma {:induction false} RemoveSorts(live: seq<Subscriber>, list: seq<Subscriber>, id: nat)
    requires IsStableSort(live, list)
    ensures IsStableSort(Without(live, id), Without(list, id))
  {
    WithoutDescending(list, id);
    forall p ensures Level(Without(live, id), p) == Level(Without(list, id), p) {
      LevelWithout(live, id, p);
      LevelWithout(list, id, p);
      assert Level(live, p) == Level(list, p);
    }
  }

  /** Splicing out the position of `id` is removing it, when ids are distinct. */
  lemma {:induction false} SpliceIsWithout(s: seq<Subscriber>, i: nat)
    requires i < |s| && DistinctIds(s)
    ensures s[..i] + s[i + 1..] == Without(s, s[i].id)
  {
    assert s == s[..i] + [s[i]] + s[i + 1..];
    WithoutAppend(s[..i] + [s[i]], s[i + 1..], s[i].id);
    WithoutAppend(s[..i], [s[i]], s[i].id);
    WithoutAbsent(s[..i], s[i].id);
    WithoutAbsent(s[i + 1..], s[i].id);
  }

  ghost predicate DistinctIds(s: seq<Subscriber>) {
    forall i, j :: 0 <= i < j < |s| ==> s[i].id != s[j].id
  }

  // ---- the slice ----

  lemma {:induction false} SwapKeepsLevels(s: seq<Subscriber>, j: nat)
    requires 0 < j < |s| && s[j - 1].priority != s[j].priority
    ensures SameLevels(s[j - 1 := s[j]][j := s[j - 1]], s)
  {
    var t := s[j - 1 := s[j]][j := s[j - 1]];
    forall p ensures Level(t, p) == Level(s, p) {
      var pre, post := s[..j - 1], s[j + 1..];
      assert s == pre + [s[j - 1], s[j]] + post && t == pre + [s[j], s[j - 1]] + post;
      LevelAppend(pre + [s[j - 1], s[j]], post, p);
      LevelAppend(pre + [s[j], s[j - 1]], post, p);
      LevelAppend(pre, [s[j - 1], s[j]], p);
      LevelAppend(pre, [s[j], s[j - 1]], p);
      LevelPair(s[j - 1], s[j], p);
      LevelPair(s[j], s[j - 1], p);
    }
  }

  lemma {:induction false} LevelPair(x: Subscriber, y: Subscriber, p: int)
    ensures Level([x, y], p) == (if x.priority == p then [x] else []) + (if y.priority == p then [y] else [])
  {
    assert [x][..0] == [];
    assert Level([x], p) == if x.priority == p then [x] else [];
    assert [x, y][..1] == [x];
  }

  /** A Go slice: the first `len` elements of a backing array that may have room for more. */
  datatype Slice = Slice(buf: array<Subscriber>, len: nat) {
    ghost predicate Valid() { len <= buf.Length }

    ghost function Elems(): seq<Subscriber>
      requires Valid()
      reads buf
    {
      buf[..len]
    }
  }

  method EmptySlice() returns (r: Slice)
    ensures r.Valid() && r.Elems() == [] && fresh(r.buf)
  {
    var buf := new Subscriber[0];
    r := Slice(buf, 0);
  }

  /** Go's append of one element: in place when there is room, else into a larger copy. */
  method Append(s: Slice, x: Subscriber) returns (r: Slice)
    requires s.Valid()
    modifies s.buf
    ensures r.Valid() && r.Elems() == old(s.Elems()) + [x]
    ensures r.buf == s.buf || fresh(r.buf)
  {
    if s.len == s.buf.Length {
      var bigger := new Subscriber[2 * s.len +
          1](i requires 0 <= i reads s.buf => if i < s.buf.Length then s.buf[i] else x);
      r := Slice(bigger, s.len + 1);
    } else {
      s.buf[s.len] := x;
      r := Slice(s.buf, s.len + 1);
    }
    assert r.buf[..r.len] == old(s.buf[..s.len]) + [x];
  }

  /** Moves element i down past every element of lower priority. */
  method Sink(buf: array<Subscriber>, i: nat)
    requires i < buf.Length && Descending(buf[..i])
    modifies buf
    ensures Descending(buf[..i + 1]) && buf[i + 1..] == old(buf[i + 1..])
    ensures SameLevels(old(buf[..i + 1]), buf[..i + 1])
  {
    var j := i;
    while j > 0 && buf[j].priority > buf[j - 1].priority
      invariant 0 <= j <= i
      invariant forall a, b :: 0 <= a < b <= i && b != j ==> buf[a].priority >= buf[b].priority
      invariant SameLevels(old(buf[..i + 1]), buf[..i + 1])
      invariant buf[i + 1..] == old(buf[i + 1..])
    {
      ghost var before := buf[..i + 1];
      buf[j], buf[j - 1] := buf[j - 1], buf[j];
      assert buf[..i + 1] == before[j - 1 := before[j]][j := before[j - 1]];
      SwapKeepsLevels(before, j);
      j := j - 1;
    }
  }

  /** sort.SliceStable by descending priority, in place. */
  method SortStable(s: Slice)
    requires s.Valid()
    modifies s.buf
    ensures IsStableSort(old(s.Elems()), s.Elems())
  {
    var i := 0;
    while i < s.len
      invariant 0 <= i <= s.len
      invariant Descending(s.buf[..i]) && SameLevels(old(s.buf[..i]), s.buf[..i])
      invariant s.buf[i..] == old(s.buf[i..])
    {
      ghost var before := s.buf[..];
      assert before[i..] == old(s.buf[i..]);
      assert before[i] == old(s.buf[i]) && before[i + 1..] == old(s.buf[i + 1..]);
      SameLevelsAppend(old(s.buf[..i]), before[..i], before[i]);
      assert old(s.buf[..i + 1]) == old(s.buf[..i]) + [before[i]];
      assert before[..i + 1] == before[..i] + [before[i]];
      Sink(s.buf, i);
      i := i + 1;
    }
  }

  lemma {:induction false} SameLevelsAppend(s: seq<Subscriber>, t: seq<Subscriber>, x: Subscriber)
    requires SameLevels(s, t)
    ensures SameLevels(s + [x], t + [x])
  {
    forall p ensures Level(s + [x], p) == Level(t + [x], p) {
      LevelAppend(s, [x], p);
      LevelAppend(t, [x], p);
      assert Level(s, p) == Level(t, p);
    }
  }

  /** Subscribe's two edits of the slice. */
  method Insert(s: Slice, x: Subscriber) returns (r: Slice)
    requires s.Valid()
    modifies s.buf
    ensures r.Valid() && (r.buf == s.buf || fresh(r.buf))
    ensures IsStableSort(old(s.Elems()) + [x], r.Elems())
  {
    r := Append(s, x);
    SortStable(r);
  }

  /** append(s[:i], s[i+1:]...): shifts the elements after position i down by one, in place. */
  method Splice(s: Slice, i: nat) returns (r: Slice)
    requires s.Valid() && i < s.len
    modifies s.buf
    ensures r.Valid() && r.buf == s.buf && r.Elems() == old(s.Elems())[..i] + old(s.Elems())[i + 1..]
  {
    ghost var start := s.buf[..s.len];
    var k := i + 1;
    while k < s.len
      invariant i + 1 <= k <= s.len
      invariant s.buf[..k - 1] == start[..i] + start[i + 1..k]
      invariant forall m :: k <= m < s.len ==> s.buf[m] == start[m]
    {
      s.buf[k - 1] := s.buf[k];
      k := k + 1;
      assert start[i + 1..k] == start[i + 1..k - 1] + [start[k - 1]];
    }
    r := Slice(s.buf, s.len - 1);
    assert start[i + 1..k] == start[i + 1..];
    assert r.Elems() == s.buf[..k - 1];
  }

  /** The unsubscribe closure's loop: the entry that is this registration goes. */
  method Remove(s: Slice, id: nat) returns (r: Slice)
    requires s.Valid() && DistinctIds(s.Elems())
    modifies s.buf
    ensures r.Valid() && r.buf == s.buf && r.Elems() == Without(old(s.Elems()), id)
  {
    var i := 0;
    while i < s.len
      invariant 0 <= i <= s.len
      invariant forall m :: 0 <= m < i ==> s.buf[m].id != id
    {
      if s.buf[i].id == id {
        SpliceIsWithout(s.buf[..s.len], i);
        r := Splice(s, i);
        return;
      }
      i := i + 1;
    }
    WithoutAbsent(s.buf[..s.len], id);
    r := s;
  }
}
