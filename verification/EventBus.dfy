/**
 The event bus (pkg/event/bus.go): subscriber lists by exact name and by
 pattern, edited in place under the mutex, and Publish's snapshot of them.
 */
module EventBus {
  import opened Wrappers
  import opened Subscribers
  import P = Permutations

  datatype Error = Closed | MaxSubscribers | InvalidPattern
  type BusResult<T> = Result<T, Error>

  const MAX_SUBSCRIBERS := 1000

  /** What a Subscribe call asks for; leaving options out asks for the zero value. */
  datatype Options = Options(async: bool, priority: int)

  function ResolveOptions(opts: seq<Options>): Options {
    if opts == [] then Options(false, PRIORITY_LOW) else opts[0]
  }

  /** The registrations under a name that have not been undone, oldest first. */
  type Live<K> = map<K, seq<Subscriber>>

  ghost function LiveAt<K>(live: Live<K>, name: K): seq<Subscriber> {
    if name in live then live[name] else []
  }

  lemma {:induction false} SortKeepsDistinct(s: seq<Subscriber>, t: seq<Subscriber>)
    requires SameLevels(s, t) && DistinctIds(s)
    ensures DistinctIds(t) && |t| == |s|
  {
    StableSortMembers(s, t);
    assert |s| == |multiset(s)| && |t| == |multiset(t)|;
    forall i, j | 0 <= i < j < |t| ensures t[i].id != t[j].id {
      PairCount(t, i, j);
      if t[i] == t[j] {
        OnceEach(s, t[i]);
      } else {
        assert t[i] in s && t[j] in s;
      }
    }
  }

  lemma {:induction false} PairCount(t: seq<Subscriber>, i: nat, j: nat)
    requires i < j < |t|
    ensures t[i] == t[j] ==> multiset(t)[t[i]] >= 2
  {
    assert t == t[..i] + [t[i]] + t[i + 1..j] + [t[j]] + t[j + 1..];
  }

  lemma {:induction false} OnceEach(s: seq<Subscriber>, x: Subscriber)
    requires DistinctIds(s)
    ensures multiset(s)[x] <= 1
  {
    if s != [] {
      var n := |s| - 1;
      OnceEach(s[..n], x);
      assert s == s[..n] + [s[n]];
      if x == s[n] {
        assert x !in s[..n];
      }
    }
  }

  lemma {:induction false} WithoutKeepsDistinct(s: seq<Subscriber>, id: nat)
    requires DistinctIds(s)
    ensures DistinctIds(Without(s, id))
  {
    if s != [] {
      WithoutKeepsDistinct(s[..|s| - 1], id);
      WithoutMembers(s[..|s| - 1], id);
    }
  }

  /** Every slice holds the stable descending sort of the live registrations under its name. */
  ghost predicate AllSorted<K>(live: Live<K>, slices: Live<K>) {
    && live.Keys == slices.Keys
    && forall n <- live :: DistinctIds(live[n]) && IsStableSort(live[n], slices[n])
  }

  lemma {:induction false} AddSorted<K>(live: Live<K>, slices: Live<K>, name: K, x: Subscriber, sorted: seq<Subscriber>)
    requires AllSorted(live, slices) && (forall y <- LiveAt(live, name) :: y.id != x.id)
    requires IsStableSort(LiveAt(slices, name) + [x], sorted)
    ensures AllSorted(live[name := LiveAt(live, name) + [x]], slices[name := sorted])
  {
    SubscribeSorts(LiveAt(live, name), LiveAt(slices, name), x, sorted);
  }

  lemma {:induction false} RemoveSorted<K>(live: Live<K>, slices: Live<K>, name: K, id: nat)
    requires AllSorted(live, slices) && name in live
    ensures DistinctIds(slices[name])
    ensures AllSorted(live[name := Without(live[name], id)], slices[name := Without(slices[name], id)])
  {
    SortKeepsDistinct(live[name], slices[name]);
    RemoveSorts(live[name], slices[name], id);
    WithoutKeepsDistinct(live[name], id);
  }

  /** The slices of the matching patterns, one after the other. */
  ghost function Matched<K>(slices: Live<K>, order: seq<K>, matches: K -> bool): seq<Subscriber> {
    if order == [] then []
    else
      var last := order[|order| - 1];
      Matched(slices, order[..|order| - 1], matches) + Batch(slices, last, matches)
  }

  ghost function Batch<K>(slices: Live<K>, pattern: K, matches: K -> bool): seq<Subscriber> {
    if matches(pattern) then LiveAt(slices, pattern) else []
  }

  lemma {:induction false} MatchedNext<K>(
    slices: Live<K>, order: seq<K>, matches: K -> bool, i: nat, first: seq<Subscriber>)
    requires i < |order|
    ensures first + Matched(slices, order[..i], matches) + Batch(slices, order[i], matches) ==
            first + Matched(slices, order[..i + 1], matches)
  {
    assert order[..i + 1][..i] == order[..i];
  }

  /** One of the bus's two maps from names (or patterns) to slices. */
  class Table<K(==)> {
    var lists: map<K, Slice>
    ghost var slices: Live<K>     // what each slice holds
    ghost var Repr: set<object>

    /** No two slices share storage. */
    ghost predicate Valid()
      reads this, Repr
    {
      && this in Repr
      && slices.Keys == lists.Keys
      && (forall n <- lists :: lists[n].Valid() && lists[n].buf in Repr && lists[n].Elems() == slices[n])
      && (forall m <- lists, n <- lists :: m != n ==> lists[m].buf != lists[n].buf)
    }

    constructor ()
      ensures Valid() && fresh(Repr) && slices == map[]
    {
      lists, slices := map[], map[];
      Repr := {this};
    }

    /** len of the slice under a name, zero when there is none. */
    method Count(name: K) returns (n: nat)
      requires Valid()
      ensures n == |LiveAt(slices, name)|
    {
      n := if name in lists then lists[name].len else 0;
    }

    /** As Valid, but for the slice under this name. */
    ghost predicate ValidBut(name: K)
      reads this, Repr
    {
      && this in Repr
      && slices.Keys == lists.Keys
      && (forall n <- lists :: n != name ==> lists[n].Valid() && lists[n].buf in Repr && lists[n].Elems() == slices[n])
      && (forall m <- lists, n <- lists :: m != n && m != name && n != name ==> lists[m].buf != lists[n].buf)
    }

    /** Assigns the map's entry. */
    method Put(name: K, list: Slice)
      requires ValidBut(name) && list.Valid()
      requires forall n <- lists :: n != name ==> lists[n].buf != list.buf
      modifies this
      ensures Valid() && Repr == old(Repr) + {list.buf} && slices == old(slices)[name := list.Elems()]
    {
      lists, slices := lists[name := list], slices[name := list.Elems()];
      Repr := Repr + {list.buf};
    }

    /** The slice under a name, empty when there is none. */
    method Get(name: K) returns (list: Slice)
      requires Valid()
      ensures list.Valid() && list.Elems() == LiveAt(slices, name)
      ensures if name in lists then list == lists[name] else fresh(list.buf)
    {
      if name in lists {
        list := lists[name];
      } else {
        list := EmptySlice();
      }
    }

    /** Appends and re-sorts in place; a missing name starts from the empty slice. */
    method Add(name: K, x: Subscriber)
      requires Valid()
      modifies Repr
      ensures Valid() && fresh(Repr - old(Repr)) && old(Repr) <= Repr
      ensures name in slices && slices == old(slices)[name := slices[name]]
      ensures IsStableSort(LiveAt(old(slices), name) + [x], slices[name])
    {
      var list := Get(name);
      list := Insert(list, x);
      Put(name, list);
    }

    /** Splices the registration out in place. */
    method Drop(name: K, id: nat)
      requires Valid() && name in slices && DistinctIds(slices[name])
      modifies Repr
      ensures Valid() && Repr == old(Repr)
      ensures slices == old(slices)[name := Without(old(slices)[name], id)]
    {
      var list := Remove(lists[name], id);
      lists, slices := lists[name := list], slices[name := list.Elems()];
    }

    /** append(targets, subs...): the elements are copied out of this table's storage. */
    method AppendTo(name: K, targets: Slice) returns (r: Slice)
      requires Valid() && targets.Valid() && targets.buf !in Repr
      modifies targets.buf
      ensures r.Valid() && (r.buf == targets.buf || fresh(r.buf))
      ensures r.Elems() == old(targets.Elems()) + LiveAt(slices, name)
    {
      r := targets;
      if name in lists {
        var list := lists[name];
        var i := 0;
        ghost var first, elems := targets.Elems(), slices[name];
        while i < list.len
          invariant 0 <= i <= list.len && list.buf[..list.len] == elems
          invariant r.Valid() && (r.buf == targets.buf || fresh(r.buf))
          invariant r.Elems() == first + elems[..i]
        {
          assert list.buf[i] == elems[i];
          r := Append(r, list.buf[i]);
          assert first + elems[..i] + [elems[i]] == first + elems[..i + 1];
          i := i + 1;
        }
        assert elems[..i] == elems;
      }
    }

    /** One turn of the loop over the patterns. */
    method AppendIfMatching(pattern: K, matches: K -> bool, targets: Slice) returns (r: Slice)
      requires Valid() && targets.Valid() && targets.buf !in Repr
      modifies targets.buf
      ensures r.Valid() && (r.buf == targets.buf || fresh(r.buf))
      ensures r.Elems() == old(targets.Elems()) + Batch(slices, pattern, matches)
    {
      r := targets;
      if matches(pattern) {
        r := AppendTo(pattern, r);
      }
    }

    /** The loop over the patterns that match an event, in the order the map yields them. */
    method AppendMatching(order: seq<K>, matches: K -> bool, targets: Slice) returns (r: Slice)
      requires Valid() && targets.Valid() && targets.buf !in Repr
      modifies targets.buf
      ensures r.Valid() && (r.buf == targets.buf || fresh(r.buf))
      ensures r.Elems() == old(targets.Elems()) + Matched(slices, order, matches)
    {
      r := targets;
      ghost var first, all := targets.Elems(), slices;
      var i := 0;
      while i < |order|
        invariant 0 <= i <= |order| && r.Valid() && (r.buf == targets.buf || fresh(r.buf))
        invariant Valid() && slices == all && r.buf !in Repr
        invariant r.Elems() == first + Matched(all, order[..i], matches)
      {
        r := AppendIfMatching(order[i], matches, r);
        MatchedNext(all, order, matches, i, first);
        i := i + 1;
      }
      assert order[..i] == order;
    }
  }

  // ---- what is delivered ----

  /** The order in which Go's map yields the patterns does not change which deliveries are made. */
  lemma {:induction false} DeliveryPermutation<K>(slices: Live<K>, s: seq<K>, t: seq<K>, matches: K -> bool)
    requires multiset(s) == multiset(t)
    ensures multiset(Matched(slices, s, matches)) == multiset(Matched(slices, t, matches))
  {
    var f := k => multiset(Batch(slices, k, matches));
    MatchedTotal(slices, s, matches, f);
    MatchedTotal(slices, t, matches, f);
    P.TotalPermutation(f, s, t);
  }

  lemma {:induction false} MatchedTotal<K>(slices: Live<K>, t: seq<K>, matches: K -> bool, f: K -> multiset<Subscriber>)
    requires forall k :: f(k) == multiset(Batch(slices, k, matches))
    ensures multiset(Matched(slices, t, matches)) == P.Total(f, t)
  {
    if t != [] {
      MatchedTotal(slices, t[..|t| - 1], matches, f);
    }
  }

  /** Every key once, in an order that does not matter. */
  ghost function AnyOrder<K(!new)>(keys: set<K>): (order: seq<K>)
    ensures multiset(order) == multiset(keys)
  {
    if keys == {} then []
    else
      var k :| k in keys;
      assert multiset(keys) == multiset(keys - {k}) + multiset{k};
      AnyOrder(keys - {k}) + [k]
  }

  /** What the matching patterns are owed: each one's registrations, once. */
  ghost function Deliveries<K(!new)>(slices: Live<K>, matches: K -> bool): multiset<Subscriber> {
    multiset(Matched(slices, AnyOrder(slices.Keys), matches))
  }

  /** `order` lists every key once. */
  ghost predicate EachOnce<K(!new)>(order: seq<K>, keys: set<K>) {
    && (forall k :: k in order <==> k in keys)
    && (forall i, j :: 0 <= i < j < |order| ==> order[i] != order[j])
  }

  lemma {:induction false} EachOnceMultiset<K(!new)>(order: seq<K>, keys: set<K>)
    requires EachOnce(order, keys)
    ensures multiset(order) == multiset(keys)
  {
    if order != [] {
      var n := |order| - 1;
      assert order == order[..n] + [order[n]];
      EachOnceMultiset(order[..n], keys - {order[n]});
      assert multiset(keys) == multiset(keys - {order[n]}) + multiset{order[n]};
    }
  }

  /** A range over a Go map: every key once, in some order. */
  method RangeOrder<K(==, !new)>(keys: set<K>) returns (order: seq<K>)
    ensures EachOnce(order, keys)
  {
    order := [];
    var pending := keys;
    while pending != {}
      invariant pending <= keys && EachOnce(order, keys - pending)
      decreases pending
    {
      var k :| k in pending;
      order, pending := order + [k], pending - {k};
    }
  }

  /**
   The name's list, then the lists of the matching patterns in the order the
   range met them: each matching pattern's registrations once.
   */
  ghost predicate IsSnapshot<K(!new)>(
    elems: seq<Subscriber>, named: Live<K>, wild: Live<K>, name: K, matches: K -> bool, order: seq<K>) {
    EachOnce(order, wild.Keys) && elems == LiveAt(named, name) + Matched(wild, order, matches)
  }

  /** What a snapshot delivers does not depend on the order of the range. */
  lemma {:induction false} SnapshotDelivers<K(!new)>(
    elems: seq<Subscriber>, named: Live<K>, wild: Live<K>, name: K, matches: K -> bool, order: seq<K>)
    requires IsSnapshot(elems, named, wild, name, matches, order)
    ensures multiset(elems) == multiset(LiveAt(named, name)) + Deliveries(wild, matches)
  {
    EachOnceMultiset(order, wild.Keys);
    DeliveryPermutation(wild, order, AnyOrder(wild.Keys), matches);
  }

  /** The registration is under this key, which matches. */
  ghost predicate Owed<K>(slices: Live<K>, matches: K -> bool, x: Subscriber, k: K) {
    matches(k) && k in slices && x in slices[k]
  }

  lemma {:induction false} MatchedMembers<K(!new)>(slices: Live<K>, order: seq<K>, matches: K -> bool, x: Subscriber)
    ensures x in Matched(slices, order, matches) <==> exists k :: k in order && Owed(slices, matches, x, k)
  {
    if order != [] {
      var rest, last := order[..|order| - 1], order[|order| - 1];
      MatchedMembers(slices, rest, matches, x);
      assert order == rest + [last];
      assert x in Batch(slices, last, matches) <==> Owed(slices, matches, x, last);
      if x in Matched(slices, rest, matches) {
        var k :| k in rest && Owed(slices, matches, x, k);
        assert k in order;
      }
    }
  }

  /** A slice holds the live registrations under its name and nothing else. */
  lemma {:induction false} SliceMembers<K>(live: Live<K>, slices: Live<K>, name: K, x: Subscriber)
    requires AllSorted(live, slices)
    ensures x in LiveAt(slices, name) <==> x in LiveAt(live, name)
  {
    if name in live {
      StableSortMembers(live[name], slices[name]);
      assert x in multiset(live[name]) <==> x in multiset(slices[name]);
    }
  }

  /** A subscriber is delivered to exactly when it is live under the event's name or under a matching pattern. */
  lemma {:induction false} DeliveredExactly<K(!new)>(
    elems: seq<Subscriber>, named: Live<K>, wild: Live<K>, name: K, matches: K -> bool, order: seq<K>,
    liveNamed: Live<K>, liveWild: Live<K>, x: Subscriber)
    requires IsSnapshot(elems, named, wild, name, matches, order)
    requires AllSorted(liveNamed, named) && AllSorted(liveWild, wild)
    ensures x in elems <==> x in LiveAt(liveNamed, name) || exists k :: Owed(liveWild, matches, x, k)
  {
    MatchedMembers(wild, order, matches, x);
    SliceMembers(liveNamed, named, name, x);
    forall k ensures Owed(wild, matches, x, k) <==> Owed(liveWild, matches, x, k) {
      SliceMembers(liveWild, wild, k, x);
    }
    OwedListed(wild, matches, x, order);
  }

  lemma {:induction false} OwedListed<K(!new)>(slices: Live<K>, matches: K -> bool, x: Subscriber, order: seq<K>)
    requires forall k :: k in order <==> k in slices
    ensures (exists k :: k in order && Owed(slices, matches, x, k)) <==> exists k :: Owed(slices, matches, x, k)
  {
    if exists k :: Owed(slices, matches, x, k) {
      var k :| Owed(slices, matches, x, k);
      assert k in order;
    }
  }

  /** targets := append(append(nothing, by name), by pattern): always into new storage. */
  method Collect<Name(==, !new)>(
    subscribers: Table<Name>, patterns: Table<Name>, name: Name, matches: Name -> bool, order: seq<Name>)
    returns (targets: Slice)
    requires subscribers.Valid() && patterns.Valid()
    ensures targets.Valid() && fresh(targets.buf)
    ensures targets.Elems() == LiveAt(subscribers.slices, name) + Matched(patterns.slices, order, matches)
  {
    targets := EmptySlice();
    targets := subscribers.AppendTo(name, targets);
    targets := patterns.AppendMatching(order, matches, targets);
  }

  // ---- the bus ----

  /** The snapshot, with the order in which the range met the patterns. */
  method Snapshot<Name(==, !new)>(subscribers: Table<Name>, patterns: Table<Name>, name: Name, matches: Name -> bool)
    returns (targets: Slice, ghost order: seq<Name>)
    requires subscribers.Valid() && patterns.Valid()
    ensures targets.Valid() && fresh(targets.buf)
    ensures IsSnapshot(targets.Elems(), subscribers.slices, patterns.slices, name, matches, order)
  {
    var range := RangeOrder(patterns.lists.Keys);
    targets := Collect(subscribers, patterns, name, matches, range);
    order := range;
  }

  /** A table's registrations: sorted into its slices, with ids already given out. */
  ghost predicate Registered<K>(live: Live<K>, slices: Live<K>, bound: nat) {
    AllSorted(live, slices) && forall n <- live :: forall x <- live[n] :: x.id < bound
  }

  ghost predicate WithinLimit<K>(live: Live<K>) {
    forall n <- live :: |live[n]| <= MAX_SUBSCRIBERS
  }

  lemma {:induction false} RegisterNext<K>(live: Live<K>, slices: Live<K>, name: K, x: Subscriber, slices': Live<K>)
    requires Registered(live, slices, x.id)
    requires name in slices' && slices' == slices[name := slices'[name]]
    requires IsStableSort(LiveAt(slices, name) + [x], slices'[name])
    ensures Registered(live[name := LiveAt(live, name) + [x]], slices', x.id + 1)
  {
    AddSorted(live, slices, name, x, slices'[name]);
  }

  lemma {:induction false} UnregisterOne<K>(live: Live<K>, slices: Live<K>, bound: nat, name: K, id: nat)
    requires Registered(live, slices, bound) && name in live
    ensures DistinctIds(slices[name])
    ensures Registered(live[name := Without(live[name], id)], slices[name := Without(slices[name], id)], bound)
  {
    RemoveSorted(live, slices, name, id);
    WithoutMembers(live[name], id);
  }

  lemma {:induction false} SliceLength<K>(live: Live<K>, slices: Live<K>, name: K)
    requires AllSorted(live, slices)
    ensures |LiveAt(slices, name)| == |LiveAt(live, name)|
  {
    if name in live {
      SortKeepsDistinct(live[name], slices[name]);
    }
  }

  ghost function AsyncCount(s: seq<Subscriber>): nat {
    if s == [] then 0 else AsyncCount(s[..|s| - 1]) + if s[|s| - 1].async then 1 else 0
  }

  /** The targets delivered to in goroutines of their own, by their places. */
  lemma {:induction false} AsyncPlaces(s: seq<Subscriber>)
    ensures AsyncCount(s) == |set i | 0 <= i < |s| && s[i].async|
  {
    var places := set i | 0 <= i < |s| && s[i].async;
    if s != [] {
      var n := |s| - 1;
      AsyncPlaces(s[..n]);
      var before := set i | 0 <= i < n && s[..n][i].async;
      assert places == before + if s[n].async then {n} else {};
    }
  }

  /** A table together with the registrations it stands for. */
  class Registry<K(==)> {
    const table: Table<K>
    var nextId: nat
    ghost var live: Live<K>

    ghost function Repr(): set<object>
      reads this, table
    {
      {this} + table.Repr
    }

    ghost predicate Valid()
      reads this, table, table.Repr
    {
      table.Valid() && this !in table.Repr && Registered(live, table.slices, nextId)
    }

    constructor ()
      ensures Valid() && fresh(table) && fresh(table.Repr) && live == map[]
    {
      table := new Table();
      nextId, live := 0, map[];
    }

    /** len of the slice under a name. */
    method Count(name: K) returns (n: nat)
      requires Valid()
      ensures n == |LiveAt(live, name)|
    {
      n := table.Count(name);
      SliceLength(live, table.slices, name);
    }

    method Register(name: K, opt: Options) returns (sub: Subscriber)
      requires Valid()
      modifies Repr()
      ensures Valid() && old(Repr()) <= Repr() && fresh(Repr() - old(Repr()))
      ensures sub == Subscriber(old(nextId), opt.async, opt.priority) && nextId == old(nextId) + 1
      ensures live == old(live)[name := LiveAt(old(live), name) + [sub]]
    {
      sub := Subscriber(nextId, opt.async, opt.priority);
      ghost var before := table.slices;
      table.Add(name, sub);
      RegisterNext(live, before, name, sub, table.slices);
      live := live[name := LiveAt(live, name) + [sub]];
      nextId := nextId + 1;
    }

    /** The unsubscribe closure for registration `id` under `name`; a second call finds nothing to do. */
    method Unregister(name: K, id: nat)
      requires Valid()
      modifies Repr()
      ensures Valid() && Repr() == old(Repr())
      ensures live == if name in old(live) then old(live)[name := Without(old(live)[name], id)] else old(live)
      ensures nextId == old(nextId)
    {
      if name in table.lists {
        UnregisterOne(live, table.slices, nextId, name, id);
        table.Drop(name, id);
        live := live[name := Without(live[name], id)];
      }
    }
  }

  /** The bus itself; names and patterns only matter through equality and matching. */
  class Bus<Name(==, !new)> {
    const subscribers: Registry<Name>
    const patterns: Registry<Name>
    var closed: bool
    var wg: nat

    ghost function Repr(): set<object>
      reads this, subscribers, subscribers.table, patterns, patterns.table
    {
      {this} + subscribers.Repr() + patterns.Repr()
    }

    ghost predicate Valid()
      reads this, subscribers, subscribers.table, subscribers.table.Repr, patterns, patterns.table, patterns.table.Repr
    {
      && subscribers.Valid() && patterns.Valid()
      && subscribers.Repr() !! patterns.Repr() && this !in subscribers.Repr() && this !in patterns.Repr()
      && WithinLimit(subscribers.live)
    }

    constructor ()
      ensures Valid() && fresh(Repr())
      ensures !closed && wg == 0 && subscribers.live == map[] && patterns.live == map[]
    {
      subscribers := new Registry();
      patterns := new Registry();
      closed, wg := false, 0;
    }

    /** Subscribe's two checks. */
    method Refuses(name: Name) returns (r: BusResult<()>)
      requires Valid()
      ensures r == if closed then Err(Closed)
                   else if |LiveAt(subscribers.live, name)| >= MAX_SUBSCRIBERS then Err(MaxSubscribers) else Ok(())
    {
      if closed {
        return Err(Closed);
      }
      var count := subscribers.Count(name);
      if count >= MAX_SUBSCRIBERS {
        return Err(MaxSubscribers);
      }
      r := Ok(());
    }

    /** Refused once closed, then when the name is full; otherwise the newest registration under the name. */
    method Subscribe(name: Name, opts: seq<Options>) returns (r: BusResult<Subscriber>)
      requires Valid()
      modifies subscribers.Repr()
      ensures Valid() && old(subscribers.Repr()) <= subscribers.Repr()
      ensures fresh(subscribers.Repr() - old(subscribers.Repr()))
      ensures r == if closed then Err(Closed)
                   else if |LiveAt(old(subscribers.live), name)| >= MAX_SUBSCRIBERS then Err(MaxSubscribers)
                   else Ok(Subscriber(old(subscribers.nextId), ResolveOptions(opts).async,
                       ResolveOptions(opts).priority))
      ensures subscribers.live ==
              if r.Ok? then old(subscribers.live)[name := LiveAt(old(subscribers.live), name) + [r.value]]
              else old(subscribers.live)
    {
      var refusal := Refuses(name);
      if refusal.Err? {
        return Err(refusal.error);
      }
      var sub := subscribers.Register(name, ResolveOptions(opts));
      r := Ok(sub);
    }

    /** As Subscribe, but a malformed pattern is refused and there is no limit. */
    method SubscribeWildcard(
      pattern: Name, wellFormed: Name -> bool, opts: seq<Options>)
      returns (r: BusResult<Subscriber>)
      requires Valid()
      modifies patterns.Repr()
      ensures Valid() && old(patterns.Repr()) <= patterns.Repr() && fresh(patterns.Repr() - old(patterns.Repr()))
      ensures r == if closed then Err(Closed)
                   else if !wellFormed(pattern) then Err(InvalidPattern)
                   else Ok(Subscriber(old(patterns.nextId), ResolveOptions(opts).async, ResolveOptions(opts).priority))
      ensures patterns.live ==
              if r.Ok? then old(patterns.live)[pattern := LiveAt(old(patterns.live), pattern) + [r.value]]
              else old(patterns.live)
    {
      if closed {
        return Err(Closed);
      }
      if !wellFormed(pattern) {
        return Err(InvalidPattern);
      }
      var sub := patterns.Register(pattern, ResolveOptions(opts));
      r := Ok(sub);
    }

    method Unsubscribe(name: Name, id: nat)
      requires Valid()
      modifies subscribers.Repr()
      ensures Valid() && subscribers.Repr() == old(subscribers.Repr())
      ensures subscribers.live ==
              if name in old(subscribers.live)
                  then old(subscribers.live)[name := Without(old(subscribers.live)[name], id)]
              else old(subscribers.live)
    {
      WithoutMembers(LiveAt(subscribers.live, name), id);
      subscribers.Unregister(name, id);
    }

    method UnsubscribeWildcard(pattern: Name, id: nat)
      requires Valid()
      modifies patterns.Repr()
      ensures Valid() && patterns.Repr() == old(patterns.Repr())
      ensures patterns.live ==
              if pattern in old(patterns.live)
                  then old(patterns.live)[pattern := Without(old(patterns.live)[pattern], id)]
              else old(patterns.live)
    {
      patterns.Unregister(pattern, id);
    }

    /** The part of Publish under the read lock: a snapshot in new storage, its async deliveries counted. */
    method Publish(name: Name, matches: Name -> bool) returns (r: BusResult<Slice>, ghost order: seq<Name>)
      requires Valid()
      modifies this`wg
      ensures Valid()
      ensures r.Err? <==> closed
      ensures r.Err? ==> r.error == Closed && wg == old(wg)
      ensures r.Ok? ==>
                && r.value.Valid() && fresh(r.value.buf)
                && IsSnapshot(r.value.Elems(), subscribers.table.slices, patterns.table.slices, name, matches, order)
                && wg == old(wg) + AsyncCount(r.value.Elems())
    {
      order := [];
      if closed {
        return Err(Closed), [];
      }
      var targets;
      targets, order := Snapshot(subscribers.table, patterns.table, name, matches);
      Enlist(targets);
      r := Ok(targets);
    }

    /** One wg.Add(1) for each async target. */
    method Enlist(targets: Slice)
      requires targets.Valid()
      modifies this`wg
      ensures wg == old(wg) + AsyncCount(targets.Elems())
    {
      var i := 0;
      while i < targets.len
        invariant 0 <= i <= targets.len
        invariant wg == old(wg) + AsyncCount(targets.Elems()[..i])
      {
        assert targets.Elems()[..i + 1][..i] == targets.Elems()[..i];
        if targets.buf[i].async {
          wg := wg + 1;
        }
        i := i + 1;
      }
      assert targets.Elems()[..i] == targets.Elems();
    }

    /** The part of Close under the lock. */
    method MarkClosed()
      requires Valid()
      modifies this`closed
      ensures Valid() && closed
    {
      closed := true;
    }
  }

  // ---- snapshots and later edits ----

  datatype Edit<Name> =
    | AddNamed(name: Name, opts: seq<Options>)
    | AddWild(name: Name, opts: seq<Options>)
    | DropNamed(name: Name, id: nat)
    | DropWild(name: Name, id: nat)
    | Shut

  /** The slice's storage is not the bus's. */
  ghost predicate Apart<Name(!new)>(bus: Bus<Name>, kept: Slice)
    reads bus, bus.subscribers, bus.subscribers.table, bus.patterns, bus.patterns.table
  {
    kept.Valid() && kept.buf !in bus.Repr()
  }

  /** Any one call on the bus leaves a slice in storage of its own as it was. */
  method ApplyEdit<Name(==, !new)>(bus: Bus<Name>, edit: Edit<Name>, wellFormed: Name -> bool, kept: Slice)
    requires bus.Valid() && Apart(bus, kept)
    modifies bus.Repr()
    ensures bus.Valid() && Apart(bus, kept) && kept.Elems() == old(kept.Elems())
    ensures old(bus.Repr()) <= bus.Repr() && fresh(bus.Repr() - old(bus.Repr()))
  {
    match edit
    case AddNamed(name, opts) => var _ := bus.Subscribe(name, opts);
    case AddWild(pattern, opts) => var _ := bus.SubscribeWildcard(pattern, wellFormed, opts);
    case DropNamed(name, id) => bus.Unsubscribe(name, id);
    case DropWild(pattern, id) => bus.UnsubscribeWildcard(pattern, id);
    case Shut => bus.MarkClosed();
  }

  /** A Publish snapshot is what it was when taken, whatever is subscribed and unsubscribed afterwards. */
  method SnapshotSurvives<Name(==, !new)>(
    bus: Bus<Name>, name: Name, matches: Name -> bool, edits: seq<Edit<Name>>, wellFormed: Name -> bool)
    returns (r: BusResult<Slice>, ghost order: seq<Name>)
    requires bus.Valid()
    modifies bus.Repr()
    ensures bus.Valid()
    ensures r.Ok? ==>
              && r.value.Valid()
              && IsSnapshot(r.value.Elems(), old(bus.subscribers.table.slices), old(bus.patterns.table.slices), name,
                  matches, order)
  {
    r, order := bus.Publish(name, matches);
    if r.Ok? {
      var kept := r.value;
      ghost var snapshot := kept.Elems();
      for i := 0 to |edits|
        invariant bus.Valid() && Apart(bus, kept) && kept.Elems() == snapshot
        invariant fresh(bus.Repr() - old(bus.Repr()))
      {
        ApplyEdit(bus, edits[i], wellFormed, kept);
      }
    }
  }
}
