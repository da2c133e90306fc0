/**
 The two-level cache (pkg/cache/multi.go) under any interleaving of calls. The
 writes of Set, Delete and Clear to the two levels are separate steps, an L2 hit
 leaves a warm-up of L1 pending, entries vanish at any time, and any level may
 fail.
 */
module MultiCache {
  import opened Wrappers

  /** A call between its two level operations; Get is between its two reads. */
  datatype Call<K, V> = Getting(key: K) | Setting(key: K, value: V) | Deleting(key: K) | Clearing | Ended

  /** A background write of L1 that has not happened yet. */
  datatype WarmUp<K, V> = WarmUp(key: K, value: V)

  datatype State<K, V> = State(l1: map<K, V>, l2: map<K, V>, warm: seq<WarmUp<K, V>>, calls: seq<Call<K, V>>)

  /** `ok` is false when the level's operation failed and had no effect. */
  datatype Step<K, V> =
    | GetFirst(key: K, ok: bool) | GetSecond(c: nat, ok: bool)
    | SetFirst(key: K, value: V, ok: bool) | SetSecond(c: nat, ok: bool)
    | DeleteFirst(key: K, ok: bool) | DeleteSecond(c: nat, ok: bool)
    | ClearFirst(ok: bool) | ClearSecond(c: nat, ok: bool)
    | Warm(w: nat, ok: bool)
    | Evict1(key: K) | Evict2(key: K)

  predicate Allowed<K, V>(s: State<K, V>, step: Step<K, V>) {
    match step
    case GetSecond(c, _) => c < |s.calls| && s.calls[c].Getting?
    case SetSecond(c, _) => c < |s.calls| && s.calls[c].Setting?
    case DeleteSecond(c, _) => c < |s.calls| && s.calls[c].Deleting?
    case ClearSecond(c, _) => c < |s.calls| && s.calls[c].Clearing?
    case Warm(w, _) => w < |s.warm|
    case _ => true
  }

  /** What the second read of a Get finds. */
  function L2Hit<K, V>(s: State<K, V>, c: nat, ok: bool): Option<V>
    requires c < |s.calls| && s.calls[c].Getting?
  {
    if ok && s.calls[c].key in s.l2 then Some(s.l2[s.calls[c].key]) else None
  }

  function Next<K(==), V>(s: State<K, V>, step: Step<K, V>): State<K, V>
    requires Allowed(s, step)
  {
    match step
    case GetFirst(key, ok) => if ok && key in s.l1 then s else s.(calls := s.calls + [Getting(key)])
    case GetSecond(c, ok) =>
      var hit := L2Hit(s, c, ok);
      s.(calls := s.calls[c := Ended],
         warm := if hit.Some? then s.warm + [WarmUp(s.calls[c].key, hit.value)] else s.warm)
    case SetFirst(key, value, ok) =>
      s.(l1 := if ok then s.l1[key := value] else s.l1, calls := s.calls + [Setting(key, value)])
    case SetSecond(c, ok) =>
      s.(l2 := if ok then s.l2[s.calls[c].key := s.calls[c].value] else s.l2, calls := s.calls[c := Ended])
    case DeleteFirst(key, ok) =>
      s.(l1 := if ok then s.l1 - {key} else s.l1, calls := s.calls + [Deleting(key)])
    case DeleteSecond(c, ok) =>
      s.(l2 := if ok then s.l2 - {s.calls[c].key} else s.l2, calls := s.calls[c := Ended])
    case ClearFirst(ok) => s.(l1 := if ok then map[] else s.l1, calls := s.calls + [Clearing])
    case ClearSecond(c, ok) => s.(l2 := if ok then map[] else s.l2, calls := s.calls[c := Ended])
    case Warm(w, ok) =>
      s.(l1 := if ok then s.l1[s.warm[w].key := s.warm[w].value] else s.l1, warm := s.warm[..w] + s.warm[w + 1..])
    case Evict1(key) => s.(l1 := s.l1 - {key})
    case Evict2(key) => s.(l2 := s.l2 - {key})
  }

  /** The key and value a Get returns at this step, if it returns a value. */
  function Returned<K, V>(s: State<K, V>, step: Step<K, V>): Option<(K, V)>
    requires Allowed(s, step)
  {
    match step
    case GetFirst(key, ok) => if ok && key in s.l1 then Some((key, s.l1[key])) else None
    case GetSecond(c, ok) =>
      var hit := L2Hit(s, c, ok);
      if hit.Some? then Some((s.calls[c].key, hit.value)) else None
    case _ => None
  }

  ghost predicate IsRun<K, V>(at: seq<State<K, V>>, steps: seq<Step<K, V>>) {
    && |at| == |steps| + 1 && at[0] == State(map[], map[], [], [])
    && forall i {:trigger steps[i]} :: 0 <= i < |steps| ==>
        Allowed(at[i], steps[i]) && at[i + 1] == Next(at[i], steps[i])
  }

  // ---- every value was set under its key ----

  ghost predicate WasSet<K(!new), V(!new)>(steps: seq<Step<K, V>>, key: K, value: V) {
    exists j {:trigger steps[j]} :: 0 <= j < |steps| && steps[j].SetFirst? && steps[j].key == key
        && steps[j].value == value
  }

  ghost predicate Honest<K(!new), V(!new)>(s: State<K, V>, steps: seq<Step<K, V>>) {
    && (forall k <- s.l1 :: WasSet(steps, k, s.l1[k]))
    && (forall k <- s.l2 :: WasSet(steps, k, s.l2[k]))
    && (forall w :: 0 <= w < |s.warm| ==> WasSet(steps, s.warm[w].key, s.warm[w].value))
    && (forall c :: 0 <= c < |s.calls| && s.calls[c].Setting? ==> WasSet(steps, s.calls[c].key, s.calls[c].value))
  }

  lemma {:induction false} WasSetGrows<K(!new), V(!new)>(steps: seq<Step<K, V>>, step: Step<K, V>)
    ensures forall key, value :: WasSet(steps, key, value) ==> WasSet(steps + [step], key, value)
    ensures step.SetFirst? ==> WasSet(steps + [step], step.key, step.value)
  {
    forall key, value | WasSet(steps, key, value) ensures WasSet(steps + [step], key, value) {
      var j :| 0 <= j < |steps| && steps[j].SetFirst? && steps[j].key == key && steps[j].value == value;
      assert (steps + [step])[j] == steps[j];
    }
    assert (steps + [step])[|steps|] == step;
  }

  lemma {:induction false} HonestKept<K(!new), V(!new)>(s: State<K, V>, steps: seq<Step<K, V>>, step: Step<K, V>)
    requires Honest(s, steps) && Allowed(s, step)
    ensures Honest(Next(s, step), steps + [step])
  {
    WasSetGrows(steps, step);
  }

  lemma {:induction false} RunHonest<K(!new), V(!new)>(at: seq<State<K, V>>, steps: seq<Step<K, V>>, i: nat)
    requires IsRun(at, steps) && i <= |steps|
    ensures Honest(at[i], steps[..i])
  {
    if i > 0 {
      RunHonest(at, steps, i - 1);
      HonestKept(at[i - 1], steps[..i - 1], steps[i - 1]);
      assert steps[..i] == steps[..i - 1] + [steps[i - 1]];
    }
  }

  /** Whatever fails, vanishes or interleaves, a returned value was set under that key earlier in the run. */
  lemma {:induction false} ReturnedWasSet<K(!new), V(!new)>(at: seq<State<K, V>>, steps: seq<Step<K, V>>, i: nat)
    requires IsRun(at, steps) && i < |steps| && Returned(at[i], steps[i]).Some?
    ensures var (key, value) := Returned(at[i], steps[i]).value; WasSet(steps[..i], key, value)
  {
    RunHonest(at, steps, i);
  }

  // ---- freshness ----

  /** The value the latest write of the key left there. */
  ghost function Last<K, V>(steps: seq<Step<K, V>>, key: K): Option<V> {
    if steps == [] then None else Written(Last(steps[..|steps| - 1], key), steps[|steps| - 1], key)
  }

  ghost function Written<K, V>(last: Option<V>, step: Step<K, V>, key: K): Option<V> {
    match step
    case SetFirst(k, value, _) => if k == key then Some(value) else last
    case DeleteFirst(k, _) => if k == key then None else last
    case ClearFirst(_) => None
    case _ => last
  }

  lemma {:induction false} LastNext<K, V>(steps: seq<Step<K, V>>, step: Step<K, V>, key: K)
    ensures Last(steps + [step], key) == Written(Last(steps, key), step, key)
  {
    assert (steps + [step])[..|steps|] == steps;
  }

  /** The call is a write of this key between its two levels. */
  predicate Writing<K(==), V>(call: Call<K, V>, key: K) {
    call.Clearing? || ((call.Setting? || call.Deleting?) && call.key == key)
  }

  ghost predicate Unwritten<K, V>(s: State<K, V>, key: K) {
    forall c :: 0 <= c < |s.calls| ==> !Writing(s.calls[c], key)
  }

  ghost predicate NoWarmUp<K, V>(s: State<K, V>, key: K) {
    forall w :: 0 <= w < |s.warm| ==> s.warm[w].key != key
  }

  /**
   Level writes succeed; a write of a key starts when no other write of it is
   under way and none of its warm-ups is pending; and an L2 hit, which starts a
   warm-up, does not fall between the two levels of a write of its key.
   */
  ghost predicate Disciplined<K(!new), V>(s: State<K, V>, step: Step<K, V>)
    requires Allowed(s, step)
  {
    match step
    case SetFirst(key, _, ok) => ok && Unwritten(s, key) && NoWarmUp(s, key)
    case DeleteFirst(key, ok) => ok && Unwritten(s, key) && NoWarmUp(s, key)
    case ClearFirst(ok) => ok && forall key :: Unwritten(s, key) && NoWarmUp(s, key)
    case SetSecond(_, ok) => ok
    case DeleteSecond(_, ok) => ok
    case ClearSecond(_, ok) => ok
    case GetSecond(c, ok) => L2Hit(s, c, ok).Some? ==> Unwritten(s, s.calls[c].key)
    case _ => true
  }

  /** Every copy of the key is the latest value; L2's only once no write is under way. */
  ghost predicate Fresh<K, V>(s: State<K, V>, key: K, last: Option<V>) {
    && (key in s.l1 ==> last == Some(s.l1[key]))
    && (key in s.l2 && Unwritten(s, key) ==> last == Some(s.l2[key]))
    && WarmUpsAre(s, key, last)
  }

  /** What the call under way for a key will leave in L2 is the latest value, and there is one such call. */
  ghost predicate OneWriter<K, V>(calls: seq<Call<K, V>>, key: K, last: Option<V>) {
    && (forall c :: 0 <= c < |calls| && Writing(calls[c], key) ==> last == Leaves(calls[c]))
    && (forall c, d :: 0 <= c < |calls| && 0 <= d < |calls| && Writing(calls[c], key) && Writing(calls[d], key) ==>
        c == d)
  }

  function Leaves<K, V>(call: Call<K, V>): Option<V> { if call.Setting? then Some(call.value) else None }

  ghost predicate Orderly<K, V>(s: State<K, V>, key: K, last: Option<V>) {
    OneWriter(s.calls, key, last) && (Unwritten(s, key) || NoWarmUp(s, key))
  }

  lemma {:induction false} FirstWriter<K(!new), V(!new)>(s: State<K, V>, call: Call<K, V>, key: K)
    requires Unwritten(s, key)
    ensures OneWriter(s.calls + [call], key, Leaves(call))
  {
  }

  lemma {:induction false} OtherCall<K(!new), V(!new)>(
    calls: seq<Call<K, V>>, call: Call<K, V>, key: K, last: Option<V>)
    requires OneWriter(calls, key, last) && !Writing(call, key)
    ensures OneWriter(calls + [call], key, last)
  {
  }

  lemma {:induction false} WriterEnds<K(!new), V(!new)>(calls: seq<Call<K, V>>, c: nat, key: K, last: Option<V>)
    requires OneWriter(calls, key, last) && c < |calls|
    ensures OneWriter(calls[c := Ended], key, last)
  {
  }

  lemma {:induction false} OrderlyKept<K(!new), V(!new)>(s: State<K, V>, step: Step<K, V>, key: K, last: Option<V>)
    requires Allowed(s, step) && Disciplined(s, step) && Orderly(s, key, last)
    ensures Orderly(Next(s, step), key, Written(last, step, key))
  {
    match step
    case GetFirst(_, _) => CallStarts(s, step, Getting(step.key), key, last);
    case SetFirst(_, _, _) => CallStarts(s, step, Setting(step.key, step.value), key, last);
    case DeleteFirst(_, _) => CallStarts(s, step, Deleting(step.key), key, last);
    case ClearFirst(_) => CallStarts(s, step, Clearing, key, last);
    case GetSecond(c, _) => CallEnds(s, step, c, key, last);
    case SetSecond(c, _) => CallEnds(s, step, c, key, last);
    case DeleteSecond(c, _) => CallEnds(s, step, c, key, last);
    case ClearSecond(c, _) => CallEnds(s, step, c, key, last);
    case Warm(_, _) =>
    case Evict1(_) =>
    case Evict2(_) =>
  }

  lemma {:induction false} CallStarts<K(!new), V(!new)>(
    s: State<K, V>, step: Step<K, V>, call: Call<K, V>, key: K, last: Option<V>)
    requires Allowed(s, step) && Disciplined(s, step) && Orderly(s, key, last)
    requires step.GetFirst? || step.SetFirst? || step.DeleteFirst? || step.ClearFirst?
    requires Next(s, step).calls == s.calls + [call] || (Next(s, step) == s && step.GetFirst?)
    requires step.GetFirst? ==> call.Getting?
    requires Writing(call, key) ==> Unwritten(s, key) && NoWarmUp(s, key) && Written(last, step, key) == Leaves(call)
    requires !Writing(call, key) ==> Written(last, step, key) == last
    ensures Orderly(Next(s, step), key, Written(last, step, key))
  {
    StartCall(s, call, key);
    if Writing(call, key) {
      FirstWriter(s, call, key);
    } else {
      OtherCall(s.calls, call, key, last);
    }
  }

  lemma {:induction false} CallEnds<K(!new), V(!new)>(s: State<K, V>, step: Step<K, V>, c: nat, key: K, last: Option<V>)
    requires Allowed(s, step) && Disciplined(s, step) && Orderly(s, key, last)
    requires step.GetSecond? || step.SetSecond? || step.DeleteSecond? || step.ClearSecond?
    requires step.c == c
    ensures Orderly(Next(s, step), key, last)
  {
    EndCall(s, c, key);
    WriterEnds(s.calls, c, key, last);
  }

  /** The level write took effect, or the level held nothing else anyway. */
  predicate Settled<K, V(==)>(ok: bool, level: map<K, V>, key: K, last: Option<V>) {
    ok || key !in level || last == Some(level[key])
  }

  ghost predicate WarmUpsAre<K, V>(s: State<K, V>, key: K, last: Option<V>) {
    forall w :: 0 <= w < |s.warm| && s.warm[w].key == key ==> last == Some(s.warm[w].value)
  }

  /**
   What a step must meet for the key: a write finds no pending warm-up of
   another value and takes effect where the level holds another value, and an L2
   hit between the levels of a write finds the value being written.
   */
  ghost predicate Guard<K, V>(s: State<K, V>, step: Step<K, V>, key: K, last: Option<V>)
    requires Allowed(s, step)
  {
    match step
    case SetFirst(k, value, ok) => k == key ==> Settled(ok, s.l1, key, Some(value)) && WarmUpsAre(s, key, Some(value))
    case DeleteFirst(k, ok) => k == key ==> Settled(ok, s.l1, key, None) && NoWarmUp(s, key)
    case ClearFirst(ok) => Settled(ok, s.l1, key, None) && NoWarmUp(s, key)
    case SetSecond(c, ok) => s.calls[c].key == key ==> Settled(ok, s.l2, key, last)
    case DeleteSecond(c, ok) => s.calls[c].key == key ==> Settled(ok, s.l2, key, last)
    case ClearSecond(_, ok) => Settled(ok, s.l2, key, last)
    case GetSecond(c, ok) => s.calls[c].key == key && L2Hit(s, c, ok).Some? ==>
        Unwritten(s, key) || L2Hit(s, c, ok) == last
    case _ => true
  }

  /** From an orderly and fresh state, the step leaves the key fresh if and only if it meets the guard. */
  lemma {:induction false} FreshExact<K(!new), V(!new)>(s: State<K, V>, step: Step<K, V>, key: K, last: Option<V>)
    requires Allowed(s, step) && Orderly(s, key, last) && Fresh(s, key, last)
    ensures Fresh(Next(s, step), key, Written(last, step, key)) <==> Guard(s, step, key, last)
  {
    match step
    case GetFirst(_, _) => StartCall(s, Getting(step.key), key);
    case SetFirst(_, _, _) => FirstLevelExact(s, step, Setting(step.key, step.value), key, last);
    case DeleteFirst(_, _) => FirstLevelExact(s, step, Deleting(step.key), key, last);
    case ClearFirst(_) => FirstLevelExact(s, step, Clearing, key, last);
    case GetSecond(_, _) => L2HitExact(s, step, key, last);
    case SetSecond(_, _) => SecondLevelExact(s, step, key, last);
    case DeleteSecond(_, _) => SecondLevelExact(s, step, key, last);
    case ClearSecond(_, _) => SecondLevelExact(s, step, key, last);
    case Warm(_, _) =>
    case Evict1(_) =>
    case Evict2(_) =>
  }

  lemma {:induction false} FirstLevelExact<K(!new), V(!new)>(
    s: State<K, V>, step: Step<K, V>, call: Call<K, V>, key: K, last: Option<V>)
    requires Allowed(s, step) && Fresh(s, key, last)
    requires step.SetFirst? || step.DeleteFirst? || step.ClearFirst?
    requires Next(s, step).calls == s.calls + [call]
    requires Writing(call, key) <==> step.ClearFirst? || step.key == key
    ensures Fresh(Next(s, step), key, Written(last, step, key)) <==> Guard(s, step, key, last)
  {
    StartCall(s, call, key);
    var t := Next(s, step);
    assert Unwritten(t, key) <==> Unwritten(s, key) && !Writing(call, key);
    assert t.l2 == s.l2 && t.warm == s.warm;
  }

  lemma {:induction false} SecondLevelExact<K(!new), V(!new)>(s: State<K, V>, step: Step<K, V>, key: K, last: Option<V>)
    requires Allowed(s, step) && Orderly(s, key, last) && Fresh(s, key, last)
    requires step.SetSecond? || step.DeleteSecond? || step.ClearSecond?
    ensures Fresh(Next(s, step), key, last) <==> Guard(s, step, key, last)
  {
    var c, t := step.c, Next(s, step);
    EndCall(s, c, key);
    assert t.l1 == s.l1 && t.warm == s.warm;
    if Writing(s.calls[c], key) {
      assert Unwritten(t, key) by {
        forall d | 0 <= d < |t.calls| ensures !Writing(t.calls[d], key) {
          if d != c { assert t.calls[d] == s.calls[d]; }
        }
      }
    }
  }

  lemma {:induction false} L2HitExact<K(!new), V(!new)>(s: State<K, V>, step: Step<K, V>, key: K, last: Option<V>)
    requires Allowed(s, step) && Fresh(s, key, last) && step.GetSecond?
    ensures Fresh(Next(s, step), key, last) <==> Guard(s, step, key, last)
  {
    var c, t := step.c, Next(s, step);
    EndCall(s, c, key);
    assert t.l1 == s.l1 && t.l2 == s.l2;
    assert forall w :: 0 <= w < |s.warm| ==> t.warm[w] == s.warm[w];
    if L2Hit(s, c, step.ok).Some? {
      assert t.warm[|s.warm|] == WarmUp(s.calls[c].key, L2Hit(s, c, step.ok).value);
    }
  }

  /** The discipline meets every key's guard. */
  lemma {:induction false} FreshKept<K(!new), V(!new)>(s: State<K, V>, step: Step<K, V>, key: K, last: Option<V>)
    requires Allowed(s, step) && Disciplined(s, step) && Orderly(s, key, last) && Fresh(s, key, last)
    ensures Fresh(Next(s, step), key, Written(last, step, key))
  {
    FreshExact(s, step, key, last);
  }

  lemma {:induction false} StartCall<K(!new), V(!new)>(s: State<K, V>, call: Call<K, V>, key: K)
    ensures Unwritten(s.(calls := s.calls + [call]), key) <==> Unwritten(s, key) && !Writing(call, key)
  {
    var t := s.(calls := s.calls + [call]);
    assert t.calls[|s.calls|] == call;
    assert forall c :: 0 <= c < |s.calls| ==> t.calls[c] == s.calls[c];
  }

  lemma {:induction false} EndCall<K(!new), V(!new)>(s: State<K, V>, c: nat, key: K)
    requires c < |s.calls|
    ensures !Writing(s.calls[c], key) ==> (Unwritten(s.(calls := s.calls[c := Ended]), key) <==> Unwritten(s, key))
  {
    var t := s.(calls := s.calls[c := Ended]);
    assert forall d :: 0 <= d < |s.calls| && d != c ==> t.calls[d] == s.calls[d];
    if !Writing(s.calls[c], key) && Unwritten(t, key) {
      forall d | 0 <= d < |s.calls| ensures !Writing(s.calls[d], key) {
        if d != c {
          assert !Writing(t.calls[d], key);
        }
      }
    }
  }

  ghost predicate DisciplinedRun<K(!new), V>(at: seq<State<K, V>>, steps: seq<Step<K, V>>) {
    IsRun(at, steps) && forall i {:trigger steps[i]} :: 0 <= i < |steps| ==> Disciplined(at[i], steps[i])
  }

  lemma {:induction false} RunFresh<K(!new), V(!new)>(at: seq<State<K, V>>, steps: seq<Step<K, V>>, i: nat, key: K)
    requires DisciplinedRun(at, steps) && i <= |steps|
    ensures Orderly(at[i], key, Last(steps[..i], key)) && Fresh(at[i], key, Last(steps[..i], key))
  {
    if i > 0 {
      RunFresh(at, steps, i - 1, key);
      OrderlyKept(at[i - 1], steps[i - 1], key, Last(steps[..i - 1], key));
      FreshKept(at[i - 1], steps[i - 1], key, Last(steps[..i - 1], key));
      LastNext(steps[..i - 1], steps[i - 1], key);
      assert steps[..i] == steps[..i - 1] + [steps[i - 1]];
    }
  }

  /** In a disciplined run every Get returns the latest value set, or nothing. */
  lemma {:induction false} ReturnedIsLast<K(!new), V(!new)>(at: seq<State<K, V>>, steps: seq<Step<K, V>>, i: nat)
    requires DisciplinedRun(at, steps) && i < |steps| && Returned(at[i], steps[i]).Some?
    ensures var (key, value) := Returned(at[i], steps[i]).value; Last(steps[..i], key) == Some(value)
  {
    RunFresh(at, steps, i, Returned(at[i], steps[i]).value.0);
  }

  // ---- where the discipline is needed ----

  /** A disciplined continuation of a state, reads and writes alike. */
  ghost predicate Continues<K(!new), V(!new)>(s: State<K, V>, at: seq<State<K, V>>, steps: seq<Step<K, V>>) {
    && |at| == |steps| + 1 && at[0] == s
    && forall i {:trigger steps[i]} :: 0 <= i < |steps| ==>
         Allowed(at[i], steps[i]) && Disciplined(at[i], steps[i]) && at[i + 1] == Next(at[i], steps[i])
  }

  /** The latest value of the key after some steps from a state in which it was `last`. */
  ghost function LastFrom<K, V>(last: Option<V>, steps: seq<Step<K, V>>, key: K): Option<V> {
    if steps == [] then last else Written(LastFrom(last, steps[..|steps| - 1], key), steps[|steps| - 1], key)
  }

  /** No disciplined continuation returns anything but the then latest value of the key. */
  ghost predicate ReadsLatest<K(!new), V(!new)>(s: State<K, V>, key: K, last: Option<V>) {
    forall at, steps, i {:trigger Continues(s, at, steps), steps[i]} ::
      Continues(s, at, steps) && 0 <= i < |steps| && Returned(at[i], steps[i]).Some?
      && Returned(at[i], steps[i]).value.0 == key ==>
        LastFrom(last, steps[..i], key) == Some(Returned(at[i], steps[i]).value.1)
  }

  lemma {:induction false} LastFromOne<K, V>(last: Option<V>, step: Step<K, V>, key: K)
    ensures LastFrom(last, [step], key) == Written(last, step, key)
  {
    assert [step][..0] == [];
    assert LastFrom(last, [], key) == last;
  }

  lemma {:induction false} ContinuationFresh<K(!new), V(!new)>(
    s: State<K, V>, at: seq<State<K, V>>, steps: seq<Step<K, V>>, i: nat, key: K, last: Option<V>)
    requires Orderly(s, key, last) && Fresh(s, key, last) && Continues(s, at, steps) && i <= |steps|
    ensures Orderly(at[i], key, LastFrom(last, steps[..i], key)) && Fresh(at[i], key, LastFrom(last, steps[..i], key))
  {
    if i > 0 {
      ContinuationFresh(s, at, steps, i - 1, key, last);
      var before := LastFrom(last, steps[..i - 1], key);
      OrderlyKept(at[i - 1], steps[i - 1], key, before);
      FreshKept(at[i - 1], steps[i - 1], key, before);
      assert steps[..i][..i - 1] == steps[..i - 1];
    }
  }

  /**
   A stale copy of the key in L1, in a pending warm-up or, with no write under
   way, in L2 is exactly what lets some disciplined continuation, however much it
   writes, return a value that is not the latest.
   */
  lemma {:induction false} FreshExactly<K(!new), V(!new)>(s: State<K, V>, key: K, last: Option<V>)
    requires Orderly(s, key, last)
    ensures ReadsLatest(s, key, last) <==> Fresh(s, key, last)
  {
    if Fresh(s, key, last) {
      forall at, steps, i | Continues(s, at, steps) && 0 <= i < |steps| && Returned(at[i], steps[i]).Some? &&
                            Returned(at[i], steps[i]).value.0 == key
        ensures LastFrom(last, steps[..i], key) == Some(Returned(at[i], steps[i]).value.1)
      {
        ContinuationFresh(s, at, steps, i, key, last);
      }
    }
    if ReadsLatest(s, key, last) {
      StaleL1Shows(s, key, last);
      if Unwritten(s, key) { StaleL2Shows(s, key, last); }
      forall w | 0 <= w < |s.warm| && s.warm[w].key == key ensures last == Some(s.warm[w].value) {
        StaleWarmUpShows(s, key, last, w);
      }
    }
  }

  lemma {:induction false} StaleL1Shows<K(!new), V(!new)>(s: State<K, V>, key: K, last: Option<V>)
    requires ReadsLatest(s, key, last)
    ensures key in s.l1 ==> last == Some(s.l1[key])
  {
    if key in s.l1 {
      var steps := [GetFirst(key, true)];
      var at := [s, Next(s, steps[0])];
      assert Continues(s, at, steps);
      assert Returned(at[0], steps[0]) == Some((key, s.l1[key]));
    }
  }

  lemma {:induction false} StaleL2Shows<K(!new), V(!new)>(s: State<K, V>, key: K, last: Option<V>)
    requires ReadsLatest(s, key, last) && Unwritten(s, key)
    ensures key in s.l2 ==> last == Some(s.l2[key])
  {
    if key in s.l2 {
      var steps := [GetFirst(key, false), GetSecond(|s.calls|, true)];
      var t := Next(s, steps[0]);
      StartCall(s, Getting(key), key);
      var at := [s, t, Next(t, steps[1])];
      assert Continues(s, at, steps);
      assert Returned(at[1], steps[1]) == Some((key, s.l2[key]));
      LastFromOne(last, steps[0], key);
      assert steps[..1] == [steps[0]];
    }
  }

  lemma {:induction false} StaleWarmUpShows<K(!new), V(!new)>(s: State<K, V>, key: K, last: Option<V>, w: nat)
    requires ReadsLatest(s, key, last) && w < |s.warm| && s.warm[w].key == key
    ensures last == Some(s.warm[w].value)
  {
    var steps := [Step<K, V>.Warm(w, true), GetFirst(key, true)];
    var t := Next(s, steps[0]);
    var at := [s, t, Next(t, steps[1])];
    assert Continues(s, at, steps);
    assert Returned(at[1], steps[1]) == Some((key, s.warm[w].value));
    LastFromOne(last, steps[0], key);
    assert steps[..1] == [steps[0]];
  }

  // ---- what is found ----

  /** The step leaves this value under the key in L1. */
  predicate FillsL1<K(==), V(==)>(s: State<K, V>, step: Step<K, V>, key: K, value: V)
    requires Allowed(s, step)
  {
    step == SetFirst(key, value, true) || (step.Warm? && step.ok && s.warm[step.w] == WarmUp(key, value))
  }

  /** The step may change what L1 holds under the key. */
  predicate TouchesL1<K(==), V>(s: State<K, V>, step: Step<K, V>, key: K)
    requires Allowed(s, step)
  {
    match step
    case SetFirst(k, _, _) => k == key
    case DeleteFirst(k, _) => k == key
    case ClearFirst(_) => true
    case Warm(w, _) => s.warm[w].key == key
    case Evict1(k) => k == key
    case _ => false
  }

  predicate FillsL2<K(==), V(==)>(s: State<K, V>, step: Step<K, V>, key: K, value: V)
    requires Allowed(s, step)
  {
    step.SetSecond? && step.ok && s.calls[step.c] == Setting(key, value)
  }

  predicate TouchesL2<K(==), V>(s: State<K, V>, step: Step<K, V>, key: K)
    requires Allowed(s, step)
  {
    match step
    case SetSecond(c, _) => s.calls[c].key == key
    case DeleteSecond(c, _) => s.calls[c].key == key
    case ClearSecond(_, _) => true
    case Evict2(k) => k == key
    case _ => false
  }

  lemma {:induction false} StaysInL1<K(!new), V(!new)>(
    at: seq<State<K, V>>, steps: seq<Step<K, V>>, i: nat, j: nat, key: K, value: V)
    requires IsRun(at, steps) && i < j <= |steps| && FillsL1(at[i], steps[i], key, value)
    requires forall m {:trigger steps[m]} :: i < m < j ==> !TouchesL1(at[m], steps[m], key)
    ensures key in at[j].l1 && at[j].l1[key] == value
  {
    if i + 1 < j { StaysInL1(at, steps, i, j - 1, key, value); }
    assert at[j] == Next(at[j - 1], steps[j - 1]);
  }

  lemma {:induction false} StaysInL2<K(!new), V(!new)>(
    at: seq<State<K, V>>, steps: seq<Step<K, V>>, i: nat, j: nat, key: K, value: V)
    requires IsRun(at, steps) && i < j <= |steps| && FillsL2(at[i], steps[i], key, value)
    requires forall m {:trigger steps[m]} :: i < m < j ==> !TouchesL2(at[m], steps[m], key)
    ensures key in at[j].l2 && at[j].l2[key] == value
  {
    if i + 1 < j { StaysInL2(at, steps, i, j - 1, key, value); }
    assert at[j] == Next(at[j - 1], steps[j - 1]);
  }

  /** A value a Set or a warm-up left in L1 is what a Get returns from there until something touches it. */
  lemma {:induction false} FoundInL1<K(!new), V(!new)>(
    at: seq<State<K, V>>, steps: seq<Step<K, V>>, i: nat, j: nat, key: K, value: V)
    requires IsRun(at, steps) && i < j < |steps| && FillsL1(at[i], steps[i], key, value)
    requires forall m {:trigger steps[m]} :: i < m < j ==> !TouchesL1(at[m], steps[m], key)
    requires steps[j] == GetFirst(key, true)
    ensures Returned(at[j], steps[j]) == Some((key, value))
  {
    StaysInL1(at, steps, i, j, key, value);
  }

  /** Likewise in L2, from where it is also on its way back to L1. */
  lemma {:induction false} FoundInL2<K(!new), V(!new)>(
    at: seq<State<K, V>>, steps: seq<Step<K, V>>, i: nat, j: nat, key: K, value: V)
    requires IsRun(at, steps) && i < j < |steps| && FillsL2(at[i], steps[i], key, value)
    requires forall m {:trigger steps[m]} :: i < m < j ==> !TouchesL2(at[m], steps[m], key)
    requires steps[j].GetSecond? && steps[j].ok && steps[j].c < |at[j].calls|
    requires at[j].calls[steps[j].c] == Getting(key)
    ensures Returned(at[j], steps[j]) == Some((key, value))
    ensures at[j + 1].warm == at[j].warm + [WarmUp(key, value)]
  {
    StaysInL2(at, steps, i, j, key, value);
    assert at[j + 1] == Next(at[j], steps[j]);
  }

  // ---- two races ----

  lemma {:induction false} Extend<K(!new), V(!new)>(at: seq<State<K, V>>, steps: seq<Step<K, V>>, step: Step<K, V>)
    returns (at': seq<State<K, V>>, steps': seq<Step<K, V>>)
    requires IsRun(at, steps) && Allowed(at[|steps|], step)
    ensures IsRun(at', steps') && steps' == steps + [step] && at'[|steps'|] == Next(at[|steps|], step)
    ensures forall key :: Last(steps', key) == Written(Last(steps, key), step, key)
  {
    forall key ensures Last(steps + [step], key) == Written(Last(steps, key), step, key) {
      LastNext(steps, step, key);
    }
    at', steps' := at + [Next(at[|steps|], step)], steps + [step];
  }

  /** A value is set in both levels. */
  lemma {:induction false} SetBoth<K(!new), V(!new)>(
    key: K, value: V)
    returns (at: seq<State<K, V>>, steps: seq<Step<K, V>>)
    ensures IsRun(at, steps) && Last(steps, key) == Some(value)
    ensures at[|steps|] == State(map[key := value], map[key := value], [], [Ended])
  {
    at, steps := [State(map[], map[], [], [])], [];
    at, steps := Extend(at, steps, SetFirst(key, value, true));
    at, steps := Extend(at, steps, SetSecond(0, true));
  }

  /** A warm-up that outlives a Set puts the old value back on top of the new one. */
  lemma {:induction false} WarmUpOverwrites<K(!new), V(!new)>(key: K, before: V, after: V)
    returns (at: seq<State<K, V>>, steps: seq<Step<K, V>>)
    ensures IsRun(at, steps) && Last(steps, key) == Some(after)
    ensures Unwritten(at[|steps|], key) && at[|steps|].warm == []
    ensures key in at[|steps|].l1 && at[|steps|].l1[key] == before
  {
    at, steps := SetDuringWarmUp(key, before, after);
    at, steps := Extend(at, steps, Warm(0, true));
  }

  lemma {:induction false} SetDuringWarmUp<K(!new), V(!new)>(key: K, before: V, after: V)
    returns (at: seq<State<K, V>>, steps: seq<Step<K, V>>)
    ensures IsRun(at, steps) && Last(steps, key) == Some(after)
    ensures at[|steps|] == State(map[key := after], map[key := after], [WarmUp(key, before)], [Ended, Ended, Ended])
  {
    at, steps := HalfSetDuringWarmUp(key, before, after);
    at, steps := Extend(at, steps, SetSecond(2, true));
  }

  lemma {:induction false} HalfSetDuringWarmUp<K(!new), V(!new)>(key: K, before: V, after: V)
    returns (at: seq<State<K, V>>, steps: seq<Step<K, V>>)
    ensures IsRun(at, steps) && Last(steps, key) == Some(after)
    ensures at[|steps|] ==
        State(map[key := after], map[key := before], [WarmUp(key, before)], [Ended, Ended, Setting(key, after)])
  {
    at, steps := ReadBack(key, before);
    at, steps := Extend(at, steps, SetFirst(key, after, true));
  }

  /** A value lost from L1 is read back from L2: its warm-up is pending. */
  lemma {:induction false} ReadBack<K(!new), V(!new)>(
    key: K, value: V)
    returns (at: seq<State<K, V>>, steps: seq<Step<K, V>>)
    ensures IsRun(at, steps) && Last(steps, key) == Some(value)
    ensures at[|steps|] == State(map[], map[key := value], [WarmUp(key, value)], [Ended, Ended])
  {
    at, steps := SetBoth(key, value);
    at, steps := Extend(at, steps, Evict1(key));
    assert at[|steps|].l1 == map[];
    at, steps := Extend(at, steps, GetFirst(key, true));
    at, steps := Extend(at, steps, GetSecond(1, true));
  }

  /**
   A Get between the two levels of a Delete brings the deleted value back,
   though its warm-up ends before L2 is deleted.
   */
  lemma {:induction false} DeleteUndone<K(!new), V(!new)>(key: K, value: V)
    returns (at: seq<State<K, V>>, steps: seq<Step<K, V>>)
    ensures IsRun(at, steps) && Last(steps, key) == None
    ensures Unwritten(at[|steps|], key) && at[|steps|].warm == []
    ensures key in at[|steps|].l1 && at[|steps|].l1[key] == value
  {
    at, steps := ReadDuringDelete(key, value);
    at, steps := Extend(at, steps, Warm(0, true));
    at, steps := Extend(at, steps, DeleteSecond(1, true));
  }

  lemma {:induction false} ReadDuringDelete<K(!new), V(!new)>(key: K, value: V)
    returns (at: seq<State<K, V>>, steps: seq<Step<K, V>>)
    ensures IsRun(at, steps) && Last(steps, key) == None
    ensures at[|steps|] == State(map[], map[key := value], [WarmUp(key, value)], [Ended, Deleting(key), Ended])
  {
    at, steps := SetBoth(key, value);
    at, steps := Extend(at, steps, DeleteFirst(key, true));
    assert at[|steps|].l1 == map[];
    at, steps := Extend(at, steps, GetFirst(key, true));
    at, steps := Extend(at, steps, GetSecond(2, true));
  }
}
