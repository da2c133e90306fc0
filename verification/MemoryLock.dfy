/**
 The in-process lock with expiry (pkg/lock/memory.go). A Lock call reads the
 clock before it takes the mutex, so callers may enter in another order than
 they sampled.
 */
module MemoryLock {

  datatype Entry = Entry(token: nat, expireAt: int)

  const DEFAULT_TTL := 30_000_000_000

  /** applyOptions: the last TTL option counts, and none or a non-positive one means the default. */
  function ApplyOptions(ttls: seq<int>): (ttl: int)
    ensures ttl > 0
    ensures ttl == DEFAULT_TTL || (ttls != [] && ttl == ttls[|ttls| - 1])
  {
    if ttls == [] || ttls[|ttls| - 1] <= 0 then DEFAULT_TTL else ttls[|ttls| - 1]
  }

  // ---- mutex sections ----

  /** One section under the mutex; `at` is when it runs, `sampled` what the caller read beforehand. */
  datatype Step<K> =
    | Lock(key: K, sampled: int, ttl: int, token: nat, at: int)
    | Release(key: K, token: nat, at: int)

  type Entries<K> = map<K, Entry>

  predicate Grants<K>(s: Entries<K>, step: Step<K>) {
    step.Lock? && !(step.key in s && step.sampled < s[step.key].expireAt)
  }

  function ExpireAt<K>(step: Step<K>): int
    requires step.Lock?
  {
    step.sampled + step.ttl
  }

  function Next<K(==)>(s: Entries<K>, step: Step<K>): Entries<K> {
    match step
    case Lock(key, sampled, ttl, token, _) => if Grants(s, step) then s[key := Entry(token, sampled + ttl)] else s
    case Release(key, token, _) => if key in s && s[key].token == token then s - {key} else s
  }

  /** The locker. */
  class MemoryLocker<K(==)> {
    var entries: Entries<K>

    constructor ()
      ensures entries == map[]
    {
      entries := map[];
    }

    /** Granted when the key has no entry or an expired one; otherwise nothing changes. */
    method TryLock(key: K, sampled: int, ttls: seq<int>, token: nat, ghost at: int) returns (granted: bool)
      modifies this
      ensures granted == Grants(old(entries), Lock(key, sampled, ApplyOptions(ttls), token, at))
      ensures entries == Next(old(entries), Lock(key, sampled, ApplyOptions(ttls), token, at))
    {
      var ttl := ApplyOptions(ttls);
      if key in entries && sampled < entries[key].expireAt {
        return false;
      }
      entries := entries[key := Entry(token, sampled + ttl)];
      granted := true;
    }

    /** Removes the entry only if it is still this holder's. */
    method Unlock(key: K, token: nat, ghost at: int)
      modifies this
      ensures entries == Next(old(entries), Release(key, token, at))
      ensures key in old(entries) && old(entries)[key].token != token ==> entries == old(entries)
    {
      if key !in entries {
        return;
      }
      if entries[key].token != token {
        return;
      }
      entries := entries - {key};
    }
  }

  // ---- runs ----

  ghost predicate IsRun<K>(s: seq<Entries<K>>, steps: seq<Step<K>>) {
    && |s| == |steps| + 1 && s[0] == map[]
    && forall i {:trigger steps[i]} :: 0 <= i < |steps| ==> s[i + 1] == Next(s[i], steps[i])
  }

  /** Sections run in the order of the clock, and no caller samples the future. */
  ghost predicate Timed<K>(steps: seq<Step<K>>) {
    && (forall i :: 0 <= i < |steps| && steps[i].Lock? ==> steps[i].sampled <= steps[i].at)
    && (forall i, j :: 0 <= i < j < |steps| ==> steps[i].at <= steps[j].at)
  }

  ghost predicate UniqueTokens<K>(steps: seq<Step<K>>) {
    forall i, j :: 0 <= i < j < |steps| && steps[i].Lock? && steps[j].Lock? ==> steps[i].token != steps[j].token
  }

  /** Step i was granted the key. */
  ghost predicate Granted<K>(s: seq<Entries<K>>, steps: seq<Step<K>>, i: nat, key: K)
    requires IsRun(s, steps)
  {
    i < |steps| && Grants(s[i], steps[i]) && steps[i].key == key
  }

  /** The holder from step i released before step j. */
  ghost predicate Released<K>(steps: seq<Step<K>>, i: nat, j: nat)
    requires i < |steps| && j <= |steps| && steps[i].Lock?
  {
    exists r {:trigger steps[r]} :: i < r < j && steps[r].Release? && steps[r].key == steps[i].key
        && steps[r].token == steps[i].token
  }

  /** Some grant of the key after step i and before step j went to a caller that saw i's lock expired. */
  ghost predicate Displaced<K>(s: seq<Entries<K>>, steps: seq<Step<K>>, i: nat, j: nat)
    requires IsRun(s, steps) && i < |steps| && j <= |steps| && steps[i].Lock?
  {
    exists k :: i < k < j && Granted(s, steps, k, steps[i].key) && steps[k].sampled >= ExpireAt(steps[i])
  }

  /** From its grant on, the entry stands until it is released or displaced. */
  lemma {:induction false} EntryStands<K>(s: seq<Entries<K>>, steps: seq<Step<K>>, i: nat, j: nat, key: K)
    requires IsRun(s, steps) && Granted(s, steps, i, key) && i < j <= |steps|
    ensures Released(steps, i, j) || Displaced(s, steps, i, j)
        || (key in s[j] && s[j][key] == Entry(steps[i].token, ExpireAt(steps[i])))
  {
    if i + 1 < j {
      EntryStands(s, steps, i, j - 1, key);
      var step := steps[j - 1];
      if step.Lock? && Grants(s[j - 1], step) && step.key == key {
        assert Granted(s, steps, j - 1, key);
      }
    } else {
      assert s[j] == Next(s[i], steps[i]);
    }
  }

  /**
   Two grants of one key do not overlap: the earlier was released, or a grant no
   later than the other one was sampled at or after its expiry.
   */
  lemma {:induction false} NoOverlap<K>(s: seq<Entries<K>>, steps: seq<Step<K>>, i: nat, j: nat, key: K)
    requires IsRun(s, steps) && Granted(s, steps, i, key) && Granted(s, steps, j, key) && i < j
    ensures Released(steps, i, j) || Displaced(s, steps, i, j + 1)
  {
    EntryStands(s, steps, i, j, key);
  }

  /** In real time: when the later grant is made, the earlier one has been released or has expired. */
  lemma {:induction false} NoOverlapInTime<K>(s: seq<Entries<K>>, steps: seq<Step<K>>, i: nat, j: nat, key: K)
    requires IsRun(s, steps) && Timed(steps) && Granted(s, steps, i, key) && Granted(s, steps, j, key) && i < j
    ensures Released(steps, i, j) || ExpireAt(steps[i]) <= steps[j].at
  {
    NoOverlap(s, steps, i, j, key);
    if Displaced(s, steps, i, j + 1) {
      var k :| i < k < j + 1 && Granted(s, steps, k, key) && steps[k].sampled >= ExpireAt(steps[i]);
      assert steps[k].at <= steps[j].at;
    }
  }

  /**
   In a given state, every caller that could be granted the key comes after the
   holder from step i has released or on a sample at or after its expiry, exactly
   when it has released or the key's entry stands and expires no sooner.
   */
  lemma {:induction false} SawExpiryExactly<K(!new)>(s: seq<Entries<K>>, steps: seq<Step<K>>, i: nat, j: nat, key: K)
    requires IsRun(s, steps) && Granted(s, steps, i, key) && i < j <= |steps|
    ensures (forall call: Step<K> :: call.Lock? && call.key == key && Grants(s[j], call) ==>
              Released(steps, i, j) || call.sampled >= ExpireAt(steps[i]))
            <==> Released(steps, i, j) || (key in s[j] && s[j][key].expireAt >= ExpireAt(steps[i]))
  {
    var early: Step<K> := Lock(key, ExpireAt(steps[i]) - 1, 1, 0, 0);
    assert Grants(s[j], early) || (key in s[j] && s[j][key].expireAt >= ExpireAt(steps[i]));
  }

  /** Between two successive grants the later caller's own sample is at or after the expiry. */
  lemma {:induction false} NextHolderSawExpiry<K>(s: seq<Entries<K>>, steps: seq<Step<K>>, i: nat, j: nat, key: K)
    requires IsRun(s, steps) && Granted(s, steps, i, key) && Granted(s, steps, j, key) && i < j
    requires forall k :: i < k < j ==> !Granted(s, steps, k, key)
    ensures Released(steps, i, j) || steps[j].sampled >= ExpireAt(steps[i])
  {
    NoOverlap(s, steps, i, j, key);
  }

  /** So it is between any two grants when no grant of the key in between was sampled later. */
  lemma {:induction false} OrderedSamplesSawExpiry<K>(s: seq<Entries<K>>, steps: seq<Step<K>>, i: nat, j: nat, key: K)
    requires IsRun(s, steps) && Granted(s, steps, i, key) && Granted(s, steps, j, key) && i < j
    requires forall k :: i < k < j && Granted(s, steps, k, key) ==> steps[k].sampled <= steps[j].sampled
    ensures Released(steps, i, j) || steps[j].sampled >= ExpireAt(steps[i])
  {
    NoOverlap(s, steps, i, j, key);
  }

  /**
   A caller that sampled early and entered late can be granted the key on a
   sample before an earlier holder's expiry.
   */
  lemma {:induction false} LateEntrant<K>(key: K) returns (s: seq<Entries<K>>, steps: seq<Step<K>>)
    ensures IsRun(s, steps) && Timed(steps) && UniqueTokens(steps) && |steps| == 4
    ensures Granted(s, steps, 0, key) && Granted(s, steps, 3, key)
    ensures !Released(steps, 0, 3) && steps[3].sampled < ExpireAt(steps[0])
  {
    steps := [Lock(key, 0, 10, 1, 0), Lock(key, 10, 10, 2, 10), Release(key, 2, 11), Lock(key, 5, 10, 3, 11)];
    var s1 := Next(map[], steps[0]);
    var s2 := Next(s1, steps[1]);
    var s3 := Next(s2, steps[2]);
    s := [map[], s1, s2, s3, Next(s3, steps[3])];
  }

  // ---- stale holders ----

  /** Once the key was granted again, its entry belongs to that grant or a later one. */
  lemma {:induction false} EntryIsRecent<K>(s: seq<Entries<K>>, steps: seq<Step<K>>, j: nat, m: nat, key: K)
    requires IsRun(s, steps) && Granted(s, steps, j, key) && j < m <= |steps|
    ensures key in s[m] ==> exists g :: j <= g < m && Granted(s, steps, g, key) && s[m][key].token == steps[g].token
  {
    if j + 1 < m {
      EntryIsRecent(s, steps, j, m - 1, key);
      var step := steps[m - 1];
      if step.Lock? && Grants(s[m - 1], step) && step.key == key {
        assert Granted(s, steps, m - 1, key);
      }
    } else {
      assert s[m] == Next(s[j], steps[j]);
    }
  }

  /** A holder that was superseded changes nothing by releasing. */
  lemma {:induction false} StaleReleaseHarmless<K>(
    s: seq<Entries<K>>, steps: seq<Step<K>>, i: nat, j: nat, r: nat, key: K)
    requires IsRun(s, steps) && UniqueTokens(steps) && i < j < r < |steps|
    requires Granted(s, steps, i, key) && Granted(s, steps, j, key)
    requires steps[r].Release? && steps[r].key == key && steps[r].token == steps[i].token
    ensures s[r + 1] == s[r]
  {
    EntryIsRecent(s, steps, j, r, key);
  }
}
