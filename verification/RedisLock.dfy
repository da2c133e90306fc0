/**
 The Redis leader lock (pkg/scheduler/redislock.go) over an abstract server
 holding one key: an atomic set-if-absent with a time to live, and a refresh
 and a delete that compare the token.
 */
module RedisLock {
  import opened Wrappers

  /** What the server stores under the key. */
  datatype Entry = Entry(token: nat, expiry: int)

  /** What a call reports back: an error may hide a command that did take effect. */
  datatype Reply = Yes | No | Failed(applied: bool)

  type Duration = d: int | d > 0 witness 1

  const DEFAULT_TTL: Duration := 30_000_000_000

  /** WithTTL over the default: values not above zero are ignored. */
  function ChooseTTL(options: seq<int>): (ttl: Duration)
    ensures (forall i :: 0 <= i < |options| ==> options[i] <= 0) ==> ttl == DEFAULT_TTL
    ensures forall i :: 0 <= i < |options| && options[i] > 0 && (forall j :: i < j < |options| ==> options[j] <= 0) ==>
                          ttl == options[i]
  {
    if options == [] then DEFAULT_TTL
    else if options[|options| - 1] > 0 then options[|options| - 1]
    else
      assert forall i :: 0 <= i < |options| - 1 ==> options[..|options| - 1][i] == options[i];
      ChooseTTL(options[..|options| - 1])
  }

  // ---- the server ----

  predicate Vacant(store: Option<Entry>, now: int) { store.None? || store.value.expiry <= now }

  predicate Held(store: Option<Entry>, now: int, token: nat) {
    store.Some? && store.value.token == token && now < store.value.expiry
  }

  /** With no further command, the key is the token's at every time before `until` and anyone's from then on. */
  ghost predicate OwnedUntil(store: Option<Entry>, token: nat, until: int) {
    forall t :: (Held(store, t, token) <==> t < until) && (Vacant(store, t) <==> t >= until)
  }

  /** With no further command, the key is anyone's at every time. */
  ghost predicate Free(store: Option<Entry>) { forall t :: Vacant(store, t) }

  /** The replies the server's state allows for a command that takes effect when `possible`. */
  predicate Honest(r: Reply, possible: bool) {
    match r
    case Yes => possible
    case No => !possible
    case Failed(applied) => applied ==> possible
  }

  predicate Applied(r: Reply) { r.Yes? || (r.Failed? && r.applied) }

  function Obtain(store: Option<Entry>, now: int, ttl: Duration, token: nat, r: Reply): Option<Entry> {
    if Applied(r) then Some(Entry(token, now + ttl)) else store
  }

  function Refresh(store: Option<Entry>, now: int, ttl: Duration, r: Reply): Option<Entry>
    requires Applied(r) ==> store.Some?
  {
    if Applied(r) then Some(Entry(store.value.token, now + ttl)) else store
  }

  function Unlock(store: Option<Entry>, r: Reply): Option<Entry> {
    if Applied(r) then None else store
  }

  /** A key obtained at time `now` is the token's for exactly the TTL. */
  lemma {:induction false} ObtainedFor(store: Option<Entry>, now: int, ttl: Duration, token: nat, r: Reply)
    requires Honest(r, Vacant(store, now))
    ensures Applied(r) ==> OwnedUntil(Obtain(store, now, ttl, token, r), token, now + ttl)
    ensures !Applied(r) ==> Obtain(store, now, ttl, token, r) == store
  {
  }

  /** A key refreshed at time `now` stays its holder's for exactly the TTL from then. */
  lemma {:induction false} RefreshedFor(store: Option<Entry>, now: int, ttl: Duration, token: nat, r: Reply)
    requires Honest(r, Held(store, now, token))
    ensures Applied(r) ==> OwnedUntil(Refresh(store, now, ttl, r), token, now + ttl)
    ensures !Applied(r) ==> Refresh(store, now, ttl, r) == store
  {
  }

  /** A key given back is free, and one not given back is as it was. */
  lemma {:induction false} UnlockedFree(store: Option<Entry>, r: Reply)
    ensures Applied(r) ==> Free(Unlock(store, r))
    ensures !Applied(r) ==> Unlock(store, r) == store
  {
  }

  // ---- the provider ----

  /** The server as the provider sees it; `network` decides whether the next command and its reply get through. */
  class Server {
    var store: Option<Entry>
    var now: int
    var issued: nat

    constructor (now: int)
      ensures store == None && this.now == now && issued == 0
    {
      store, this.now, issued := None, now, 0;
    }
  }

  /** A network that delivers, that loses the request, or that loses the reply. */
  datatype Network = Delivers | LosesRequest | LosesReply

  function Outcome(net: Network, possible: bool): (r: Reply)
    ensures Honest(r, possible)
    ensures Applied(r) <==> possible && !net.LosesRequest?
  {
    match net
    case Delivers => if possible then Yes else No
    case LosesRequest => Failed(false)
    case LosesReply => Failed(possible)
  }

  /** redisLockProvider: `lock` is the token of the last successful Acquire. */
  class Provider {
    const server: Server
    const ttl: Duration
    var lock: Option<nat>

    constructor (server: Server, options: seq<int>)
      ensures this.server == server && ttl == ChooseTTL(options) && lock == None
    {
      this.server, ttl, lock := server, ChooseTTL(options), None;
    }

    /** Fails fast when the key is held; a lost reply leaves the key taken and `lock` unset. */
    method Acquire(net: Network) returns (r: Reply)
      modifies this`lock, server
      ensures Honest(r, Vacant(old(server.store), server.now))
      ensures server.store == Obtain(old(server.store), server.now, ttl, old(server.issued), r)
      ensures server.now == old(server.now)
      ensures server.issued == if Applied(r) then old(server.issued) + 1 else old(server.issued)
      ensures lock == if r.Yes? then Some(old(server.issued)) else old(lock)
      ensures r.Yes? ==> OwnedUntil(server.store, lock.value, server.now + ttl)
    {
      r := Outcome(net, Vacant(server.store, server.now));
      var token := server.issued;
      if Applied(r) {
        server.store := Some(Entry(token, server.now + ttl));
        server.issued := token + 1;
      }
      if r.Yes? {
        lock := Some(token);
      }
    }

    /** ErrLockNotHeld (No) exactly when the call got through and the stored, unexpired token is not this one. */
    method Renew(net: Network) returns (r: Reply)
      modifies server`store
      ensures old(lock) == None ==> r == No && server.store == old(server.store)
      ensures old(lock) != None ==>
                && Honest(r, Held(old(server.store), server.now, lock.value))
                && server.store == Refresh(old(server.store), server.now, ttl, r)
      ensures r.Yes? ==> old(lock) != None && OwnedUntil(server.store, lock.value, server.now + ttl)
      ensures !Applied(r) ==> server.store == old(server.store)
    {
      if lock == None {
        return No;
      }
      r := Outcome(net, Held(server.store, server.now, lock.value));
      if Applied(r) {
        server.store := Some(Entry(lock.value, server.now + ttl));
      }
    }

    /** Deletes only its own token, and forgets it unless the call failed. */
    method Release(net: Network) returns (r: Reply)
      modifies this`lock, server`store
      ensures old(lock) == None ==> r == No && server.store == old(server.store)
      ensures old(lock) != None ==>
                && Honest(r, Held(old(server.store), server.now, old(lock).value))
                && server.store == Unlock(old(server.store), r)
      ensures lock == if r.Failed? then old(lock) else None
      ensures Applied(r) ==> Free(server.store)
      ensures !Applied(r) ==> server.store == old(server.store)
      ensures server.store.Some? ==> server.store == old(server.store)
    {
      if lock == None {
        return No;
      }
      r := Outcome(net, Held(server.store, server.now, lock.value));
      if Applied(r) {
        server.store := None;
      }
      if !r.Failed? {
        lock := None;
      }
    }
  }
}
