/**
 The user service over a repository and a cache-aside cache
 (internal/service/user.go, internal/cache/user.go, pkg/cache/keygen.go).
 */
module UserService {
  import opened Wrappers
  import opened Text

  datatype User = User(
    id: int, email: string, password: string, name: string, phone: string,
    status: int, createdAt: int, updatedAt: int)

  datatype UserResponse = UserResponse(
    id: int, email: string, name: string, phone: string, status: int, createdAt: int, updatedAt: int)

  /** A copy without the password hash, for caching. */
  function PublicUser(u: User): User { u.(password := "") }

  function ToUserResponse(u: User): UserResponse {
    UserResponse(u.id, u.email, u.name, u.phone, u.status, u.createdAt, u.updatedAt)
  }

  // ---- cache keys ----

  /** The prefix and the parts, each after a colon. */
  method Generate(prefix: string, parts: seq<string>) returns (key: string)
    ensures key == Join([prefix] + parts, ":")
  {
    if parts == [] {
      return prefix;
    }
    key := prefix;
    for i := 0 to |parts|
      invariant key == Join([prefix] + parts[..i], ":")
    {
      JoinLast([prefix] + parts[..i], parts[i]);
      assert [prefix] + parts[..i + 1] == [prefix] + parts[..i] + [parts[i]];
      key := key + ":" + parts[i];
    }
    assert parts[..|parts|] == parts;
  }

  lemma {:induction false} JoinLast(parts: seq<string>, last: string)
    requires parts != []
    ensures Join(parts + [last], ":") == Join(parts, ":") + ":" + last
  {
    if |parts| > 1 {
      JoinLast(parts[1..], last);
      assert (parts + [last])[1..] == parts[1..] + [last];
    }
  }

  function ByIdKey(id: int): string { Join(["user:by_id", FormatInt(id)], ":") }

  function ByEmailKey(email: string): string { Join(["user:by_email", email], ":") }

  lemma {:induction false} KeyText(prefix: string, part: string)
    ensures Join([prefix, part], ":") == prefix + ":" + part
  {
    assert [prefix, part][1..] == [part];
  }

  /** Distinct ids have distinct keys, and no email's key is an id's key. */
  lemma {:induction false} KeysApart(m: int, n: int, email: string)
    ensures ByIdKey(m) == ByIdKey(n) ==> m == n
    ensures ByIdKey(m) != ByEmailKey(email)
  {
    KeyText("user:by_id", FormatInt(m));
    KeyText("user:by_id", FormatInt(n));
    KeyText("user:by_email", email);
    if ByIdKey(m) == ByIdKey(n) {
      assert ByIdKey(m)[|"user:by_id:"|..] == FormatInt(m);
      assert ByIdKey(n)[|"user:by_id:"|..] == FormatInt(n);
      FormatIntInjective(m, n);
    }
    assert ByIdKey(m)[8] == 'i' && ByEmailKey(email)[8] == 'e';
  }

  ghost predicate Injective(key: int -> string) { forall m, n :: key(m) == key(n) ==> m == n }

  lemma {:induction false} ByIdInjective()
    ensures Injective(ByIdKey)
  {
    forall m, n ensures ByIdKey(m) == ByIdKey(n) ==> m == n {
      KeysApart(m, n, "");
    }
  }

  // ---- the repository ----

  /** A stored row; deleting only marks it. */
  datatype Row = Row(user: User, deleted: bool)

  type Rows = map<int, Row>

  function Find(rows: Rows, id: int): Option<User> {
    if id in rows && !rows[id].deleted then Some(rows[id].user) else None
  }

  predicate EmailTaken(rows: Rows, email: string) {
    exists id <- rows :: !rows[id].deleted && rows[id].user.email == email
  }

  // ---- the service without a cache ----

  datatype Request =
    | Create(email: string, password: string, name: string, phone: string)
    | GetByID(id: int)
    | Update(id: int, name: string, phone: string, status: Option<int>)
    | Delete(id: int)

  /** What the outside world contributes to a call: the clock, a row id, the password hash, and what fails. */
  datatype World = World(
    now: int, newId: int, hash: Option<string>,
    dbReads: bool,        // the database answers queries
    dbWrites: bool,       // the database accepts changes
    cacheReads: bool,   // the cache answers
    cacheKeeps: bool)   // the cache keeps what it is given

  datatype Answer = Found(user: UserResponse) | Deleted | UserNotFound | UserAlreadyExists | Failed

  /** The user an update request leaves behind. */
  function Updated(u: User, name: string, phone: string, status: Option<int>, now: int): User {
    var u1 := if name != "" then u.(name := name) else u;
    var u2 := if phone != "" then u1.(phone := phone) else u1;
    var u3 := if status.Some? then u2.(status := status.value) else u2;
    u3.(updatedAt := now)
  }

  /** The rows after a call and its answer, with every read going to the repository. */
  function Serve(rows: Rows, q: Request, w: World): (Rows, Answer) {
    match q
    case Create(email, _, name, phone) =>
      if !w.dbReads then (rows, Failed)
      else if EmailTaken(rows, email) then (rows, UserAlreadyExists)
      else if w.hash.None? || !w.dbWrites then (rows, Failed)
      else
        var u := User(w.newId, email, w.hash.value, name, phone, 1, w.now, w.now);
        (rows[w.newId := Row(u, false)], Found(ToUserResponse(u)))
    case GetByID(id) =>
      if !w.dbReads then (rows, Failed)
      else if Find(rows, id).None? then (rows, UserNotFound)
      else (rows, Found(ToUserResponse(Find(rows, id).value)))
    case Update(id, name, phone, status) =>
      if !w.dbReads || Find(rows, id).None? then (rows, UserNotFound)
      else if !w.dbWrites then (rows, Failed)
      else
        var u := Updated(Find(rows, id).value, name, phone, status, w.now);
        (rows[id := Row(u, false)], Found(ToUserResponse(u)))
    case Delete(id) =>
      if !w.dbReads || Find(rows, id).None? then (rows, UserNotFound)
      else if !w.dbWrites then (rows, Failed)
      else (rows[id := rows[id].(deleted := true)], Deleted)
  }

  // ---- coherence ----

  /** A cached entry is the public form of the live row with its id. */
  ghost predicate Coherent(key: int -> string, rows: Rows, entries: map<string, User>) {
    forall id {:trigger key(id)} :: key(id) in entries ==>
        Find(rows, id).Some? && entries[key(id)] == PublicUser(Find(rows, id).value)
  }

  ghost predicate NoPasswords(entries: map<string, User>) {
    forall k <- entries :: entries[k].password == ""
  }

  ghost predicate IdsMatch(rows: Rows) { forall id <- rows :: rows[id].user.id == id }

  /** An answer made from the cached entry is the answer made from the row. */
  lemma {:induction false} CachedAnswer(key: int -> string, rows: Rows, entries: map<string, User>, id: int)
    requires Coherent(key, rows, entries) && key(id) in entries
    ensures Find(rows, id).Some? && ToUserResponse(entries[key(id)]) == ToUserResponse(Find(rows, id).value)
  {
  }

  lemma {:induction false} FillCoherent(key: int -> string, rows: Rows, entries: map<string, User>, id: int)
    requires Injective(key) && Coherent(key, rows, entries) && Find(rows, id).Some?
    ensures Coherent(key, rows, entries[key(id) := PublicUser(Find(rows, id).value)])
  {
  }

  /** Dropping the changed row's entry is enough, whatever else is dropped. */
  lemma {:induction false} InvalidateCoherent(
    key: int -> string, rows: Rows, entries: map<string, User>, id: int, row: Row, left: map<string, User>)
    requires Coherent(key, rows, entries)
    requires left.Keys <= entries.Keys && key(id) !in left && forall k <- left :: left[k] == entries[k]
    ensures Coherent(key, rows[id := row], left)
  {
  }

  /**
   Without the invalidation the cache stays coherent exactly when it held
   nothing for the row, or already its new public form.
   */
  lemma {:induction false} MissedInvalidation(
    key: int -> string, rows: Rows, entries: map<string, User>, id: int, row: Row)
    requires Injective(key) && Coherent(key, rows, entries)
    ensures Coherent(key, rows[id := row], entries) <==>
              (key(id) in entries ==> !row.deleted && entries[key(id)] == PublicUser(row.user))
  {
    if key(id) in entries ==> !row.deleted && entries[key(id)] == PublicUser(row.user) {
      forall i | key(i) in entries
        ensures Find(rows[id := row], i).Some? && entries[key(i)] == PublicUser(Find(rows[id := row], i).value)
      {
      }
    }
  }

  // ---- the service with its cache ----

  /** The cache manager's three user operations over any cache that may lose entries. */
  class UserCache {
    var entries: map<string, User>

    constructor ()
      ensures entries == map[]
    {
      entries := map[];
    }

    method GetUserByID(id: int, answers: bool) returns (r: Option<User>)
      ensures r == if answers && ByIdKey(id) in entries then Some(entries[ByIdKey(id)]) else None
    {
      var key := Generate("user:by_id", [FormatInt(id)]);
      assert ["user:by_id"] + [FormatInt(id)] == ["user:by_id", FormatInt(id)];
      r := if answers && key in entries then Some(entries[key]) else None;
    }

    method SetUserByID(id: int, u: User, keeps: bool)
      modifies this
      ensures entries == if keeps then old(entries)[ByIdKey(id) := u] else old(entries)
    {
      var key := Generate("user:by_id", [FormatInt(id)]);
      assert ["user:by_id"] + [FormatInt(id)] == ["user:by_id", FormatInt(id)];
      if keeps {
        entries := entries[key := u];
      }
    }

    method DelUserByID(id: int)
      modifies this
      ensures entries == old(entries) - {ByIdKey(id)}
    {
      var key := Generate("user:by_id", [FormatInt(id)]);
      assert ["user:by_id"] + [FormatInt(id)] == ["user:by_id", FormatInt(id)];
      entries := entries - {key};
    }

    method DelUserByEmail(email: string)
      modifies this
      ensures entries == old(entries) - {ByEmailKey(email)}
    {
      var key := Generate("user:by_email", [email]);
      assert ["user:by_email"] + [email] == ["user:by_email", email];
      entries := entries - {key};
    }

    /** The cache loses entries by itself: expiry and eviction. */
    method Lose(keys: set<string>)
      modifies this
      ensures entries == old(entries) - keys
    {
      entries := entries - keys;
    }
  }

  /** Without the entries of this id and, if there is one, of this email. */
  function Invalidated(entries: map<string, User>, id: int, email: string): map<string, User> {
    entries - ({ByIdKey(id)} + if email != "" then {ByEmailKey(email)} else {})
  }

  class Service {
    var rows: Rows
    const cache: UserCache

    ghost predicate Valid()
      reads this, cache
    {
      Coherent(ByIdKey, rows, cache.entries) && NoPasswords(cache.entries) && IdsMatch(rows)
    }

    constructor ()
      ensures Valid() && rows == map[] && fresh(cache)
    {
      rows := map[];
      cache := new UserCache();
    }

    /** From the cache if it answers, else from the repository, leaving a public copy behind. */
    method GetByID(id: int, w: World) returns (a: Answer)
      requires Valid()
      modifies cache
      ensures Valid()
      ensures w.dbReads ==> a == Serve(rows, Request.GetByID(id), w).1
      ensures a == Serve(rows, Request.GetByID(id), w).1 || a == Serve(rows, Request.GetByID(id), w.(dbReads := true)).1
      ensures w.cacheReads && ByIdKey(id) in old(cache.entries) ==>
                a == Serve(rows, Request.GetByID(id), w.(dbReads := true)).1
      ensures cache.entries ==
              if (w.cacheReads && ByIdKey(id) in old(cache.entries)) || !a.Found? || !w.cacheKeeps
              then old(cache.entries)
              else old(cache.entries)[ByIdKey(id) := PublicUser(Find(rows, id).value)]
    {
      var cached := cache.GetUserByID(id, w.cacheReads);
      if cached.Some? {
        CachedAnswer(ByIdKey, rows, cache.entries, id);
        return Found(ToUserResponse(cached.value));
      }
      if !w.dbReads {
        return Failed;
      }
      var found := Find(rows, id);
      if found.None? {
        return UserNotFound;
      }
      ByIdInjective();
      FillCoherent(ByIdKey, rows, cache.entries, id);
      cache.SetUserByID(id, PublicUser(found.value), w.cacheKeeps);
      a := Found(ToUserResponse(found.value));
    }

    /** invalidateUserCache. */
    method InvalidateUserCache(id: int, email: string)
      modifies cache
      ensures cache.entries == Invalidated(old(cache.entries), id, email)
    {
      cache.DelUserByID(id);
      if email != "" {
        cache.DelUserByEmail(email);
      }
    }

    method Create(email: string, password: string, name: string, phone: string, w: World) returns (a: Answer)
      requires Valid() && w.newId !in rows
      modifies this
      ensures Valid()
      ensures (rows, a) == Serve(old(rows), Request.Create(email, password, name, phone), w)
    {
      if !w.dbReads {
        return Failed;
      }
      if EmailTaken(rows, email) {
        return UserAlreadyExists;
      }
      if w.hash.None? || !w.dbWrites {
        return Failed;
      }
      var u := User(w.newId, email, w.hash.value, name, phone, 1, w.now, w.now);
      assert ByIdKey(w.newId) !in cache.entries;
      InvalidateCoherent(ByIdKey, rows, cache.entries, w.newId, Row(u, false), cache.entries);
      rows := rows[w.newId := Row(u, false)];
      a := Found(ToUserResponse(u));
    }

    method Update(id: int, name: string, phone: string, status: Option<int>, w: World) returns (a: Answer)
      requires Valid()
      modifies this, cache
      ensures Valid()
      ensures (rows, a) == Serve(old(rows), Request.Update(id, name, phone, status), w)
      ensures cache.entries ==
              if a.Found? then Invalidated(old(cache.entries), id, a.user.email) else old(cache.entries)
    {
      if !w.dbReads || Find(rows, id).None? {
        return UserNotFound;
      }
      var user := Find(rows, id).value;
      if name != "" {
        user := user.(name := name);
      }
      if phone != "" {
        user := user.(phone := phone);
      }
      if status.Some? {
        user := user.(status := status.value);
      }
      if !w.dbWrites {
        return Failed;
      }
      user := user.(updatedAt := w.now);
      ghost var entries := cache.entries;
      ghost var before := rows;
      rows := rows[id := Row(user, false)];
      InvalidateUserCache(id, user.email);
      InvalidateCoherent(ByIdKey, before, entries, id, Row(user, false), cache.entries);
      a := Found(ToUserResponse(user));
    }

    method Delete(id: int, w: World) returns (a: Answer)
      requires Valid()
      modifies this, cache
      ensures Valid()
      ensures (rows, a) == Serve(old(rows), Request.Delete(id), w)
      ensures cache.entries ==
              if a == Deleted then Invalidated(old(cache.entries), id, old(rows)[id].user.email) else old(cache.entries)
    {
      if !w.dbReads || Find(rows, id).None? {
        return UserNotFound;
      }
      var user := Find(rows, id).value;
      if !w.dbWrites {
        return Failed;
      }
      ghost var entries := cache.entries;
      ghost var before := rows;
      rows := rows[id := rows[id].(deleted := true)];
      InvalidateUserCache(id, user.email);
      InvalidateCoherent(ByIdKey, before, entries, id, before[id].(deleted := true), cache.entries);
      a := Deleted;
    }
  }

  // ---- whole conversations ----

  /** A call, and what the cache loses by itself just before it. */
  datatype Call = Call(request: Request, world: World, lost: set<string>)

  /** The rows after the first i calls of a service without a cache. */
  ghost function RowsAt(rows: Rows, calls: seq<Call>, i: nat): Rows
    requires i <= |calls|
  {
    if i == 0 then rows else Serve(RowsAt(rows, calls, i - 1), calls[i - 1].request, calls[i - 1].world).0
  }

  /** New rows never reuse an id, deleted ones included. */
  ghost predicate FreshIds(rows: Rows, calls: seq<Call>) {
    forall i :: 0 <= i < |calls| && calls[i].request.Create? ==> calls[i].world.newId !in RowsAt(rows, calls, i)
  }

  /** The answer is the uncached one; while the database is down a read may be answered as if it were up. */
  ghost predicate Agrees(rows: Rows, call: Call, a: Answer) {
    || a == Serve(rows, call.request, call.world).1
    || (call.request.GetByID? && a == Serve(rows, call.request, call.world.(dbReads := true)).1)
  }

  /** One call, whatever the cache has just lost. */
  method Handle(service: Service, call: Call) returns (a: Answer)
    requires service.Valid()
    requires call.request.Create? ==> call.world.newId !in service.rows
    modifies service, service.cache
    ensures service.Valid()
    ensures service.rows == Serve(old(service.rows), call.request, call.world).0
    ensures Agrees(old(service.rows), call, a)
  {
    service.cache.Lose(call.lost);
    var w := call.world;
    match call.request
    case Create(email, password, name, phone) => a := service.Create(email, password, name, phone, w);
    case GetByID(id) => a := service.GetByID(id, w);
    case Update(id, name, phone, status) => a := service.Update(id, name, phone, status, w);
    case Delete(id) => a := service.Delete(id, w);
  }

  ghost predicate AllAgree(rows: Rows, calls: seq<Call>, answers: seq<Answer>) {
    |answers| <= |calls| && forall i {:trigger answers[i]} :: 0 <= i < |answers| ==>
        Agrees(RowsAt(rows, calls, i), calls[i], answers[i])
  }

  lemma {:induction false} OneMoreAgrees(rows: Rows, calls: seq<Call>, answers: seq<Answer>, a: Answer)
    requires AllAgree(rows, calls, answers) && |answers| < |calls|
    requires Agrees(RowsAt(rows, calls, |answers|), calls[|answers|], a)
    ensures AllAgree(rows, calls, answers + [a])
  {
    forall i | 0 <= i < |answers + [a]| ensures Agrees(RowsAt(rows, calls, i), calls[i], (answers + [a])[i]) {
      if i < |answers| {
        assert (answers + [a])[i] == answers[i];
      }
    }
  }

  /** The next call of a conversation. */
  method HandleNext(service: Service, calls: seq<Call>, ghost start: Rows, ghost i: nat, call: Call) returns (a: Answer)
    requires service.Valid() && FreshIds(start, calls) && i < |calls| && call == calls[i]
    requires service.rows == RowsAt(start, calls, i)
    modifies service, service.cache
    ensures service.Valid() && service.rows == RowsAt(start, calls, i + 1)
    ensures Agrees(RowsAt(start, calls, i), calls[i], a)
  {
    a := Handle(service, call);
  }

  /** Every conversation gets the answers it would get without the cache. */
  method Converse(service: Service, calls: seq<Call>) returns (answers: seq<Answer>)
    requires service.Valid() && FreshIds(service.rows, calls)
    modifies service, service.cache
    ensures service.Valid() && |answers| == |calls|
    ensures service.rows == RowsAt(old(service.rows), calls, |calls|)
    ensures AllAgree(old(service.rows), calls, answers)
  {
    answers := [];
    ghost var start := service.rows;
    for i := 0 to |calls|
      invariant service.Valid() && |answers| == i
      invariant service.rows == RowsAt(start, calls, i)
      invariant AllAgree(start, calls, answers)
    {
      var a := HandleNext(service, calls, start, i, calls[i]);
      OneMoreAgrees(start, calls, answers, a);
      answers := answers + [a];
    }
  }
}
