/**
 What the calls of the user service mean to each other
 (internal/service/user.go): what a GetByID answers after a Create, an Update or
 a Delete, which users a change leaves alone, and what holds of whole
 conversations.
 */
module UserLaws {
  import opened Wrappers
  import opened UserService

  /** With the database answering, asking for the id gets this answer and changes nothing. */
  ghost predicate Shows(rows: Rows, id: int, a: Answer) {
    forall w: World :: w.dbReads ==> Serve(rows, Request.GetByID(id), w) == (rows, a)
  }

  /** The ids other than this one show what they showed before. */
  ghost predicate OthersKept(before: Rows, after: Rows, id: int) {
    forall other, a: Answer :: other != id ==> (Shows(after, other, a) <==> Shows(before, other, a))
  }

  /** A user is shown under the id, or none is. */
  lemma {:induction false} ShownIs(rows: Rows, id: int)
    ensures forall a: Answer :: Shows(rows, id, a) <==>
              a == (if Find(rows, id).Some? then Found(ToUserResponse(Find(rows, id).value)) else UserNotFound)
  {
    var a0 := if Find(rows, id).Some? then Found(ToUserResponse(Find(rows, id).value)) else UserNotFound;
    var up := World(0, 0, None, true, true, true, true);
    forall a: Answer ensures Shows(rows, id, a) <==> a == a0 {
      assert Serve(rows, Request.GetByID(id), up) == (rows, a0);
    }
  }

  lemma {:induction false} SameFindKept(before: Rows, after: Rows, id: int)
    requires forall other :: other != id ==> Find(after, other) == Find(before, other)
    ensures OthersKept(before, after, id)
  {
    forall other, a: Answer | other != id ensures Shows(after, other, a) <==> Shows(before, other, a) {
      ShownIs(before, other);
      ShownIs(after, other);
    }
  }

  // ---- one call and the next ----

  /** Deleted means gone; any other answer means nothing changed. */
  lemma {:induction false} DeleteMeans(rows: Rows, id: int, w: World, after: Rows, a: Answer)
    requires (after, a) == Serve(rows, Request.Delete(id), w)
    ensures a == Deleted <==> w.dbReads && w.dbWrites && !Shows(rows, id, UserNotFound)
    ensures a == Deleted ==> Shows(after, id, UserNotFound) && OthersKept(rows, after, id)
    ensures a != Deleted ==> after == rows
    ensures a == UserNotFound <==> !w.dbReads || Shows(rows, id, UserNotFound)
  {
    ShownIs(rows, id);
    ShownIs(after, id);
    SameFindKept(rows, after, id);
  }

  /** Some user with this email is shown. */
  ghost predicate EmailShown(rows: Rows, email: string) {
    exists id, u :: Shows(rows, id, Found(u)) && u.email == email
  }

  lemma {:induction false} EmailShownIs(rows: Rows, email: string)
    ensures EmailShown(rows, email) <==> EmailTaken(rows, email)
  {
    if EmailTaken(rows, email) {
      var id :| id in rows && !rows[id].deleted && rows[id].user.email == email;
      ShownIs(rows, id);
      assert Shows(rows, id, Found(ToUserResponse(rows[id].user)));
    }
    if EmailShown(rows, email) {
      var id, u :| Shows(rows, id, Found(u)) && u.email == email;
      ShownIs(rows, id);
    }
  }

  /** The created user is shown with what was asked for, and its email is taken from then on. */
  lemma {:induction false} CreateMeans(
    rows: Rows, email: string, password: string, name: string, phone: string, w: World, after: Rows, a: Answer)
    requires w.newId !in rows
    requires (after, a) == Serve(rows, Request.Create(email, password, name, phone), w)
    ensures a == UserAlreadyExists <==> w.dbReads && EmailShown(rows, email)
    ensures a.Found? <==> w.dbReads && w.dbWrites && w.hash.Some? && !EmailShown(rows, email)
    ensures a.Found? ==>
              && a == Found(UserResponse(w.newId, email, name, phone, 1, w.now, w.now))
              && Shows(rows, w.newId, UserNotFound) && Shows(after, w.newId, a) && OthersKept(rows, after, w.newId)
              && EmailShown(after, email)
              && w.newId in after && after[w.newId].user.password == w.hash.value
    ensures !a.Found? ==> after == rows
  {
    EmailShownIs(rows, email);
    ShownIs(rows, w.newId);
    ShownIs(after, w.newId);
    SameFindKept(rows, after, w.newId);
  }

  /** A second Create with the same email is refused while the first user is there. */
  lemma {:induction false} CreateTwice(
    rows: Rows, email: string, password: string, name: string, phone: string, w: World, after: Rows, a: Answer,
    password': string, name': string, phone': string, w': World)
    requires w.newId !in rows && w'.newId !in after && w'.dbReads
    requires (after, a) == Serve(rows, Request.Create(email, password, name, phone), w) && a.Found?
    ensures Serve(after, Request.Create(email, password', name', phone'), w') == (after, UserAlreadyExists)
  {
    CreateMeans(rows, email, password, name, phone, w, after, a);
    var (later, b) := Serve(after, Request.Create(email, password', name', phone'), w');
    CreateMeans(after, email, password', name', phone', w', later, b);
  }

  /** Each value given is the one shown, and everything else is as it was. */
  lemma {:induction false} UpdateMeans(
    rows: Rows, id: int, name: string, phone: string, status: Option<int>, w: World, was: UserResponse,
    after: Rows, a: Answer)
    requires IdsMatch(rows) && Shows(rows, id, Found(was))
    requires (after, a) == Serve(rows, Request.Update(id, name, phone, status), w)
    ensures a.Found? <==> w.dbReads && w.dbWrites
    ensures a.Found? ==> Shows(after, id, a) && OthersKept(rows, after, id)
    ensures a.Found? ==>
              && a.user.name == (if name != "" then name else was.name)
              && a.user.phone == (if phone != "" then phone else was.phone)
              && a.user.status == (if status.Some? then status.value else was.status)
              && a.user.updatedAt == w.now
              && a.user.id == was.id == id && a.user.email == was.email && a.user.createdAt == was.createdAt
    ensures a.Found? ==> id in rows && id in after && after[id].user.password == rows[id].user.password
    ensures !a.Found? ==> after == rows
  {
    ShownIs(rows, id);
    ShownIs(after, id);
    SameFindKept(rows, after, id);
  }

  /** Nobody to update: nothing changes. */
  lemma {:induction false} UpdateMissing(
    rows: Rows, id: int, name: string, phone: string, status: Option<int>, w: World)
    requires !w.dbReads || Shows(rows, id, UserNotFound)
    ensures Serve(rows, Request.Update(id, name, phone, status), w) == (rows, UserNotFound)
  {
    ShownIs(rows, id);
  }

  // ---- whole conversations ----

  /** No two live users have the same email. */
  ghost predicate EmailsUnique(rows: Rows) {
    forall i, j :: i in rows && j in rows && !rows[i].deleted && !rows[j].deleted && i != j ==>
                     rows[i].user.email != rows[j].user.email
  }

  lemma {:induction false} EmailsStayUnique(rows: Rows, q: Request, w: World)
    requires EmailsUnique(rows) && (q.Create? ==> w.newId !in rows)
    ensures EmailsUnique(Serve(rows, q, w).0)
  {
    match q { case Create(_, _, _, _) => case GetByID(_) => case Update(_, _, _, _) => case Delete(_) => }
  }

  lemma {:induction false} EmailsUniqueAt(rows: Rows, calls: seq<Call>, i: nat)
    requires EmailsUnique(rows) && FreshIds(rows, calls) && i <= |calls|
    ensures EmailsUnique(RowsAt(rows, calls, i))
  {
    if i > 0 {
      EmailsUniqueAt(rows, calls, i - 1);
      EmailsStayUnique(RowsAt(rows, calls, i - 1), calls[i - 1].request, calls[i - 1].world);
    }
  }

  predicate Gone(rows: Rows, id: int) { id in rows && rows[id].deleted }

  lemma {:induction false} GoneStays(rows: Rows, q: Request, w: World, id: int)
    requires Gone(rows, id) && (q.Create? ==> w.newId !in rows)
    ensures Gone(Serve(rows, q, w).0, id)
  {
    match q { case Create(_, _, _, _) => case GetByID(_) => case Update(_, _, _, _) => case Delete(_) => }
  }

  lemma {:induction false} GoneAt(rows: Rows, calls: seq<Call>, i: nat, j: nat, id: int)
    requires FreshIds(rows, calls) && i <= j <= |calls| && Gone(RowsAt(rows, calls, i), id)
    ensures Gone(RowsAt(rows, calls, j), id)
  {
    if i < j {
      GoneAt(rows, calls, i, j - 1, id);
      GoneStays(RowsAt(rows, calls, j - 1), calls[j - 1].request, calls[j - 1].world, id);
    }
  }

  /** Once deleted, a user is never answered again, whatever the cache held, kept or lost. */
  lemma {:induction false} DeletedForGood(rows: Rows, calls: seq<Call>, answers: seq<Answer>, i: nat, j: nat)
    requires FreshIds(rows, calls) && AllAgree(rows, calls, answers) && i < j < |answers|
    requires calls[i].request.Delete? && answers[i] == Deleted
    requires calls[j].request == Request.GetByID(calls[i].request.id)
    ensures answers[j] == UserNotFound || (!calls[j].world.dbReads && answers[j] == Failed)
  {
    var id := calls[i].request.id;
    assert Gone(RowsAt(rows, calls, i + 1), id);
    GoneAt(rows, calls, i + 1, j, id);
  }
}
