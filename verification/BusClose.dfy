/**
 Publish, its async handlers and Close interleaved (pkg/event/bus.go). Holding
 the read lock, each wg.Add, each dispatch and each wg.Done is its own step, and
 any number of publishers, handlers and closers take part.
 */
module BusClose {

  /** One Publish call; a target is `true` when its subscriber is async. */
  datatype Publisher =
    | Locked                                    // has the read lock, closed not yet looked at
    | Enlisting(targets: seq<bool>, next: nat)  // adds to the wait group, still under the read lock
    | Dispatching(targets: seq<bool>, next: nat)
    | Finished(refused: bool)

  datatype Closer = Waiting | Returned

  datatype State = State(
    closed: bool,
    count: int,               // the wait group
    publishers: seq<Publisher>,
    running: nat,             // handler goroutines that have not called wg.Done
    closers: seq<Closer>)

  const NEW := State(false, 0, [], 0, [])

  datatype Step =
    | ReadLock
    | Look(p: nat, targets: seq<bool>)  // the snapshot when open
    | Enlist(p: nat)
    | ReadUnlock(p: nat)
    | Dispatch(p: nat)
    | HandlerDone
    | SetClosed                         // a new Close call, under the write lock
    | WaitReturns(c: nat)

  predicate Reading(p: Publisher) { p.Locked? || p.Enlisting? }

  predicate Allowed(s: State, step: Step) {
    match step
    case ReadLock => true
    case Look(p, _) => p < |s.publishers| && s.publishers[p].Locked?
    case Enlist(p) =>
      p < |s.publishers| && s.publishers[p].Enlisting? && s.publishers[p].next < |s.publishers[p].targets|
    case ReadUnlock(p) =>
      p < |s.publishers| && s.publishers[p].Enlisting? && s.publishers[p].next >= |s.publishers[p].targets|
    case Dispatch(p) => p < |s.publishers| && s.publishers[p].Dispatching?
    case HandlerDone => s.running > 0
    case SetClosed => forall p :: 0 <= p < |s.publishers| ==> !Reading(s.publishers[p])
    case WaitReturns(c) => c < |s.closers| && s.closers[c].Waiting? && s.count == 0
  }

  function Next(s: State, step: Step): State
    requires Allowed(s, step)
  {
    match step
    case ReadLock => s.(publishers := s.publishers + [Locked])
    case Look(p, targets) =>
      s.(publishers := s.publishers[p := if s.closed then Finished(true) else Enlisting(targets, 0)])
    case Enlist(p) =>
      var pub := s.publishers[p];
      s.(count := s.count + (if pub.targets[pub.next] then 1 else 0),
         publishers := s.publishers[p := Enlisting(pub.targets, pub.next + 1)])
    case ReadUnlock(p) =>
      s.(publishers := s.publishers[p := Dispatching(s.publishers[p].targets, 0)])
    case Dispatch(p) =>
      var pub := s.publishers[p];
      if pub.next >= |pub.targets| then s.(publishers := s.publishers[p := Finished(false)])
      else
        s.(running := s.running + (if pub.targets[pub.next] then 1 else 0),
           publishers := s.publishers[p := Dispatching(pub.targets, pub.next + 1)])
    case HandlerDone => s.(running := s.running - 1, count := s.count - 1)
    case SetClosed => s.(closed := true, closers := s.closers + [Waiting])
    case WaitReturns(c) => s.(closers := s.closers[c := Returned])
  }

  ghost predicate IsRun(at: seq<State>, steps: seq<Step>) {
    && |at| == |steps| + 1 && at[0] == NEW
    && forall i {:trigger steps[i]} :: 0 <= i < |steps| ==>
        Allowed(at[i], steps[i]) && at[i + 1] == Next(at[i], steps[i])
  }

  // ---- outstanding deliveries ----

  ghost function AsyncIn(targets: seq<bool>): nat {
    if targets == [] then 0 else (if targets[0] then 1 else 0) + AsyncIn(targets[1..])
  }

  lemma {:induction false} AsyncAppend(s: seq<bool>, t: seq<bool>)
    ensures AsyncIn(s + t) == AsyncIn(s) + AsyncIn(t)
  {
    if s == [] {
      assert s + t == t;
    } else {
      AsyncAppend(s[1..], t);
      assert (s + t)[1..] == s[1..] + t;
    }
  }

  /** Async deliveries this publisher has added to the wait group and not yet started. */
  ghost function Registered(p: Publisher): nat {
    match p
    case Enlisting(targets, next) => if next <= |targets| then AsyncIn(targets[..next]) else 0
    case Dispatching(targets, next) => if next <= |targets| then AsyncIn(targets[next..]) else 0
    case _ => 0
  }

  ghost function RegisteredBy(ps: seq<Publisher>): nat {
    if ps == [] then 0 else RegisteredBy(ps[..|ps| - 1]) + Registered(ps[|ps| - 1])
  }

  /** Registered with the wait group, handler not yet done. */
  ghost function Outstanding(s: State): nat { RegisteredBy(s.publishers) + s.running }

  lemma {:induction false} RegisteredUpdate(ps: seq<Publisher>, p: nat, x: Publisher)
    requires p < |ps|
    ensures RegisteredBy(ps[p := x]) == RegisteredBy(ps) - Registered(ps[p]) + Registered(x)
  {
    var n := |ps| - 1;
    if p == n {
      assert ps[p := x][..n] == ps[..n];
    } else {
      RegisteredUpdate(ps[..n], p, x);
      assert ps[p := x][..n] == ps[..n][p := x];
    }
  }

  lemma {:induction false} RegisteredMember(ps: seq<Publisher>, p: nat)
    requires p < |ps|
    ensures Registered(ps[p]) <= RegisteredBy(ps)
  {
    if p < |ps| - 1 {
      RegisteredMember(ps[..|ps| - 1], p);
    }
  }

  // ---- what every step keeps ----

  predicate InBounds(p: Publisher) { p.Enlisting? || p.Dispatching? ==> p.next <= |p.targets| }

  ghost predicate Inv(s: State) {
    && s.count == Outstanding(s)
    && (forall p :: 0 <= p < |s.publishers| ==> InBounds(s.publishers[p]))
    && (s.closed ==> forall p :: 0 <= p < |s.publishers| ==> !s.publishers[p].Enlisting?)
    && (s.closed <==> s.closers != [])
    && (Returned in s.closers ==> s.count == 0)
  }

  lemma {:induction false} EnlistCounts(targets: seq<bool>, next: nat)
    requires next < |targets|
    ensures Registered(Enlisting(targets, next + 1)) == Registered(Enlisting(targets, next)) +
        if targets[next] then 1 else 0
    ensures Registered(Dispatching(targets, next)) == Registered(Dispatching(targets, next + 1)) +
        if targets[next] then 1 else 0
  {
    AsyncAppend(targets[..next], [targets[next]]);
    assert targets[..next + 1] == targets[..next] + [targets[next]];
    assert targets[next..][1..] == targets[next + 1..];
  }

  /** The wait group moves with the outstanding deliveries. */
  lemma {:induction false} CountKept(s: State, step: Step)
    requires Inv(s) && Allowed(s, step)
    ensures Next(s, step).count == Outstanding(Next(s, step))
  {
    match step
    case ReadLock =>
      assert Next(s, step).publishers[..|s.publishers|] == s.publishers;
    case Look(p, targets) =>
      RegisteredUpdate(s.publishers, p, if s.closed then Finished(true) else Enlisting(targets, 0));
    case Enlist(p) =>
      var pub := s.publishers[p];
      RegisteredUpdate(s.publishers, p, Enlisting(pub.targets, pub.next + 1));
      EnlistCounts(pub.targets, pub.next);
    case ReadUnlock(p) =>
      var pub := s.publishers[p];
      RegisteredUpdate(s.publishers, p, Dispatching(pub.targets, 0));
      assert pub.targets[..pub.next] == pub.targets[0..];
    case Dispatch(p) =>
      var pub := s.publishers[p];
      RegisteredUpdate(s.publishers, p, Next(s, step).publishers[p]);
      if pub.next < |pub.targets| {
        EnlistCounts(pub.targets, pub.next);
      }
    case HandlerDone =>
    case SetClosed =>
    case WaitReturns(c) =>
  }

  lemma {:induction false} NextKeeps(s: State, step: Step)
    requires Inv(s) && Allowed(s, step)
    ensures Inv(Next(s, step))
  {
    CountKept(s, step);
    PublishersKept(s, step);
    ClosersKept(s, step);
  }

  lemma {:induction false} PublishersKept(s: State, step: Step)
    requires Inv(s) && Allowed(s, step)
    ensures var t := Next(s, step);
      && (forall p :: 0 <= p < |t.publishers| ==> InBounds(t.publishers[p]))
      && (t.closed ==> forall p :: 0 <= p < |t.publishers| ==> !t.publishers[p].Enlisting?)
  {
    var t := Next(s, step);
    forall p | 0 <= p < |t.publishers|
      ensures InBounds(t.publishers[p]) && (t.closed ==> !t.publishers[p].Enlisting?)
    {
      OnePublisherKept(s, step, p);
    }
  }

  lemma {:induction false} OnePublisherKept(s: State, step: Step, p: nat)
    requires Inv(s) && Allowed(s, step) && p < |Next(s, step).publishers|
    ensures var t := Next(s, step); InBounds(t.publishers[p]) && (t.closed ==> !t.publishers[p].Enlisting?)
  {
    assert p < |s.publishers| ==> InBounds(s.publishers[p]);
  }

  /** Once a closer has returned nothing is left that could move the count. */
  lemma {:induction false} ClosersKept(s: State, step: Step)
    requires Inv(s) && Allowed(s, step)
    ensures var t := Next(s, step);
      (t.closed <==> t.closers != []) && (Returned in t.closers ==> t.count == 0)
  {
    if Returned in s.closers {
      NothingOutstanding(s);
    }
  }

  /** With a count of zero nothing is running and no publisher has an async delivery left to start. */
  lemma {:induction false} NothingOutstanding(s: State)
    requires Inv(s) && s.count == 0
    ensures s.running == 0
    ensures forall p :: 0 <= p < |s.publishers| ==> Registered(s.publishers[p]) == 0
  {
    forall p | 0 <= p < |s.publishers| ensures Registered(s.publishers[p]) == 0 {
      RegisteredMember(s.publishers, p);
    }
  }

  lemma {:induction false} RunKeeps(at: seq<State>, steps: seq<Step>, i: nat)
    requires IsRun(at, steps) && i <= |steps|
    ensures Inv(at[i])
  {
    if i > 0 {
      RunKeeps(at, steps, i - 1);
      NextKeeps(at[i - 1], steps[i - 1]);
    }
  }

  // ---- what holds of every run ----

  /** A step that starts an async handler or ends one. */
  predicate TouchesHandlers(s: State, step: Step)
    requires Allowed(s, step)
  {
    || step.HandlerDone?
    || (step.Dispatch? && var pub := s.publishers[step.p]; pub.next < |pub.targets| && pub.targets[pub.next])
  }

  /** The wait group counts exactly the outstanding deliveries, never below zero, and adds none once closed. */
  lemma {:induction false} WaitGroupExact(at: seq<State>, steps: seq<Step>, i: nat)
    requires IsRun(at, steps) && i <= |steps|
    ensures at[i].count == Outstanding(at[i]) && at[i].count >= 0
    ensures i < |steps| && steps[i].HandlerDone? ==> at[i].count > 0
    ensures i < |steps| && steps[i].Enlist? ==> !at[i].closed
  {
    RunKeeps(at, steps, i);
  }

  /** A closer may return exactly when nothing is outstanding. */
  lemma {:induction false} CloseWaitsExactly(at: seq<State>, steps: seq<Step>, i: nat, c: nat)
    requires IsRun(at, steps) && i <= |steps| && c < |at[i].closers| && at[i].closers[c].Waiting?
    ensures Allowed(at[i], WaitReturns(c)) <==>
      at[i].running == 0 && forall p :: 0 <= p < |at[i].publishers| ==> Registered(at[i].publishers[p]) == 0
  {
    RunKeeps(at, steps, i);
    if at[i].count == 0 {
      NothingOutstanding(at[i]);
    } else if forall p :: 0 <= p < |at[i].publishers| ==> Registered(at[i].publishers[p]) == 0 {
      NoneRegistered(at[i].publishers);
    }
  }

  lemma {:induction false} NoneRegistered(ps: seq<Publisher>)
    requires forall p :: 0 <= p < |ps| ==> Registered(ps[p]) == 0
    ensures RegisteredBy(ps) == 0
  {
    if ps != [] {
      NoneRegistered(ps[..|ps| - 1]);
    }
  }

  lemma {:induction false} ReturnedStays(at: seq<State>, steps: seq<Step>, i: nat, j: nat)
    requires IsRun(at, steps) && i <= j <= |steps| && Returned in at[i].closers
    ensures Returned in at[j].closers
  {
    if i < j {
      ReturnedStays(at, steps, i, j - 1);
      var s, step := at[j - 1], steps[j - 1];
      var c :| 0 <= c < |s.closers| && s.closers[c] == Returned;
      assert Next(s, step).closers[c] == Returned;
    }
  }

  /** Once some Close has returned, no async handler runs, none is left to start, and none ever starts. */
  lemma {:induction false} QuietAfterClose(at: seq<State>, steps: seq<Step>, i: nat, j: nat)
    requires IsRun(at, steps) && i <= j <= |steps| && Returned in at[i].closers
    ensures at[j].closed && at[j].running == 0
    ensures forall p :: 0 <= p < |at[j].publishers| ==> Registered(at[j].publishers[p]) == 0
    ensures j < |steps| ==> !TouchesHandlers(at[j], steps[j])
  {
    ReturnedStays(at, steps, i, j);
    RunKeeps(at, steps, j);
    NothingOutstanding(at[j]);
    if j < |steps| && steps[j].Dispatch? {
      var pub := at[j].publishers[steps[j].p];
      if pub.next < |pub.targets| {
        EnlistCounts(pub.targets, pub.next);
      }
    }
  }

  /** A Publish that looks after Close has closed the bus is refused and delivers nothing. */
  lemma {:induction false} RefusedAfterClose(at: seq<State>, steps: seq<Step>, i: nat)
    requires IsRun(at, steps) && i < |steps| && steps[i].Look?
    ensures at[i + 1].publishers[steps[i].p] == if at[i].closers == [] then Enlisting(steps[i].targets, 0)
        else Finished(true)
  {
    RunKeeps(at, steps, i);
  }
}
