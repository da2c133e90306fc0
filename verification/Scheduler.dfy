/**
 One Scheduler and its heartbeat goroutine (pkg/scheduler/scheduler.go) as a
 step machine: every access to shared state is its own step, so the two threads
 interleave everywhere the program lets them.
 */
module Scheduler {
  import opened RedisLock

  /** Where the calling thread stands: one Start, then any number of Stops. */
  datatype Main =
    | Idle        // before Start
    | Granted     // Acquire said yes, lockOwned not yet set
    | Owning      // lockOwned set, heartbeat not yet started
    | Beating     // heartbeat started, cron not yet
    | CronOn      // cron.Start returned, cronStarted not yet set
    | Initing     // running Job.Init
    | FailStop    // an Init failed: about to stop cron
    | FailClear   // cron stopped, cronStarted not yet cleared
    | Release     // entering releaseLock
    | Joining     // heartbeat cancelled, waiting for it to end
    | Releasing   // about to call LockProvider.Release
    | Released    // Release returned, lockOwned not yet cleared
    | Ready       // no call running
    | Stopping    // Stop called, cronStarted not yet read
    | StopCron    // about to stop cron
    | StopClear   // cron stopped, cronStarted not yet cleared

  /** Where the heartbeat goroutine stands. */
  datatype Beat =
    | Unborn    // not started
    | Waiting   // in its select
    | Renewing  // Renew in flight
    | LossStop  // Renew said ErrLockNotHeld: about to stop cron
    | LossClear // cron stopped, cronStarted not yet cleared
    | Done

  /** What has happened so far; nothing the program can read. */
  datatype History = History(
    acquires: nat, releases: nat,
    failed: bool,       // a Job.Init failed
    lost: bool,         // the heartbeat stopped cron
    early: bool,        // ... before Start had reached cron.Start
    late: bool)         // the heartbeat cleared cronStarted between Start setting it and a stop reading it

  datatype Instance = Instance(
    main: Main, beat: Beat,
    cron: bool,         // cron is running
    cronStarted: bool,  // the atomic flag
    lockOwned: bool,
    cancelled: bool,    // heartbeatCancel was called
    lock: bool,         // redisLockProvider.lock is set
    past: History)

  const NOTHING := History(0, 0, false, false, false, false)
  const FRESH := Instance(Idle, Unborn, false, false, false, false, false, NOTHING)

  datatype Op =
    | Acquire(acquired: Reply) | Own | StartBeat | CronStart | MarkStarted | InitsDone | InitFails
    | MainCronStop | MainClear | CancelBeat | JoinBeat | CallRelease(released: Reply) | DropOwned
    | CallStop | LoadStarted
    | BeatTick | BeatCancel | BeatReply(renewed: Reply) | BeatCronStop | BeatClear | BeatPanic

  predicate Allowed(s: Instance, op: Op) {
    match op
    case Acquire(_) => s.main.Idle?
    case Own => s.main.Granted?
    case StartBeat => s.main.Owning?
    case CronStart => s.main.Beating?
    case MarkStarted => s.main.CronOn?
    case InitsDone => s.main.Initing?
    case InitFails => s.main.Initing?
    case MainCronStop => s.main.FailStop? || s.main.StopCron?
    case MainClear => s.main.FailClear? || s.main.StopClear?
    case CancelBeat => s.main.Release?
    case JoinBeat => s.main.Joining? && s.beat.Done?
    case CallRelease(_) => s.main.Releasing?
    case DropOwned => s.main.Released?
    case CallStop => s.main.Ready?
    case LoadStarted => s.main.Stopping?
    case BeatTick => s.beat.Waiting?
    case BeatCancel => s.beat.Waiting? && s.cancelled
    case BeatReply(_) => s.beat.Renewing?
    case BeatCronStop => s.beat.LossStop?
    case BeatClear => s.beat.LossClear?
    case BeatPanic => s.beat.Renewing?
  }

  /** Start has not yet reached cron.Start. */
  predicate BeforeCron(m: Main) { m.Owning? || m.Beating? }

  /** Start has set cronStarted and no stop has been decided since. */
  predicate Marked(s: Instance) {
    s.main.Initing? || ((s.main.Ready? || s.main.Stopping?) && s.lockOwned)
  }

  function Next(s: Instance, op: Op): Instance
    requires Allowed(s, op)
  {
    match op
    case Acquire(Yes) => s.(main := Granted, lock := true, past := s.past.(acquires := s.past.acquires + 1))
    case Acquire(_) => s.(main := Ready)
    case Own => s.(main := Owning, lockOwned := true)
    case StartBeat => s.(main := Beating, beat := Waiting)
    case CronStart => s.(main := CronOn, cron := true)
    case MarkStarted => s.(main := Initing, cronStarted := true)
    case InitsDone => s.(main := Ready)
    case InitFails => s.(main := FailStop, past := s.past.(failed := true))
    case MainCronStop => s.(main := if s.main.FailStop? then FailClear else StopClear, cron := false)
    case MainClear => s.(main := Main.Release, cronStarted := false)
    case CancelBeat => if !s.lockOwned then s.(main := Ready) else s.(main := Joining, cancelled := true)
    case JoinBeat => s.(main := Releasing)
    case CallRelease(r) =>
      s.(main := Released, lock := r.Failed? && s.lock, past := s.past.(releases := s.past.releases + 1))
    case DropOwned => s.(main := Ready, lockOwned := false)
    case CallStop => s.(main := Stopping)
    case LoadStarted => s.(main := if s.cronStarted then StopCron else Main.Release)
    case BeatTick => s.(beat := Renewing)
    case BeatCancel => s.(beat := Done)
    case BeatReply(r) => s.(beat := if r.No? then LossStop else Waiting)
    case BeatCronStop =>
      s.(beat := LossClear, cron := false, past := s.past.(lost := true, early := BeforeCron(s.main)))
    case BeatClear => s.(beat := Done, cronStarted := false, past := s.past.(late := Marked(s)))
    case BeatPanic => s.(beat := Done)
  }

  /** `at` lists the states a fresh scheduler goes through under the steps `ops`. */
  ghost predicate IsRun(at: seq<Instance>, ops: seq<Op>) {
    && |at| == |ops| + 1
    && at[0] == FRESH
    && forall i {:trigger ops[i]} :: 0 <= i < |ops| ==> Allowed(at[i], ops[i]) && at[i + 1] == Next(at[i], ops[i])
  }

  // ---- what every step keeps ----

  /** Between deciding to release and having released. */
  predicate Leaving(m: Main) { m.Release? || m.Joining? || m.Releasing? || m.Released? }

  /** What the calling thread's position says about the flags. */
  predicate PhaseInv(s: Instance) {
    match s.main
    case Idle => !s.lockOwned && !s.cronStarted && !s.cancelled && s.past.acquires == 0
    case Granted => !s.lockOwned && !s.cronStarted && !s.cancelled && s.lock && s.past.acquires == 1
    case Owning => s.lockOwned && !s.cronStarted && !s.cancelled
    case Beating => s.lockOwned && !s.cancelled && !s.cronStarted && !s.cron
    case CronOn => s.lockOwned && !s.cancelled && !s.cronStarted
    case Initing => s.lockOwned && !s.cancelled
    case FailStop => s.lockOwned && !s.cancelled
    case FailClear => s.lockOwned && !s.cancelled && !s.cron
    case Release => !s.cronStarted
    case Joining => s.lockOwned && s.cancelled && !s.cronStarted
    case Releasing => s.lockOwned && s.beat.Done? && !s.cronStarted
    case Released => s.lockOwned && s.beat.Done? && !s.cronStarted
    case Ready => s.lockOwned ==> !s.cancelled
    case Stopping => s.lockOwned ==> !s.cancelled
    case StopCron => s.lockOwned && !s.cancelled
    case StopClear => s.lockOwned && !s.cancelled && !s.cron
  }

  /** Ownership decides which counts and which heartbeat are possible. */
  predicate OwnInv(s: Instance) {
    && s.past.acquires <= 1
    && s.past.releases == (if s.past.acquires == 1
        && (s.main.Released? || (!s.lockOwned && !s.main.Granted?)) then 1 else 0)
    && (s.lockOwned ==> s.past.acquires == 1)
    && (s.lockOwned && !s.main.Released? ==> s.lock)
    && (s.beat.Unborn? <==> s.past.acquires == 0 || s.main.Granted? || s.main.Owning?)
    && (!s.lockOwned && !s.main.Granted? ==> !s.cronStarted && (s.past.acquires == 1 ==> s.beat.Done?))
    && (s.main.Ready? && s.past.failed ==> s.past.acquires == 1 && !s.lockOwned)
  }

  /** What losing the lock does to cron. */
  predicate LossInv(s: Instance) {
    && (s.past.early ==> s.past.lost)
    && (s.beat.LossClear? ==> s.past.lost && !s.past.late)
    && (s.past.lost ==> s.beat.LossClear? || s.beat.Done?)
    && (s.past.late ==> s.past.lost && s.beat.Done?)
    && (s.past.acquires == 0 || s.main.Granted? || s.main.Owning? ==> !s.past.lost && !s.past.failed && !s.cron)
    && (BeforeCron(s.main) || s.main.CronOn? ==> !s.past.late && !s.past.failed)
    && (BeforeCron(s.main) ==> !s.cron && s.past.lost == s.past.early)
    && (s.past.failed ==> !Marked(s) && !s.main.StopCron? && !s.main.StopClear?)
    && (s.main.FailStop? || s.main.FailClear? ==> s.past.failed)
    && (s.main.StopCron? || s.main.StopClear? ==> !s.past.late)
  }

  /** When cron is on, from cron.Start to the end. */
  predicate CronInv(s: Instance) {
    // from cron.Start until a stop, cron runs unless the heartbeat stopped it after cron.Start
    && (s.main.CronOn? || Marked(s) || s.main.FailStop? || s.main.StopCron? ==>
          s.cron == (!s.past.lost || s.past.early))
    && (Marked(s) ==> s.cronStarted == !s.past.late)
    && (Leaving(s.main) || (!s.lockOwned && s.past.acquires == 1) ==>
          (s.cron <==> s.past.early && s.past.late && !s.past.failed))
  }

  predicate Inv(s: Instance) { PhaseInv(s) && OwnInv(s) && LossInv(s) && CronInv(s) }

  /** A step of the heartbeat goroutine. */
  predicate OfBeat(op: Op) {
    op.BeatTick? || op.BeatCancel? || op.BeatReply? || op.BeatCronStop? || op.BeatClear? || op.BeatPanic?
  }

  /** A step of Start up to the end of the Inits. */
  predicate OfStart(op: Op) {
    || op.Acquire? || op.Own? || op.StartBeat? || op.CronStart? || op.MarkStarted? || op.InitsDone? || op.InitFails?
  }

  /** One step of the heartbeat. */
  lemma {:induction false} BeatKeeps(s: Instance, op: Op)
    requires Inv(s) && Allowed(s, op) && OfBeat(op)
    ensures Inv(Next(s, op))
  {
    match op { case BeatReply(_) => case _ => }
  }

  lemma {:induction false} StartKeeps(s: Instance, op: Op)
    requires Inv(s) && Allowed(s, op) && OfStart(op)
    ensures Inv(Next(s, op))
  {
    match op { case Acquire(_) => case _ => }
  }

  lemma {:induction false} StopKeeps(s: Instance, op: Op)
    requires Inv(s) && Allowed(s, op) && !OfBeat(op) && !OfStart(op)
    ensures Inv(Next(s, op))
  {
    match op { case CallRelease(_) => case _ => }
  }

  lemma {:induction false} NextKeeps(s: Instance, op: Op)
    requires Inv(s) && Allowed(s, op)
    ensures Inv(Next(s, op))
  {
    if OfBeat(op) {
      BeatKeeps(s, op);
    } else if OfStart(op) {
      StartKeeps(s, op);
    } else {
      StopKeeps(s, op);
    }
  }

  lemma {:induction false} RunKeeps(at: seq<Instance>, ops: seq<Op>, i: nat)
    requires IsRun(at, ops) && i <= |ops|
    ensures Inv(at[i])
  {
    if i > 0 {
      RunKeeps(at, ops, i - 1);
      NextKeeps(at[i - 1], ops[i - 1]);
    }
  }

  // ---- what holds of every run ----

  /**
   Release is called at most once, only after a successful Acquire, only once
   the heartbeat has ended, and with cron off unless the lock was lost in the
   gap before cron.Start and nothing stopped cron since.
   */
  lemma {:induction false} ReleaseSafe(at: seq<Instance>, ops: seq<Op>, i: nat)
    requires IsRun(at, ops) && i < |ops| && ops[i].CallRelease?
    ensures at[i].past.acquires == 1 && at[i].past.releases == 0
    ensures at[i].beat.Done?
    ensures at[i].cron <==> at[i].past.early && at[i].past.late && !at[i].past.failed
    ensures forall j :: i < j < |ops| ==> !ops[j].CallRelease? && !OfBeat(ops[j])
  {
    RunKeeps(at, ops, i);
    forall j | i < j < |ops| ensures !ops[j].CallRelease? && !OfBeat(ops[j]) {
      AfterRelease(at, ops, i, j);
    }
  }

  lemma {:induction false} AfterRelease(at: seq<Instance>, ops: seq<Op>, i: nat, j: nat)
    requires IsRun(at, ops) && i < j < |ops| && ops[i].CallRelease?
    ensures !ops[j].CallRelease? && !OfBeat(ops[j])
  {
    ReleasedStays(at, ops, i + 1, j);
    RunKeeps(at, ops, j);
  }

  lemma {:induction false} ReleasedStays(at: seq<Instance>, ops: seq<Op>, i: nat, j: nat)
    requires IsRun(at, ops) && i <= j <= |ops| && at[i].past.releases > 0
    ensures at[j].past.releases > 0
  {
    if i < j {
      ReleasedStays(at, ops, i, j - 1);
      ReleasesGrow(at[j - 1], ops[j - 1]);
    }
  }

  lemma {:induction false} ReleasesGrow(s: Instance, op: Op)
    requires Allowed(s, op)
    ensures Next(s, op).past.releases >= s.past.releases
  {
    match op { case CallRelease(_) => case Acquire(_) => case _ => }
  }

  /** When no call is running, every successful Acquire not still owned was released, failed Inits included. */
  lemma {:induction false} ReadyBalanced(at: seq<Instance>, ops: seq<Op>, i: nat)
    requires IsRun(at, ops) && i <= |ops| && at[i].main.Ready?
    ensures at[i].past.releases == at[i].past.acquires - (if at[i].lockOwned then 1 else 0)
    ensures at[i].past.failed ==> at[i].past.releases == at[i].past.acquires == 1 && !at[i].cron && at[i].beat.Done?
  {
    RunKeeps(at, ops, i);
  }

  /**
   Once nothing is owned, the only step left is another Stop, and a whole Stop
   gives back the very same state.
   */
  lemma {:induction false} StopAgain(at: seq<Instance>, ops: seq<Op>, i: nat)
    requires IsRun(at, ops) && i <= |ops| && at[i].main.Ready? && !at[i].lockOwned
    ensures forall op :: Allowed(at[i], op) <==> op == CallStop
    ensures i < |ops| ==> ops[i] == CallStop
    ensures i + 1 < |ops| ==> ops[i + 1] == LoadStarted
    ensures i + 2 < |ops| ==> ops[i + 2] == CancelBeat && at[i + 3] == at[i]
  {
    RunKeeps(at, ops, i);
    OnlyStop(at[i]);
    if i + 2 < |ops| {
      WholeStop(at[i], ops[i], ops[i + 1], ops[i + 2]);
    } else if i + 1 < |ops| {
      NextKeeps(at[i], ops[i]);
      OnlyStop(at[i + 1]);
    }
  }

  /** With nothing owned, each state of a Stop has one way on. */
  lemma {:induction false} OnlyStop(s: Instance)
    requires Inv(s) && !s.lockOwned && (s.main.Ready? || s.main.Stopping? || s.main.Release?)
    ensures forall op :: Allowed(s, op) <==>
      op == (if s.main.Ready? then CallStop else if s.main.Stopping? then LoadStarted else CancelBeat)
  {
  }

  lemma {:induction false} WholeStop(s: Instance, op1: Op, op2: Op, op3: Op)
    requires Inv(s) && !s.lockOwned && s.main.Ready?
    requires Allowed(s, op1) && Allowed(Next(s, op1), op2) && Allowed(Next(Next(s, op1), op2), op3)
    ensures op1 == CallStop && op2 == LoadStarted && op3 == CancelBeat
    ensures Next(Next(Next(s, op1), op2), op3) == s
  {
    OnlyStop(s);
    NextKeeps(s, op1);
    OnlyStop(Next(s, op1));
    NextKeeps(Next(s, op1), op2);
    OnlyStop(Next(Next(s, op1), op2));
  }

  /**
   Losing the lock after line 88 turns cron off for good; losing it before
   cron.Start leaves cron running. Once Start has marked cron as started:
   */
  lemma {:induction false} LossStopsCron(at: seq<Instance>, ops: seq<Op>, i: nat)
    requires IsRun(at, ops) && i <= |ops| && Marked(at[i])
    ensures at[i].cron <==> !at[i].past.lost || at[i].past.early
    ensures at[i].cronStarted <==> !at[i].past.late
    ensures at[i].past.late ==> at[i].past.lost && at[i].beat.Done?
  {
    RunKeeps(at, ops, i);
  }

  /**
   After a completed Stop, cron is off exactly when the lock was not lost in the
   gap with the flag cleared afterwards.
   */
  lemma {:induction false} StopStopsCron(at: seq<Instance>, ops: seq<Op>, i: nat)
    requires IsRun(at, ops) && i <= |ops| && at[i].main.Ready? && !at[i].lockOwned
    ensures at[i].cron <==> at[i].past.early && at[i].past.late && !at[i].past.failed
    ensures !at[i].cronStarted
  {
    RunKeeps(at, ops, i);
  }

  /** A loss noticed once cron.Start has been reached keeps cron off for the rest of the run. */
  lemma {:induction false} LossFinal(at: seq<Instance>, ops: seq<Op>, i: nat, j: nat)
    requires IsRun(at, ops) && i < j <= |ops| && ops[i] == BeatCronStop && !BeforeCron(at[i].main)
    ensures !at[j].cron && at[j].past.lost && !at[j].past.early
  {
    RunKeeps(at, ops, j - 1);
    if i + 1 < j {
      LossFinal(at, ops, i, j - 1);
      LossRemembered(at[j - 1], ops[j - 1]);
    }
    RunKeeps(at, ops, j);
  }

  lemma {:induction false} LossRemembered(s: Instance, op: Op)
    requires Inv(s) && Allowed(s, op) && s.past.lost
    ensures Next(s, op).past.lost && Next(s, op).past.early == s.past.early
  {
    match op { case Acquire(_) => case BeatReply(_) => case CallRelease(_) => case _ => }
  }

  // ---- the gap ----

  /** One more step at the end of a run. */
  lemma {:induction false} Extend(at: seq<Instance>, ops: seq<Op>, op: Op) returns (at': seq<Instance>, ops': seq<Op>)
    requires IsRun(at, ops) && Allowed(at[|ops|], op)
    ensures IsRun(at', ops') && ops' == ops + [op] && at'[|ops'|] == Next(at[|ops|], op)
  {
    at', ops' := at + [Next(at[|ops|], op)], ops + [op];
  }

  /** Start up to a running heartbeat that has just been told the lock is lost, cron not yet started. */
  lemma {:induction false} LostInTheGap() returns (at: seq<Instance>, ops: seq<Op>)
    ensures IsRun(at, ops)
    ensures at[|ops|] == FRESH.(main := Beating, beat := LossClear, lockOwned := true, lock := true,
                                past := NOTHING.(acquires := 1, lost := true, early := true))
  {
    at, ops := [FRESH], [];
    at, ops := Extend(at, ops, Acquire(Yes));
    at, ops := Extend(at, ops, Own);
    at, ops := Extend(at, ops, StartBeat);
    at, ops := Extend(at, ops, BeatTick);
    at, ops := Extend(at, ops, BeatReply(No));
    at, ops := Extend(at, ops, BeatCronStop);
  }

  /**
   The loss is not followed by a stop: Start goes on to run cron without the
   lock, and a Stop afterwards finds cronStarted clear and leaves cron running.
   */
  lemma {:induction false} GapLeak() returns (at: seq<Instance>, ops: seq<Op>)
    ensures IsRun(at, ops)
    ensures at[|ops|].main.Ready? && !at[|ops|].lockOwned && at[|ops|].cron
  {
    at, ops := LostInTheGap();
    at, ops := Extend(at, ops, CronStart);
    at, ops := Extend(at, ops, MarkStarted);
    at, ops := Extend(at, ops, BeatClear);
    at, ops := Extend(at, ops, InitsDone);
    at, ops := StopWithFlagClear(at, ops);
  }

  lemma {:induction false} StopWithFlagClear(
    at0: seq<Instance>, ops0: seq<Op>)
    returns (at: seq<Instance>, ops: seq<Op>)
    requires IsRun(at0, ops0)
    requires var s := at0[|ops0|]; s.main.Ready? && s.lockOwned && !s.cronStarted && s.beat.Done?
    ensures IsRun(at, ops)
    ensures at[|ops|].main.Ready? && !at[|ops|].lockOwned && at[|ops|].cron == at0[|ops0|].cron
  {
    at, ops := at0, ops0;
    at, ops := Extend(at, ops, CallStop);
    at, ops := Extend(at, ops, LoadStarted);
    at, ops := Extend(at, ops, CancelBeat);
    at, ops := Extend(at, ops, JoinBeat);
    at, ops := Extend(at, ops, CallRelease(No));
    at, ops := Extend(at, ops, DropOwned);
  }
}
