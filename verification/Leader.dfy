/**
 Any number of schedulers sharing one lock key (pkg/scheduler/scheduler.go,
 pkg/scheduler/redislock.go): their steps and the passing of time interleave
 freely, and the server answers by its own state.
 */
module Leader {
  import opened Wrappers
  import opened RedisLock
  import S = Scheduler

  /** One process: its scheduler, the token its provider holds and its lock TTL. */
  datatype Node = Node(inst: S.Instance, token: nat, ttl: Duration)

  datatype State = State(now: int, store: Option<Entry>, issued: nat, nodes: seq<Node>)

  datatype Step = Tick(t: int) | Act(node: nat, op: S.Op)

  /** Acquired and not yet asked to release. */
  predicate Holding(s: S.Instance) { s.past.acquires > s.past.releases }

  predicate Allowed(s: State, step: Step) {
    match step
    case Tick(t) => s.now <= t
    case Act(i, op) =>
      && i < |s.nodes|
      && S.Allowed(s.nodes[i].inst, op)
      && match op
         case Acquire(r) => Honest(r, Vacant(s.store, s.now))
         case BeatReply(r) => Honest(r, Held(s.store, s.now, s.nodes[i].token))
         case CallRelease(r) => Honest(r, Held(s.store, s.now, s.nodes[i].token))
         case _ => true
  }

  function Next(s: State, step: Step): State
    requires Allowed(s, step)
  {
    match step
    case Tick(t) => s.(now := t)
    case Act(i, op) =>
      var n := s.nodes[i];
      var inst := S.Next(n.inst, op);
      match op
      case Acquire(r) =>
        s.(store := Obtain(s.store, s.now, n.ttl, s.issued, r),
           issued := if Applied(r) then s.issued + 1 else s.issued,
           nodes := s.nodes[i := n.(inst := inst, token := if r.Yes? then s.issued else n.token)])
      case BeatReply(r) =>
        s.(store := Refresh(s.store, s.now, n.ttl, r), nodes := s.nodes[i := n.(inst := inst)])
      case CallRelease(r) =>
        s.(store := Unlock(s.store, r), nodes := s.nodes[i := n.(inst := inst)])
      case _ => s.(nodes := s.nodes[i := n.(inst := inst)])
  }

  /** The step does not let the entry of a node that still holds the lock run out. */
  predicate Timely(s: State, step: Step) {
    step.Tick? && s.store.Some?
        && (exists i :: 0 <= i < |s.nodes| && Holding(s.nodes[i].inst) && s.nodes[i].token == s.store.value.token) ==>
      step.t < s.store.value.expiry
  }

  /** `at` lists the states the system goes through from unstarted schedulers. */
  ghost predicate IsRun(at: seq<State>, steps: seq<Step>) {
    && |at| == |steps| + 1
    && (forall i :: 0 <= i < |at[0].nodes| ==> at[0].nodes[i].inst == S.FRESH)
    && forall k {:trigger steps[k]} :: 0 <= k < |steps| ==>
        Allowed(at[k], steps[k]) && at[k + 1] == Next(at[k], steps[k])
  }

  ghost predicate TimelyRun(at: seq<State>, steps: seq<Step>) {
    IsRun(at, steps) && forall k {:trigger steps[k]} :: 0 <= k < |steps| ==> Timely(at[k], steps[k])
  }

  // ---- what every timely step keeps ----

  /** No Renew of this node has found the lock gone. */
  predicate Secure(s: S.Instance) { S.Inv(s) && !s.past.lost && !s.beat.LossStop? && !s.beat.LossClear? }

  ghost predicate Inv(s: State) {
    && (forall i :: 0 <= i < |s.nodes| ==> Secure(s.nodes[i].inst))
    && (forall i :: 0 <= i < |s.nodes| && Holding(s.nodes[i].inst) ==> Held(s.store, s.now, s.nodes[i].token))
    && (forall i, j :: 0 <= i < |s.nodes| && 0 <= j < |s.nodes| ==>
          Holding(s.nodes[i].inst) && Holding(s.nodes[j].inst) ==> i == j)
  }

  /** A step of one scheduler other than being told the lock is gone. */
  lemma {:induction false} SecureKept(s: S.Instance, op: S.Op)
    requires Secure(s) && S.Allowed(s, op) && !(op.BeatReply? && op.renewed.No?)
    ensures Secure(S.Next(s, op))
  {
    S.NextKeeps(s, op);
    match op { case Acquire(_) => case BeatReply(_) => case CallRelease(_) => case _ => }
  }

  /** Which steps change who holds the lock, and when the server is asked. */
  lemma {:induction false} HoldingStep(s: S.Instance, op: S.Op)
    requires S.Inv(s) && S.Allowed(s, op)
    ensures op.Acquire? ==> !Holding(s) && (Holding(S.Next(s, op)) <==> op.acquired.Yes?)
    ensures op.CallRelease? ==> Holding(s) && !Holding(S.Next(s, op))
    ensures op.BeatReply? ==> Holding(s)
    ensures !op.Acquire? && !op.CallRelease? ==> (Holding(S.Next(s, op)) <==> Holding(s))
  {
    match op { case Acquire(_) => case BeatReply(_) => case CallRelease(_) => case _ => }
  }

  /** A step keeps the invariant exactly when it is timely. */
  lemma {:induction false} NextKeeps(s: State, step: Step)
    requires Inv(s) && Allowed(s, step)
    ensures Inv(Next(s, step)) <==> Timely(s, step)
  {
    if step.Act? {
      var inst := s.nodes[step.node].inst;
      HoldingStep(inst, step.op);
      SecureKept(inst, step.op);
    }
  }

  lemma {:induction false} RunKeeps(at: seq<State>, steps: seq<Step>, k: nat)
    requires TimelyRun(at, steps) && k <= |steps|
    ensures Inv(at[k])
  {
    if k > 0 {
      RunKeeps(at, steps, k - 1);
      NextKeeps(at[k - 1], steps[k - 1]);
    }
  }

  /** A scheduler that has not lost the lock runs cron only while it holds it. */
  lemma {:induction false} CronHolds(s: S.Instance)
    requires Secure(s) && s.cron
    ensures Holding(s) && s.lockOwned && !S.Leaving(s.main)
  {
  }

  /**
   In every run whose renewals are timely: at most one cron runs, its owner's
   token is the stored one and has not run out, every Release finds its
   scheduler's cron off, and no heartbeat ever sees the lock gone.
   */
  lemma {:induction false} OneLeader(at: seq<State>, steps: seq<Step>, k: nat)
    requires TimelyRun(at, steps) && k <= |steps|
    ensures forall i, j :: 0 <= i < |at[k].nodes| && 0 <= j < |at[k].nodes| ==>
                             at[k].nodes[i].inst.cron && at[k].nodes[j].inst.cron ==> i == j
    ensures forall i :: 0 <= i < |at[k].nodes| && at[k].nodes[i].inst.cron ==>
                          Held(at[k].store, at[k].now, at[k].nodes[i].token)
    ensures k < |steps| && steps[k].Act? && steps[k].op.CallRelease? ==> !at[k].nodes[steps[k].node].inst.cron
    ensures k < |steps| && steps[k].Act? && steps[k].op.BeatReply? ==> !steps[k].op.renewed.No?
  {
    RunKeeps(at, steps, k);
    forall i | 0 <= i < |at[k].nodes| && at[k].nodes[i].inst.cron ensures Holding(at[k].nodes[i].inst) {
      CronHolds(at[k].nodes[i].inst);
    }
    if k < |steps| && steps[k].Act? {
      HoldingStep(at[k].nodes[steps[k].node].inst, steps[k].op);
    }
  }

  // ---- renewal times ----

  /** The time of node i's last Yes, to Acquire or to Renew, before step k; the start of the run when there is none. */
  ghost function LastYes(at: seq<State>, steps: seq<Step>, i: nat, k: nat): int
    requires |at| == |steps| + 1 && k <= |steps|
  {
    if k == 0 then at[0].now
    else if steps[k - 1] == Act(i, S.Acquire(Yes)) || steps[k - 1] == Act(i, S.BeatReply(Yes)) then at[k - 1].now
    else LastYes(at, steps, i, k - 1)
  }

  /** While a node holds the lock, time never gets to its TTL after its last Yes. */
  ghost predicate PunctualRun(at: seq<State>, steps: seq<Step>) {
    && IsRun(at, steps)
    && forall k, i :: 0 <= k < |steps| && steps[k].Tick? && 0 <= i < |at[k].nodes| && Holding(at[k].nodes[i].inst) ==>
         steps[k].t < LastYes(at, steps, i, k) + at[k].nodes[i].ttl
  }

  /** The stored entry lasts at least the TTL from the holder's last Yes. */
  ghost predicate Leased(at: seq<State>, steps: seq<Step>, k: nat)
    requires |at| == |steps| + 1 && k <= |steps|
  {
    forall i :: 0 <= i < |at[k].nodes| && Holding(at[k].nodes[i].inst) ==>
                  Lease(at[k], i, LastYes(at, steps, i, k))
  }

  predicate Lease(s: State, i: nat, last: int)
    requires i < |s.nodes|
  {
    s.store.Some? && last + s.nodes[i].ttl <= s.store.value.expiry
  }

  lemma {:induction false} LastYesPast(at: seq<State>, steps: seq<Step>, i: nat, k: nat)
    requires IsRun(at, steps) && k <= |steps|
    ensures LastYes(at, steps, i, k) <= at[k].now
  {
    if k > 0 {
      LastYesPast(at, steps, i, k - 1);
      ClockForward(at[k - 1], steps[k - 1]);
    }
  }

  lemma {:induction false} ClockForward(s: State, step: Step)
    requires Allowed(s, step)
    ensures s.now <= Next(s, step).now
  {
    if step.Act? {
      match step.op { case Acquire(_) => case BeatReply(_) => case CallRelease(_) => case _ => }
    }
  }

  /** One node's lease over one step, from its last Yes so far. */
  lemma {:induction false} NodeLeaseKept(s: State, step: Step, i: nat, last: int)
    requires Inv(s) && Allowed(s, step) && i < |s.nodes| == |Next(s, step).nodes|
    requires Holding(Next(s, step).nodes[i].inst)
    requires Holding(s.nodes[i].inst) ==> Lease(s, i, last)
    requires last <= s.now
    ensures var yes := step == Act(i, S.Acquire(Yes)) || step == Act(i, S.BeatReply(Yes));
            Lease(Next(s, step), i, if yes then s.now else last)
  {
    if step.Act? {
      HoldingStep(s.nodes[step.node].inst, step.op);
      match step.op { case Acquire(_) => case BeatReply(_) => case CallRelease(_) => case _ => }
    }
  }

  lemma {:induction false} LeaseKept(at: seq<State>, steps: seq<Step>, k: nat)
    requires IsRun(at, steps) && k < |steps| && Inv(at[k]) && Leased(at, steps, k)
    ensures Leased(at, steps, k + 1)
  {
    var s, step, t := at[k], steps[k], at[k + 1];
    forall i | 0 <= i < |t.nodes| && Holding(t.nodes[i].inst) ensures Lease(t, i, LastYes(at, steps, i, k + 1)) {
      LastYesPast(at, steps, i, k);
      NodeLeaseKept(s, step, i, LastYes(at, steps, i, k));
    }
  }

  lemma {:induction false} PunctualKeeps(at: seq<State>, steps: seq<Step>, k: nat)
    requires PunctualRun(at, steps) && k <= |steps|
    ensures Inv(at[k]) && Leased(at, steps, k)
    ensures forall m :: 0 <= m < k ==> Timely(at[m], steps[m])
  {
    if k > 0 {
      PunctualKeeps(at, steps, k - 1);
      PunctualStep(at, steps, k - 1);
      NextKeeps(at[k - 1], steps[k - 1]);
      LeaseKept(at, steps, k - 1);
    }
  }

  lemma {:induction false} PunctualStep(at: seq<State>, steps: seq<Step>, k: nat)
    requires PunctualRun(at, steps) && k < |steps| && Leased(at, steps, k)
    ensures Timely(at[k], steps[k])
  {
  }

  /** Renewing before the TTL is over keeps every stored entry from running out. */
  lemma {:induction false} PunctualIsTimely(at: seq<State>, steps: seq<Step>)
    requires PunctualRun(at, steps)
    ensures TimelyRun(at, steps)
  {
    PunctualKeeps(at, steps, |steps|);
  }

  /**
   In every run in which no holder lets its TTL pass since the server last
   answered it Yes: at most one cron runs, its token is stored for at least its
   TTL from that Yes, no other node could take the key, and cron is off at every
   Release.
   */
  lemma {:induction false} OneLeaderByRenewal(at: seq<State>, steps: seq<Step>, k: nat)
    requires PunctualRun(at, steps) && k <= |steps|
    ensures forall i, j :: 0 <= i < |at[k].nodes| && 0 <= j < |at[k].nodes| ==>
                             at[k].nodes[i].inst.cron && at[k].nodes[j].inst.cron ==> i == j
    ensures forall i :: 0 <= i < |at[k].nodes| && at[k].nodes[i].inst.cron ==>
                          && Held(at[k].store, at[k].now, at[k].nodes[i].token)
                          && !Vacant(at[k].store, at[k].now)
                          && LastYes(at, steps, i, k) + at[k].nodes[i].ttl <= at[k].store.value.expiry
    ensures k < |steps| && steps[k].Act? && steps[k].op.CallRelease? ==> !at[k].nodes[steps[k].node].inst.cron
    ensures k < |steps| && steps[k].Act? && steps[k].op.BeatReply? ==> !steps[k].op.renewed.No?
  {
    PunctualIsTimely(at, steps);
    OneLeader(at, steps, k);
    PunctualKeeps(at, steps, k);
    forall i | 0 <= i < |at[k].nodes| && at[k].nodes[i].inst.cron ensures Holding(at[k].nodes[i].inst) {
      CronHolds(at[k].nodes[i].inst);
    }
  }

  // ---- without timely renewal ----

  lemma {:induction false} Extend(
    at: seq<State>, steps: seq<Step>, step: Step)
    returns (at': seq<State>, steps': seq<Step>)
    requires IsRun(at, steps) && Allowed(at[|steps|], step)
    ensures IsRun(at', steps') && steps' == steps + [step] && at'[|steps'|] == Next(at[|steps|], step)
  {
    at', steps' := at + [Next(at[|steps|], step)], steps + [step];
  }

  /** Node i goes from unstarted to a running cron while the key is vacant. */
  lemma {:induction false} StartNode(
    at0: seq<State>, steps0: seq<Step>, i: nat)
    returns (at: seq<State>, steps: seq<Step>)
    requires IsRun(at0, steps0)
    requires var s := at0[|steps0|]; i < |s.nodes| && s.nodes[i].inst == S.FRESH && Vacant(s.store, s.now)
    ensures IsRun(at, steps)
    ensures var s, s' := at0[|steps0|], at[|steps|];
      && s'.now == s.now && |s'.nodes| == |s.nodes|
      && s'.nodes[i].inst.cron && Held(s'.store, s'.now, s'.nodes[i].token)
      && forall j :: 0 <= j < |s.nodes| && j != i ==> s'.nodes[j] == s.nodes[j]
  {
    at, steps := Extend(at0, steps0, Act(i, S.Acquire(Yes)));
    at, steps := Extend(at, steps, Act(i, S.Own));
    at, steps := Extend(at, steps, Act(i, S.StartBeat));
    at, steps := Extend(at, steps, Act(i, S.CronStart));
  }

  /**
   When the entry runs out before cron.Start, the first node's heartbeat sees
   the loss and ends, a second node takes over, and both end up running cron.
   */
  lemma {:induction false} GapSplitBrain() returns (at: seq<State>, steps: seq<Step>)
    ensures IsRun(at, steps)
    ensures var s := at[|steps|];
        |s.nodes| == 2 && s.nodes[0].inst.cron && s.nodes[1].inst.cron && s.nodes[0].inst.beat.Done?
  {
    at, steps := LossInGap();
    at, steps := StopAfterGap(at, steps);
    at, steps := StartNode(at, steps, 1);
  }

  lemma {:induction false} LossInGap() returns (at: seq<State>, steps: seq<Step>)
    ensures IsRun(at, steps)
    ensures var s := at[|steps|];
      && |s.nodes| == 2 && s.nodes[0].inst.main.Beating? && s.nodes[0].inst.beat.LossStop?
      && s.nodes[1].inst == S.FRESH && Vacant(s.store, s.now)
  {
    at, steps := FirstBeats();
    at, steps := Extend(at, steps, Tick(1));
    at, steps := Extend(at, steps, Act(0, S.BeatTick));
    at, steps := Extend(at, steps, Act(0, S.BeatReply(No)));
  }

  lemma {:induction false} FirstBeats() returns (at: seq<State>, steps: seq<Step>)
    ensures IsRun(at, steps)
    ensures var s := at[|steps|];
      && |s.nodes| == 2 && s.nodes[0].inst.main.Beating? && s.nodes[0].inst.beat.Waiting?
      && s.nodes[1].inst == S.FRESH && s.now == 0 && s.store == Some(Entry(0, 1)) && s.nodes[0].token == 0
  {
    var n := Node(S.FRESH, 0, 1);
    at, steps := [State(0, None, 0, [n, n])], [];
    at, steps := Extend(at, steps, Act(0, S.Acquire(Yes)));
    at, steps := Extend(at, steps, Act(0, S.Own));
    at, steps := Extend(at, steps, Act(0, S.StartBeat));
  }

  lemma {:induction false} StopAfterGap(at0: seq<State>, steps0: seq<Step>) returns (at: seq<State>, steps: seq<Step>)
    requires IsRun(at0, steps0)
    requires var s := at0[|steps0|]; |s.nodes| == 2 && s.nodes[0].inst.main.Beating? && s.nodes[0].inst.beat.LossStop?
    ensures IsRun(at, steps)
    ensures var s, s' := at0[|steps0|], at[|steps|];
      && s'.store == s.store && s'.now == s.now && |s'.nodes| == 2 && s'.nodes[1] == s.nodes[1]
      && s'.nodes[0].inst.cron && s'.nodes[0].inst.beat.Done?
  {
    at, steps := Extend(at0, steps0, Act(0, S.BeatCronStop));
    at, steps := Extend(at, steps, Act(0, S.BeatClear));
    at, steps := Extend(at, steps, Act(0, S.CronStart));
  }
}
