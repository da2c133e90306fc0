/**
 Application lifecycle hooks (internal/app/lifecycle.go): started first to last,
 stopped last to first, with rollback when a start fails.
 */
module Lifecycle {
  import opened Wrappers

  /** Which callbacks a hook has. */
  datatype Hook = Hook(onStart: bool, onStop: bool)

  datatype HookState = HookState(started: bool, stopped: bool)

  /** A callback that was called, and whether it succeeded. */
  datatype Event = Start(i: nat, ok: bool) | Stop(i: nat, ok: bool)

  // ---- what a trace says ----

  /** The hooks in the events' order go up. */
  ghost predicate Rising(es: seq<Event>) { forall a, b :: 0 <= a < b < |es| ==> es[a].i < es[b].i }

  ghost predicate Falling(es: seq<Event>) { forall a, b :: 0 <= a < b < |es| ==> es[a].i > es[b].i }

  /** The hooks whose stop failed, in order. */
  function Failures(es: seq<Event>): seq<nat> {
    if es == [] then []
    else
      var last := es[|es| - 1];
      Failures(es[..|es| - 1]) + if last.Stop? && !last.ok then [last.i] else []
  }

  lemma {:induction false} FailuresNext(es: seq<Event>, e: Event)
    ensures Failures(es + [e]) == Failures(es) + if e.Stop? && !e.ok then [e.i] else []
  {
    assert (es + [e])[..|es|] == es;
  }

  lemma {:induction false} NoFailures(es: seq<Event>)
    requires Failures(es) == []
    ensures forall e <- es :: e.Stop? ==> e.ok
  {
    if es != [] {
      NoFailures(es[..|es| - 1]);
      assert es == es[..|es| - 1] + [es[|es| - 1]];
    }
  }

  /** A stop is due: never stopped, has something to call, and was started if it can be. */
  predicate Due(h: Hook, s: HookState) { !s.stopped && h.onStop && (h.onStart ==> s.started) }

  /** The flags record exactly the successful callbacks, and stopped hooks were stoppable. */
  ghost predicate Recorded(hooks: seq<Hook>, states: seq<HookState>, trace: seq<Event>) {
    && |states| == |hooks|
    && (forall i :: 0 <= i < |hooks| ==> (states[i].started <==> Start(i, true) in trace))
    && (forall i :: 0 <= i < |hooks| ==> (states[i].stopped <==> Stop(i, true) in trace))
    && (forall i :: 0 <= i < |hooks| && states[i].stopped ==>
        hooks[i].onStop && (hooks[i].onStart ==> states[i].started))
    && (forall e <- trace :: e.i < |hooks|)
  }

  /** No OnStop succeeds twice. */
  ghost predicate StoppedOnce(trace: seq<Event>) {
    forall a, b :: 0 <= a < b < |trace| && trace[a].Stop? && trace[a].ok ==> trace[b] != trace[a]
  }

  /** A paired hook's OnStop is only called after its OnStart succeeded. */
  ghost predicate StartedFirst(hooks: seq<Hook>, trace: seq<Event>) {
    forall b :: 0 <= b < |trace| && trace[b].Stop? && trace[b].i < |hooks| && hooks[trace[b].i].onStart ==>
                  Start(trace[b].i, true) in trace[..b]
  }

  ghost predicate Sound(hooks: seq<Hook>, states: seq<HookState>, trace: seq<Event>) {
    Recorded(hooks, states, trace) && StoppedOnce(trace) && StartedFirst(hooks, trace)
  }

  function AfterEvent(states: seq<HookState>, e: Event): seq<HookState>
    requires e.i < |states|
  {
    if !e.ok then states
    else if e.Start? then states[e.i := states[e.i].(started := true)]
    else states[e.i := states[e.i].(stopped := true)]
  }

  /** Calling a start, or a stop that is due, keeps a trace sound. */
  lemma {:induction false} SoundNext(hooks: seq<Hook>, states: seq<HookState>, trace: seq<Event>, e: Event)
    requires Sound(hooks, states, trace) && e.i < |hooks| && (e.Stop? ==> Due(hooks[e.i], states[e.i]))
    ensures Sound(hooks, AfterEvent(states, e), trace + [e])
  {
    var t := trace + [e];
    assert StoppedOnce(t);
    forall b | 0 <= b < |t| && t[b].Stop? && t[b].i < |hooks| && hooks[t[b].i].onStart
      ensures Start(t[b].i, true) in t[..b]
    {
      assert t[..b] == trace[..b];
      if b == |trace| {
        assert trace[..b] == trace;
      }
    }
  }

  // ---- one pass of stops ----

  /**
   From `before`, exactly the hooks in lo..hi whose stop was due have been called
   once each, in falling order; `after` adds the successful ones.
   */
  ghost predicate StopPass(
    hooks: seq<Hook>, before: seq<HookState>, lo: nat, hi: nat, es: seq<Event>, after: seq<HookState>) {
    && |before| == |hooks| == |after| && lo <= hi <= |hooks|
    && Falling(es)
    && (forall e <- es :: e.Stop? && lo <= e.i < hi && Due(hooks[e.i], before[e.i]))
    && (forall i :: lo <= i < hi && Due(hooks[i], before[i]) ==> Stop(i, true) in es || Stop(i, false) in es)
    && (forall i :: 0 <= i < |hooks| ==> after[i] == before[i].(stopped := before[i].stopped || Stop(i, true) in es))
  }

  lemma {:induction false} PassSkips(
    hooks: seq<Hook>, before: seq<HookState>, lo: nat, hi: nat, es: seq<Event>, after: seq<HookState>)
    requires StopPass(hooks, before, lo + 1, hi, es, after) && !Due(hooks[lo], before[lo])
    ensures StopPass(hooks, before, lo, hi, es, after)
  {
  }

  lemma {:induction false} PassCalls(hooks: seq<Hook>, before: seq<HookState>, lo: nat, hi: nat, es: seq<Event>,
                                     after: seq<HookState>, ok: bool)
    requires StopPass(hooks, before, lo + 1, hi, es, after) && Due(hooks[lo], before[lo])
    ensures StopPass(hooks, before, lo, hi, es + [Stop(lo, ok)], AfterEvent(after, Stop(lo, ok)))
  {
    var es', after' := es + [Stop(lo, ok)], AfterEvent(after, Stop(lo, ok));
    forall i | 0 <= i < |hooks| ensures after'[i] == before[i].(stopped := before[i].stopped || Stop(i, true) in es') {
      assert Stop(i, true) in es' <==> Stop(i, true) in es || (i == lo && ok);
    }
    forall i | lo <= i < hi && Due(hooks[i], before[i]) ensures Stop(i, true) in es' || Stop(i, false) in es' {
    }
  }

  /** What one call of stopHookAt adds to a pass. */
  lemma {:induction false} PassTurn(
    hooks: seq<Hook>, start: seq<HookState>, j: nat, n: nat, past: seq<Event>, es: seq<Event>, before: seq<HookState>,
    failed: bool, trace: seq<Event>, trace': seq<Event>, after: seq<HookState>)
    returns (es': seq<Event>)
    requires StopPass(hooks, start, j + 1, n, es, before) && trace == past + es
    requires !Due(hooks[j], before[j]) ==> !failed && after == before && trace' == trace
    requires Due(hooks[j], before[j]) ==>
        trace' == trace + [Stop(j, !failed)] && after == AfterEvent(before, Stop(j, !failed))
    ensures StopPass(hooks, start, j, n, es', after) && trace' == past + es'
    ensures Failures(es') == if failed then Failures(es) + [j] else Failures(es)
  {
    assert before[j] == start[j] by {
      assert forall e <- es :: e.i > j;
    }
    if Due(hooks[j], before[j]) {
      PassCalls(hooks, start, j, n, es, before, !failed);
      FailuresNext(es, Stop(j, !failed));
      es' := es + [Stop(j, !failed)];
    } else {
      PassSkips(hooks, start, j, n, es, before);
      es' := es;
    }
  }

  /** Exactly the hooks below n that can be started have been, in rising order. */
  ghost predicate StartPass(hooks: seq<Hook>, before: seq<HookState>, n: nat, es: seq<Event>, after: seq<HookState>) {
    && |before| == |hooks| == |after| && n <= |hooks|
    && Rising(es)
    && (forall e <- es :: e.Start? && e.ok && e.i < n && hooks[e.i].onStart)
    && (forall i :: 0 <= i < n && hooks[i].onStart ==> Start(i, true) in es)
    && (forall i :: 0 <= i < |hooks| ==>
        after[i] == before[i].(started := before[i].started || (i < n && hooks[i].onStart)))
  }

  lemma {:induction false} StartPassCalls(
    hooks: seq<Hook>, before: seq<HookState>, n: nat, es: seq<Event>, after: seq<HookState>)
    requires StartPass(hooks, before, n, es, after) && n < |hooks| && hooks[n].onStart
    ensures StartPass(hooks, before, n + 1, es + [Start(n, true)], AfterEvent(after, Start(n, true)))
  {
    forall i | 0 <= i < n + 1 && hooks[i].onStart ensures Start(i, true) in es + [Start(n, true)] {
    }
  }

  // ---- the application ----

  /** The application's hooks; `outcome` says how each successive callback turns out. */
  class App {
    const outcome: nat -> bool
    var hooks: seq<Hook>
    var hookStates: seq<HookState>
    var trace: seq<Event>

    ghost predicate Valid()
      reads this
    {
      Sound(hooks, hookStates, trace)
    }

    constructor (outcome: nat -> bool)
      ensures Valid() && this.outcome == outcome && hooks == [] && trace == []
    {
      this.outcome := outcome;
      hooks, hookStates, trace := [], [], [];
    }

    method AddHook(h: Hook)
      requires Valid()
      modifies this
      ensures Valid() && hooks == old(hooks) + [h] && trace == old(trace)
      ensures hookStates == old(hookStates) + [HookState(false, false)]
    {
      hooks := hooks + [h];
      hookStates := hookStates + [HookState(false, false)];
    }

    /** Calls OnStop if it is due; the hook counts as stopped only if that succeeds. */
    method StopHookAt(i: nat) returns (failed: bool)
      requires Valid() && i < |hooks|
      modifies this`hookStates, this`trace
      ensures Valid()
      ensures !Due(hooks[i], old(hookStates)[i]) ==> !failed && hookStates == old(hookStates) && trace == old(trace)
      ensures Due(hooks[i], old(hookStates)[i]) ==>
                && trace == old(trace) + [Stop(i, !failed)]
                && hookStates == AfterEvent(old(hookStates), Stop(i, !failed))
    {
      if hookStates[i].stopped {
        return false;
      }
      var hook := hooks[i];
      if !hook.onStop {
        return false;
      }
      if hook.onStart && !hookStates[i].started {
        return false;
      }
      var ok := outcome(|trace|);
      SoundNext(hooks, hookStates, trace, Stop(i, ok));
      trace := trace + [Stop(i, ok)];
      if !ok {
        return true;
      }
      hookStates := hookStates[i := hookStates[i].(stopped := true)];
      failed := false;
    }

    /** One turn of a stopping loop. */
    method StopTurn(
      j: nat, n: nat, errs: seq<nat>, ghost start: seq<HookState>, ghost past: seq<Event>, ghost es: seq<Event>)
      returns (errs': seq<nat>, ghost es': seq<Event>)
      requires Valid() && StopPass(hooks, start, j + 1, n, es, hookStates) && errs == Failures(es) && trace == past + es
      modifies this`hookStates, this`trace
      ensures Valid() && StopPass(hooks, start, j, n, es', hookStates) && errs' == Failures(es') && trace == past + es'
    {
      ghost var before, trace0 := hookStates, trace;
      var failed := StopHookAt(j);
      es' := PassTurn(hooks, start, j, n, past, es, before, failed, trace0, trace, hookStates);
      errs' := if failed then errs + [j] else errs;
    }

    /** The loop that stopHooks and the rollback share: every hook below n, last to first, whatever fails. */
    method StopBelow(n: nat) returns (errs: seq<nat>, ghost es: seq<Event>)
      requires Valid() && n <= |hooks|
      modifies this`hookStates, this`trace
      ensures Valid() && trace == old(trace) + es
      ensures StopPass(hooks, old(hookStates), 0, n, es, hookStates) && errs == Failures(es)
    {
      errs, es := [], [];
      ghost var start, past := hookStates, trace;
      var j := n;
      while j > 0
        invariant 0 <= j <= n && Valid()
        invariant trace == past + es && errs == Failures(es)
        invariant StopPass(hooks, start, j, n, es, hookStates)
      {
        j := j - 1;
        errs, es := StopTurn(j, n, errs, start, past, es);
      }
    }

    method RollbackStartedHooks(failedIndex: nat) returns (errs: seq<nat>, ghost es: seq<Event>)
      requires Valid() && failedIndex <= |hooks|
      modifies this`hookStates, this`trace
      ensures Valid() && trace == old(trace) + es
      ensures StopPass(hooks, old(hookStates), 0, failedIndex, es, hookStates) && errs == Failures(es)
    {
      errs, es := StopBelow(failedIndex);
    }

    /** Without an error, exactly the stop-only and the started hooks that can be stopped are stopped. */
    method StopHooks() returns (errs: seq<nat>, ghost es: seq<Event>)
      requires Valid()
      modifies this`hookStates, this`trace
      ensures Valid() && trace == old(trace) + es
      ensures StopPass(hooks, old(hookStates), 0, |hooks|, es, hookStates) && errs == Failures(es)
      ensures errs == [] ==> AllStopped(hooks, hookStates)
    {
      errs, es := StopBelow(|hooks|);
      if errs == [] {
        NoFailures(es);
        forall i | 0 <= i < |hooks| && hooks[i].onStop && (hooks[i].onStart ==> hookStates[i].started)
          ensures hookStates[i].stopped
        {
          assert Stop(i, false) !in es;
        }
      }
    }

    /**
     Starts in order; the first failure ends it and rolls back what came before.
     `started` are the successful starts, `mid` the flags before the rollback,
     `stops` the rollback's calls.
     */
    method StartHooks()
      returns (failedAt: Option<nat>, rollback: seq<nat>,
               ghost started: seq<Event>, ghost mid: seq<HookState>, ghost stops: seq<Event>)
      requires Valid()
      modifies this`hookStates, this`trace
      ensures Valid()
      ensures failedAt.None? ==>
                && trace == old(trace) + started && StartPass(hooks, old(hookStates), |hooks|, started, hookStates)
                && rollback == []
      ensures failedAt.Some? ==>
                && failedAt.value < |hooks| && hooks[failedAt.value].onStart
                && StartPass(hooks, old(hookStates), failedAt.value, started, mid)
                && trace == old(trace) + started + [Start(failedAt.value, false)] + stops
                && StopPass(hooks, mid, 0, failedAt.value, stops, hookStates) && rollback == Failures(stops)
    {
      failedAt, rollback, started, mid, stops := None, [], [], hookStates, [];
      ghost var before, past := hookStates, trace;
      var i := 0;
      while i < |hooks|
        invariant 0 <= i <= |hooks| && Valid() && trace == past + started
        invariant mid == hookStates && StartPass(hooks, before, i, started, hookStates)
      {
        var ok;
        ok, started := StartTurn(i, before, past, started);
        if !ok {
          rollback, stops := RollbackStartedHooks(i);
          failedAt := Some(i);
          return;
        }
        mid := hookStates;
        i := i + 1;
      }
    }

    /** One turn of the starting loop. */
    method StartTurn(i: nat, ghost before: seq<HookState>, ghost past: seq<Event>, ghost es: seq<Event>)
      returns (ok: bool, ghost es': seq<Event>)
      requires Valid() && i < |hooks| && trace == past + es && StartPass(hooks, before, i, es, hookStates)
      modifies this`hookStates, this`trace
      ensures Valid()
      ensures ok ==> trace == past + es' && StartPass(hooks, before, i + 1, es', hookStates)
      ensures !ok ==> hooks[i].onStart && es' == es && trace == past + es + [Start(i, false)]
      ensures !ok ==> hookStates == old(hookStates)
    {
      es' := es;
      if !hooks[i].onStart {
        return true, es;
      }
      ok := outcome(|trace|);
      SoundNext(hooks, hookStates, trace, Start(i, ok));
      trace := trace + [Start(i, ok)];
      if ok {
        StartPassCalls(hooks, before, i, es, hookStates);
        es' := es + [Start(i, true)];
        hookStates := hookStates[i := hookStates[i].(started := true)];
      }
    }
  }

  // ---- one start and any number of stops ----

  /** A phase of stops, last hook first, none called twice. */
  ghost predicate StopPhase(es: seq<Event>) { Falling(es) && forall e <- es :: e.Stop? }

  /** Starts first hook first, then the rollback's stops, if any. */
  ghost predicate StartPhase(ups: seq<Event>, downs: seq<Event>) {
    Rising(ups) && (forall e <- ups :: e.Start?) && StopPhase(downs)
  }

  ghost function Flatten(phases: seq<seq<Event>>): seq<Event> {
    if phases == [] then [] else Flatten(phases[..|phases| - 1]) + phases[|phases| - 1]
  }

  /** Exactly the stop-only and the started hooks that can be stopped are stopped. */
  ghost predicate AllStopped(hooks: seq<Hook>, states: seq<HookState>) {
    |states| == |hooks| && forall i :: 0 <= i < |hooks| ==>
        (states[i].stopped <==> hooks[i].onStop && (hooks[i].onStart ==> states[i].started))
  }

  /** The whole trace: one start phase, then one stop phase for each stop. */
  ghost predicate Phased(trace: seq<Event>, ups: seq<Event>, downs: seq<Event>, phases: seq<seq<Event>>) {
    && trace == ups + downs + Flatten(phases) && StartPhase(ups, downs)
    && forall k :: 0 <= k < |phases| ==> StopPhase(phases[k])
  }

  lemma {:induction false} OnePhaseMore(
    trace: seq<Event>, ups: seq<Event>, downs: seq<Event>, phases: seq<seq<Event>>, es: seq<Event>)
    requires Phased(trace, ups, downs, phases) && StopPhase(es)
    ensures Phased(trace + es, ups, downs, phases + [es])
  {
    assert (phases + [es])[..|phases|] == phases;
  }

  lemma {:induction false} StartedPhased(
    hooks: seq<Hook>, before: seq<HookState>, n: nat, started: seq<Event>, mid: seq<HookState>)
    requires StartPass(hooks, before, n, started, mid)
    ensures Phased(started, started, [], [])
  {
  }

  lemma {:induction false} FailedPhased(
    hooks: seq<Hook>, before: seq<HookState>, f: nat, started: seq<Event>, mid: seq<HookState>, stops: seq<Event>,
    after: seq<HookState>)
    requires StartPass(hooks, before, f, started, mid) && StopPass(hooks, mid, 0, f, stops, after)
    ensures Phased(started + [Start(f, false)] + stops, started + [Start(f, false)], stops, [])
  {
    var ups := started + [Start(f, false)];
    forall a, b | 0 <= a < b < |ups| ensures ups[a].i < ups[b].i {
      assert ups[a] in started;
    }
  }

  /** An application with these hooks, nothing called yet. */
  method NewApp(hooks: seq<Hook>, outcome: nat -> bool) returns (app: App)
    ensures fresh(app) && app.Valid() && app.hooks == hooks && app.trace == []
  {
    app := new App(outcome);
    for i := 0 to |hooks|
      invariant app.Valid() && app.hooks == hooks[..i] && app.trace == []
    {
      app.AddHook(hooks[i]);
    }
    assert hooks[..|hooks|] == hooks;
  }

  /** An application with these hooks, started once. */
  method StartApp(
    hooks: seq<Hook>, outcome: nat -> bool)
    returns (app: App, ghost ups: seq<Event>, ghost downs: seq<Event>)
    ensures fresh(app) && app.Valid() && app.hooks == hooks && Phased(app.trace, ups, downs, [])
  {
    app := NewApp(hooks, outcome);
    ghost var before := app.hookStates;
    var failedAt, _, started, mid, stops := app.StartHooks();
    if failedAt.None? {
      ups, downs := started, [];
      StartedPhased(hooks, before, |hooks|, started, app.hookStates);
      assert [] + started == started;
    } else {
      ups, downs := started + [Start(failedAt.value, false)], stops;
      FailedPhased(hooks, before, failedAt.value, started, mid, stops, app.hookStates);
      assert [] + started == started;
    }
  }

  /**
   Adds the hooks, starts them once, and stops them as often as asked: the trace
   is sound, every phase goes in its order, and an error-free last stop leaves
   exactly the right hooks stopped.
   */
  method RunLifecycle(hooks: seq<Hook>, outcome: nat -> bool, stops: nat)
    returns (trace: seq<Event>, states: seq<HookState>, lastErrs: seq<nat>,
             ghost ups: seq<Event>, ghost downs: seq<Event>, ghost phases: seq<seq<Event>>)
    ensures Sound(hooks, states, trace) && |phases| == stops && Phased(trace, ups, downs, phases)
    ensures stops > 0 && lastErrs == [] ==> AllStopped(hooks, states)
  {
    var app: App;
    app, ups, downs := StartApp(hooks, outcome);
    lastErrs, phases := [], [];
    for k := 0 to stops
      invariant app.Valid() && app.hooks == hooks && |phases| == k && Phased(app.trace, ups, downs, phases)
      invariant k > 0 && lastErrs == [] ==> AllStopped(hooks, app.hookStates)
    {
      ghost var before := app.trace;
      var errs, es := app.StopHooks();
      OnePhaseMore(before, ups, downs, phases, es);
      lastErrs, phases := errs, phases + [es];
    }
    trace, states := app.trace, app.hookStates;
  }
}
