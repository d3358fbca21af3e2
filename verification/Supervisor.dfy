/**
 The supervision of one driver per stream: `_ensure_running`, `_run`, `subscribe`, `unsubscribe` and
 `touch` as a state machine whose steps are the stretches of code between two awaits.
 */
module Supervisor {
  import opened Results

  /** Why the generator is being closed: the loop goes on, `_run` returns, or an exception leaves it. */
  datatype Why = GoesOn | Returns | Raises

  /** Where a runner, one call of the coroutine `_run`, is suspended. */
  datatype Pc =
    | Created               // not yet started
    | Streaming             // in `async for`, with an open generator
    | Closing(why: Why)     // in `await gen.aclose()`
    | Backoff               // waiting to reconnect
    | Done

  datatype State = State(runners: seq<Pc>, handle: Option<nat>, subs: nat, ready: bool, cached: bool)

  const INITIAL: State := State([], None, 0, false, false)

  /** `idle` says whether the linger time is over; it matters only while there is no subscriber. */
  datatype Action =
    | Touch
    | Subscribe
    | Unsubscribe
    // a created runner, or one whose backoff ends, enters the loop; `fails`: the driver cannot be made
    | Begin(runner: nat, idle: bool, fails: bool)
    // a frame; `empty`: it has no NALs; `learns`: after it both parameter sets are cached
    | Frame(runner: nat, idle: bool, empty: bool, learns: bool)
    // the generator ends or fails, or an unexpected exception leaves the loop body
    | Stop(runner: nat, why: Why)
    // `aclose` has finished
    | Closed(runner: nat, idle: bool)

  predicate IsAlive(pc: Pc) {
    pc != Done
  }

  /** The driver generator exists and has not been closed. */
  predicate IsOpen(pc: Pc) {
    pc.Streaming? || pc.Closing?
  }

  function EnsureRunning(s: State): State {
    if s.handle == None || s.handle.value >= |s.runners| || s.runners[s.handle.value] == Done then
      s.(runners := s.runners + [Created], handle := Some(|s.runners|))
    else s
  }

  function At(s: State, runner: nat, pc: Pc): State
    requires runner < |s.runners|
  {
    s.(runners := s.runners[runner := pc])
  }

  /** The loop is left at its head: `finally`, then the restart for a subscriber that came during teardown. */
  function LeaveLoop(s: State, runner: nat): State
    requires runner < |s.runners|
  {
    var s' := At(s, runner, Done).(ready := false, handle := None);
    if s'.subs > 0 then EnsureRunning(s') else s'
  }

  /** A `return` or an exception: only the `finally` runs. */
  function Exit(s: State, runner: nat): State
    requires runner < |s.runners|
  {
    At(s, runner, Done).(ready := false)
  }

  function Step(s: State, a: Action): State {
    match a
    case Touch => EnsureRunning(s)
    case Subscribe => EnsureRunning(s.(subs := s.subs + 1))
    case Unsubscribe => if s.subs > 0 then s.(subs := s.subs - 1) else s
    case Begin(t, idle, fails) =>
      if t >= |s.runners| || !(s.runners[t].Created? || s.runners[t].Backoff?) then s
      else if idle && s.subs == 0 then LeaveLoop(s, t)
      else if fails then Exit(s, t)
      else At(s, t, Streaming)
    case Frame(t, idle, empty, learns) =>
      if t >= |s.runners| || !s.runners[t].Streaming? then s
      else
        var s' := if !empty && (learns || s.cached) then s.(ready := true, cached := true) else s;
        if idle && s.subs == 0 then At(s', t, Closing(Returns)) else s'
    case Stop(t, why) =>
      if t >= |s.runners| || !s.runners[t].Streaming? || why == Returns then s else At(s, t, Closing(why))
    case Closed(t, idle) =>
      if t >= |s.runners| || !s.runners[t].Closing? then s
      else if s.runners[t].why != GoesOn || (idle && s.subs == 0) then Exit(s, t)
      else At(s, t, Backoff).(ready := false, cached := false)
  }

  function Run(s: State, actions: seq<Action>): State
    decreases |actions|
  {
    if actions == [] then s else Run(Step(s, actions[0]), actions[1..])
  }

  /** The one runner that may be alive is the one `_task` refers to; `ready` needs its driver and parameter sets. */
  predicate Inv(s: State) {
    && (s.handle.Some? ==> s.handle.value < |s.runners|)
    && (forall t :: 0 <= t < |s.runners| && IsAlive(s.runners[t]) ==> s.handle == Some(t))
    && (s.ready ==> s.handle.Some? && IsOpen(s.runners[s.handle.value]) && s.cached)
  }

  lemma EnsureKeeps(s: State)
    requires Inv(s)
    ensures Inv(EnsureRunning(s))
  {
  }

  lemma LeaveKeeps(s: State, runner: nat)
    requires Inv(s) && runner < |s.runners| && IsAlive(s.runners[runner])
    ensures Inv(LeaveLoop(s, runner)) && Inv(Exit(s, runner))
  {
    var s' := At(s, runner, Done).(ready := false, handle := None);
    assert Inv(s');
    EnsureKeeps(s');
  }

  lemma StepKeeps(s: State, a: Action)
    requires Inv(s)
    ensures Inv(Step(s, a))
  {
    hide EnsureRunning, LeaveLoop, Exit;
    match a
    case Touch => EnsureKeeps(s);
    case Subscribe => EnsureKeeps(s.(subs := s.subs + 1));
    case Unsubscribe =>
    case Begin(t, idle, fails) =>
      if t < |s.runners| && IsAlive(s.runners[t]) { LeaveKeeps(s, t); }
    case Frame(t, idle, empty, learns) =>
    case Stop(t, why) =>
    case Closed(t, idle) =>
      if t < |s.runners| && IsAlive(s.runners[t]) { LeaveKeeps(s, t); }
  }

  lemma {:induction false} RunKeeps(s: State, actions: seq<Action>)
    requires Inv(s)
    ensures Inv(Run(s, actions))
    decreases |actions|
  {
    if actions != [] {
      StepKeeps(s, actions[0]);
      RunKeeps(Step(s, actions[0]), actions[1..]);
    }
  }

  /** In every run, at most one driver generator is open, and `ready` means that one is. */
  lemma OneDriverAtATime(actions: seq<Action>)
    ensures
      var s := Run(INITIAL, actions);
      && (forall t, u ::
            0 <= t < |s.runners| && 0 <= u < |s.runners| && IsOpen(s.runners[t]) && IsOpen(s.runners[u]) ==> t == u)
      && (s.ready ==> s.cached && exists t :: 0 <= t < |s.runners| && IsOpen(s.runners[t]))
  {
    RunKeeps(INITIAL, actions);
  }

  // ---------- How long a stream stays open ----------

  predicate IsStreaming(s: State, t: nat) {
    t < |s.runners| && s.runners[t] == Streaming
  }

  /** The device stops it: its generator ends or fails, or an exception leaves the loop body. */
  predicate Stops(a: Action, t: nat) {
    a.Stop? && a.runner == t && !a.why.Returns?
  }

  /** A frame at which the linger time is over and nobody is subscribed. */
  predicate Expires(s: State, a: Action, t: nat) {
    a.Frame? && a.runner == t && a.idle && s.subs == 0
  }

  /** A step ends the streaming of an open stream exactly if the device stops it, or it has expired unwatched. */
  lemma StreamingEndsIff(s: State, t: nat, a: Action)
    requires Inv(s) && IsStreaming(s, t)
    ensures !IsStreaming(Step(s, a), t) <==> Stops(a, t) || Expires(s, a, t)
  {
  }

  /** Somebody is subscribed all along. */
  predicate Watched(s: State, actions: seq<Action>)
    decreases |actions|
  {
    s.subs > 0 && (actions == [] || Watched(Step(s, actions[0]), actions[1..]))
  }

  /** So over a whole run in which somebody stays subscribed, only the device ends a stream, however long it lasts. */
  lemma {:induction false} WatchedStreamsOn(s: State, t: nat, actions: seq<Action>)
    requires Inv(s) && IsStreaming(s, t) && Watched(s, actions)
    requires forall k :: 0 <= k < |actions| ==> !Stops(actions[k], t)
    ensures IsStreaming(Run(s, actions), t)
    decreases |actions|
  {
    hide Inv, Step, IsStreaming, Stops;
    if actions != [] {
      StepKeeps(s, actions[0]);
      assert !Stops(actions[0], t);
      StreamingEndsIff(s, t, actions[0]);
      WatchedStreamsOn(Step(s, actions[0]), t, actions[1..]);
    }
  }

  /**
   And a watched stream comes back: when its generator has ended or failed and is closed, the runner waits, whatever
   the clock says, and opens the next one when the wait is over, unless the driver cannot be made.
   */
  lemma WatchedReconnects(s: State, t: nat, idle: bool, again: bool)
    requires Inv(s) && t < |s.runners| && s.runners[t] == Closing(GoesOn) && s.subs > 0
    ensures IsStreaming(Step(Step(s, Closed(t, idle)), Begin(t, again, false)), t)
    ensures !Step(s, Closed(t, idle)).ready && !Step(s, Closed(t, idle)).cached
  {
  }

  /** An unwatched stream that has expired is closed: no generator is left open once `aclose` has finished. */
  lemma UnwatchedCloses(s: State, t: nat, empty: bool, learns: bool, idle: bool)
    requires Inv(s) && IsStreaming(s, t) && s.subs == 0
    ensures
      var s' := Step(Step(s, Frame(t, true, empty, learns)), Closed(t, idle));
      forall u :: 0 <= u < |s'.runners| ==> s'.runners[u] == Done
  {
  }

  /** A step opens a generator exactly if a runner that was waiting goes on, wanted, with a driver that can be made. */
  lemma OpensIff(s: State, t: nat, a: Action)
    requires t < |s.runners| && !IsOpen(s.runners[t])
    ensures
      t < |Step(s, a).runners| &&
      (IsOpen(Step(s, a).runners[t]) <==>
       && a.Begin? && a.runner == t && !a.fails && (s.runners[t].Created? || s.runners[t].Backoff?)
       && !(a.idle && s.subs == 0))
  {
  }

  /** A stream nobody wants is not tried again: wherever its runner is when the linger time is over, it ends. */
  lemma UnwantedEnds(s: State, t: nat, fails: bool)
    requires Inv(s) && t < |s.runners| && s.subs == 0
    ensures s.runners[t].Created? || s.runners[t].Backoff? ==>
      var s' := Step(s, Begin(t, true, fails));
      s'.runners == s.runners[t := Done] && s'.handle == None && !s'.ready
    ensures s.runners[t].Closing? ==>
      var s' := Step(s, Closed(t, true));
      s'.runners == s.runners[t := Done] && !s'.ready
  {
  }

  /** Nobody wants the stream all along: nobody comes, and the linger time is over. */
  predicate Unwanted(actions: seq<Action>) {
    forall k :: 0 <= k < |actions| ==>
      !actions[k].Touch? && !actions[k].Subscribe? && (actions[k].Begin? ==> actions[k].idle)
  }

  predicate NoneOpen(s: State) {
    forall t :: 0 <= t < |s.runners| ==> !IsOpen(s.runners[t])
  }

  /** So over a whole run no connection to the device is made for nobody. */
  lemma {:induction false} NobodyConnects(s: State, actions: seq<Action>)
    requires s.subs == 0 && Unwanted(actions) && NoneOpen(s)
    ensures NoneOpen(Run(s, actions))
    decreases |actions|
  {
    hide Step, Unwanted, NoneOpen;
    if actions != [] {
      UnwantedStep(s, actions);
      NobodyConnects(Step(s, actions[0]), actions[1..]);
    }
  }

  lemma UnwantedStep(s: State, actions: seq<Action>)
    requires actions != [] && s.subs == 0 && Unwanted(actions) && NoneOpen(s)
    ensures
      var s' := Step(s, actions[0]);
      s'.subs == 0 && Unwanted(actions[1..]) && NoneOpen(s')
  {
    assert !actions[0].Touch? && !actions[0].Subscribe? && (actions[0].Begin? ==> actions[0].idle);
  }

  /** A frame with NALs after which both sets are known. */
  predicate Teaches(a: Action) {
    a.Frame? && !a.empty && a.learns
  }

  /** Once the parameter sets are dropped, the stream is ready again only after a frame that makes them known. */
  lemma {:induction false} ReadyNeedsTeaching(s: State, actions: seq<Action>)
    requires !s.cached && !s.ready
    requires forall k :: 0 <= k < |actions| ==> !Teaches(actions[k])
    ensures !Run(s, actions).ready && !Run(s, actions).cached
    decreases |actions|
  {
    hide Step;
    if actions != [] {
      assert !Teaches(actions[0]);
      NothingTaught(s, actions[0]);
      ReadyNeedsTeaching(Step(s, actions[0]), actions[1..]);
    }
  }

  lemma NothingTaught(s: State, a: Action)
    requires !s.cached && !s.ready && !Teaches(a)
    ensures !Step(s, a).cached && !Step(s, a).ready
  {
  }

  /** And that frame does: an open stream that is taught is ready. A frame without NALs changes nothing of this. */
  lemma TeachingMakesReady(s: State, t: nat, idle: bool, empty: bool, learns: bool)
    requires IsStreaming(s, t)
    ensures
      var s' := Step(s, Frame(t, idle, empty, learns));
      && (s'.ready <==> s.ready || (!empty && (learns || s.cached)))
      && (s'.cached <==> s.cached || (!empty && learns))
      && s'.subs == s.subs
  {
  }

  // ---------- Are subscribers always served? ----------

  /** A subscriber is waiting and no runner is left that could serve it. */
  predicate Stranded(s: State) {
    s.subs > 0 && forall t :: 0 <= t < |s.runners| ==> s.runners[t] == Done
  }

  /** The step that leaves `_run` by a `return` or an exception while somebody is subscribed. */
  predicate LeavesSubscriberBehind(s: State, a: Action) {
    && s.subs > 0
    && match a
       case Begin(t, _, fails) => t < |s.runners| && (s.runners[t].Created? || s.runners[t].Backoff?) && fails
       case Closed(t, _) => t < |s.runners| && s.runners[t].Closing? && s.runners[t].why != GoesOn
       case _ => false
  }

  /** Exactly there, and nowhere else, a step strands a subscriber. */
  lemma StrandedIff(s: State, a: Action)
    requires Inv(s) && !Stranded(s)
    ensures Stranded(Step(s, a)) <==> LeavesSubscriberBehind(s, a)
  {
    if LeavesSubscriberBehind(s, a) { Strands(s, a); } else { StillServed(s, a); }
  }

  lemma Strands(s: State, a: Action)
    requires Inv(s) && LeavesSubscriberBehind(s, a)
    ensures Stranded(Step(s, a))
  {
  }

  lemma StillServed(s: State, a: Action)
    requires Inv(s) && !Stranded(s) && !LeavesSubscriberBehind(s, a)
    ensures !Stranded(Step(s, a))
  {
    var s' := Step(s, a);
    if s.subs > 0 {
      var t :| 0 <= t < |s.runners| && s.runners[t] != Done;
      assert s.handle == Some(t);
    }
    if s'.subs > 0 {
      assert s'.handle.Some? && s'.handle.value < |s'.runners| && s'.runners[s'.handle.value] != Done;
    }
  }

  /**
   A run that strands one: the stream goes idle on a frame, and a subscriber arrives while the generator
   is being closed. The runner is not done, so nothing is started; then `return` bypasses the restart.
   */
  lemma RacingSubscriberIsStranded()
    ensures
      Stranded(Run(INITIAL, [Touch, Begin(0, false, false), Frame(0, true, false, false), Subscribe, Closed(0, false)]))
  {
  }

  /**
   The restart at the end of `_run` never starts anything: the loop is left only without subscribers, and
   nothing runs between that test and the restart's own. New runners come from `touch` and `subscribe` alone.
   */
  lemma OnlyCallersStartRunners(s: State, a: Action)
    ensures |Step(s, a).runners| > |s.runners| ==> a.Touch? || a.Subscribe?
  {
  }

  /** The next touch or subscription serves a stranded subscriber again. */
  lemma TouchRescues(s: State, a: Action)
    requires Inv(s) && (a.Touch? || a.Subscribe?)
    ensures !Stranded(Step(s, a))
  {
    var s' := Step(s, a);
    assert s'.runners[s'.handle.value] != Done;
  }

  // ---------- Whole runs ----------

  /** How many leave. */
  function Leavers(actions: seq<Action>): nat {
    if actions == [] then 0 else (if actions[0].Unsubscribe? then 1 else 0) + Leavers(actions[1..])
  }

  predicate NobodyComes(actions: seq<Action>) {
    forall k :: 0 <= k < |actions| ==> !actions[k].Touch? && !actions[k].Subscribe?
  }

  /** Of `subs` stranded subscribers one is left at the end, and nothing has started a runner for it. */
  predicate Stays(subs: nat, actions: seq<Action>) {
    NobodyComes(actions) && Leavers(actions) < subs
  }

  /** Step `i` leaves subscribers behind, and that is how it stays. */
  predicate StrandsAt(s: State, actions: seq<Action>, i: nat)
    requires i < |actions|
  {
    var before := Run(s, actions[..i]);
    LeavesSubscriberBehind(before, actions[i]) && Stays(before.subs, actions[i + 1..])
  }

  lemma StaysStep(s: State, a: Action, rest: seq<Action>)
    requires Inv(s)
    ensures
      Stranded(Step(s, a)) && Stays(Step(s, a).subs, rest) <==>
      (Stranded(s) && Stays(s.subs, [a] + rest)) || (LeavesSubscriberBehind(s, a) && Stays(s.subs, rest))
  {
    StaysCons(s.subs, a, rest);
    if Stranded(s) {
      if a.Touch? || a.Subscribe? { TouchRescues(s, a); }
    } else {
      StrandedIff(s, a);
    }
  }

  lemma StaysCons(subs: nat, a: Action, rest: seq<Action>)
    ensures
      Stays(subs, [a] + rest) <==>
      !a.Touch? && !a.Subscribe? && NobodyComes(rest) && (if a.Unsubscribe? then 1 else 0) + Leavers(rest) < subs
  {
    var all := [a] + rest;
    assert all[1..] == rest;
    if NobodyComes(all) {
      assert !all[0].Touch? && !all[0].Subscribe?;
      forall k | 0 <= k < |rest| ensures !rest[k].Touch? && !rest[k].Subscribe? { assert all[k + 1] == rest[k]; }
    }
  }

  lemma StrandsLater(s: State, actions: seq<Action>, i: nat)
    requires 0 < i < |actions|
    ensures StrandsAt(s, actions, i) <==> StrandsAt(Step(s, actions[0]), actions[1..], i - 1)
  {
    hide Step, LeavesSubscriberBehind, Stays;
    var rest := actions[1..];
    assert actions[..i][1..] == rest[..i - 1];
    assert actions[i + 1..] == rest[i..];
  }

  lemma {:induction false} StrandedFrom(s: State, actions: seq<Action>)
    requires Inv(s)
    ensures
      Stranded(Run(s, actions)) <==>
      (Stranded(s) && Stays(s.subs, actions)) || exists i :: 0 <= i < |actions| && StrandsAt(s, actions, i)
    decreases |actions|
  {
    hide Inv, Step, Stays, LeavesSubscriberBehind, Stranded, StrandsAt;
    if actions == [] {
      StaysNow(s);
    } else {
      var a, rest := actions[0], actions[1..];
      var s' := Step(s, a);
      StepKeeps(s, a);
      StrandedFrom(s', rest);
      assert [a] + rest == actions;
      StaysStep(s, a, rest);
      StrandsFirst(s, actions);
      if i :| 0 <= i < |rest| && StrandsAt(s', rest, i) { StrandsLater(s, actions, i + 1); }
      if i :| 0 < i < |actions| && StrandsAt(s, actions, i) { StrandsLater(s, actions, i); }
    }
  }

  lemma StaysNow(s: State)
    ensures Stranded(s) ==> Stays(s.subs, [])
  {
  }

  lemma StrandsFirst(s: State, actions: seq<Action>)
    requires actions != []
    ensures StrandsAt(s, actions, 0) <==> LeavesSubscriberBehind(s, actions[0]) && Stays(s.subs, actions[1..])
  {
    hide LeavesSubscriberBehind, Stays;
    assert actions[..0] == [];
  }

  /**
   Which runs end with a subscriber nobody serves: exactly those in which some step leaves `_run` by a return
   or an exception while more are subscribed than unsubscribe later, and no touch or subscription follows.
   */
  lemma StrandedRunIff(actions: seq<Action>)
    ensures
      Stranded(Run(INITIAL, actions)) <==>
      exists i :: 0 <= i < |actions| && StrandsAt(INITIAL, actions, i)
  {
    StrandedFrom(INITIAL, actions);
  }

  /** A runner on its way out stays so until its generator is closed, whoever subscribes or touches. */
  lemma {:induction false} OnTheWayOut(s: State, t: nat, actions: seq<Action>)
    requires Inv(s) && t < |s.runners| && s.runners[t].Closing?
    requires forall k :: 0 <= k < |actions| ==> !(actions[k].Closed? && actions[k].runner == t)
    ensures
      var s' := Run(s, actions);
      Inv(s') && t < |s'.runners| && s'.runners[t] == s.runners[t]
    decreases |actions|
  {
    hide Inv;
    if actions != [] {
      var a := actions[0];
      StepKeeps(s, a);
      ClosingStays(s, t, a);
      OnTheWayOut(Step(s, a), t, actions[1..]);
    }
  }

  lemma ClosingStays(s: State, t: nat, a: Action)
    requires Inv(s) && t < |s.runners| && s.runners[t].Closing? && !(a.Closed? && a.runner == t)
    ensures t < |Step(s, a).runners| && Step(s, a).runners[t] == s.runners[t]
  {
  }

  /**
   A subscription made while the runner is on its way out is unserved when the generator is closed, exactly
   if it, or another one, is still there: whatever happens in between does not help.
   */
  lemma SubscribedOnTheWayOut(s: State, t: nat, actions: seq<Action>, idle: bool)
    requires Inv(s) && t < |s.runners| && s.runners[t].Closing? && s.runners[t].why != GoesOn
    requires forall k :: 0 <= k < |actions| ==> !(actions[k].Closed? && actions[k].runner == t)
    ensures Stranded(Step(Run(s, actions), Closed(t, idle))) <==> Run(s, actions).subs > 0
  {
    hide Run;
    OnTheWayOut(s, t, actions);
    var s' := Run(s, actions);
    if s'.subs > 0 { Strands(s', Closed(t, idle)); }
  }
}
