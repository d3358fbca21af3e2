/**
 Whole runs of a hub: frames, subscriptions, consumer gets and changes of the connection in any order.
 `Reconnect` is the turn of the loop in `_run` that drops the cached parameter sets; `Restart` is the end of
 `_run`, which only clears readiness, with the start of the next.
 */
module HubRuns {
  import opened Bytes
  import opened AnnexB
  import opened Results
  import opened Hub

  /**
   A subscriber with its history: how many items the hub had when it joined, the numbers of the items
   put into its queue, and what its consumer has taken out.
   */
  datatype Sub = Sub(state: SubState, active: bool, joined: nat, log: seq<nat>, got: seq<HubFrame>)

  /** The hub with every item it has built so far. */
  datatype World = World(cache: Cache, items: seq<HubFrame>, subs: map<nat, Sub>)

  datatype Event =
    | Frame(payload: bytes, ts90k: int, keyframe: bool)
    | Get(id: nat)
    | Subscribe(id: nat)
    | Unsubscribe(id: nat)
    | Reconnect
    | Restart

  const EMPTY: World := World(Cache(None, None, false, 0), [], map[])

  /** Item number `n` is offered. */
  function Deliver(s: Sub, item: HubFrame, n: nat): Sub {
    if !s.active then s
    else
      var state' := Offer(s.state, item);
      s.(state := state', log := if |state'.queue| > |s.state.queue| then s.log + [n] else s.log)
  }

  /** The consumer takes the oldest item, if there is one. */
  function Take(s: Sub): Sub {
    if !s.active || s.state.queue == [] then s
    else s.(state := s.state.(queue := s.state.queue[1..]), got := s.got + [s.state.queue[0]])
  }

  function Step(w: World, e: Event): World {
    match e
    case Frame(payload, ts90k, keyframe) =>
      var nals := NalsOf(payload);
      if nals == [] then w
      else
        var cache' := AfterFrame(w.cache, nals);
        var item := ItemOf(cache', nals, ts90k, keyframe);
        World(cache', w.items + [item], map id | id in w.subs :: Deliver(w.subs[id], item, |w.items|))
    case Get(id) =>
      if id in w.subs then w.(subs := w.subs[id := Take(w.subs[id])]) else w
    case Subscribe(id) =>
      if id in w.subs then w else w.(subs := w.subs[id := Sub(NEW_SUB, true, |w.items|, [], [])])
    case Unsubscribe(id) =>
      if id in w.subs then w.(subs := w.subs[id := w.subs[id].(active := false)]) else w
    case Reconnect => w.(cache := w.cache.(sps := None, pps := None, ready := false))
    case Restart => w.(cache := w.cache.(ready := false))
  }

  function Run(w: World, events: seq<Event>): World
    decreases |events|
  {
    if events == [] then w else Run(Step(w, events[0]), events[1..])
  }

  // ---------- The gate ----------

  /** Item numbers in order, from those offered since joining. */
  predicate Ordered(log: seq<nat>, joined: nat, n: nat) {
    && (forall k :: 0 <= k < |log| ==> joined <= log[k] < n)
    && (forall k :: 0 < k < |log| ==> log[k - 1] < log[k])
  }

  /** Gap-free segments, each of which starts with a keyframe. */
  predicate Gated(log: seq<nat>, items: seq<HubFrame>)
    requires forall k :: 0 <= k < |log| ==> log[k] < |items|
  {
    forall k {:trigger log[k]} :: 0 <= k < |log| ==> items[log[k]].keyframe || (k > 0 && log[k - 1] + 1 == log[k])
  }

  lemma FirstIsKeyframe(log: seq<nat>, items: seq<HubFrame>)
    requires forall k :: 0 <= k < |log| ==> log[k] < |items|
    requires Gated(log, items) && log != []
    ensures items[log[0]].keyframe
  {
    assert 0 <= log[0] < |items|;
  }

  function Pick(items: seq<HubFrame>, log: seq<nat>): seq<HubFrame>
    requires forall k :: 0 <= k < |log| ==> log[k] < |items|
  {
    seq(|log|, k requires 0 <= k < |log| => items[log[k]])
  }

  /** The item before number `n` went into the queue. */
  predicate UpToDate(log: seq<nat>, n: nat) {
    log != [] && log[|log| - 1] + 1 == n
  }

  predicate NoKeyframe(items: seq<HubFrame>, lo: nat, hi: nat)
    requires lo <= hi <= |items|
  {
    forall j :: lo <= j < hi ==> !items[j].keyframe
  }

  /** A subscriber that never overflowed has every item from the first keyframe since it joined. */
  predicate Complete(s: Sub, items: seq<HubFrame>)
    requires s.joined <= |items|
  {
    if s.log == [] then NoKeyframe(items, s.joined, |items|)
    else
      && s.joined <= s.log[0] <= |items| && NoKeyframe(items, s.joined, s.log[0])
      && s.log[0] + |s.log| == |items|
      && forall k :: 0 <= k < |s.log| ==> s.log[k] == s.log[0] + k
  }

  predicate SubOk(s: Sub, items: seq<HubFrame>) {
    && s.joined <= |items| && Ordered(s.log, s.joined, |items|) && Gated(s.log, items)
    && s.got + s.state.queue == Pick(items, s.log)
    && |s.state.queue| <= QUEUE_MAX
    && (s.active ==> (s.state.waitingKey <==> !UpToDate(s.log, |items|)))
    && (s.active && s.state.dropped == 0 ==> Complete(s, items))
  }

  predicate Inv(w: World) {
    Typed(w.cache) && forall id :: id in w.subs ==> SubOk(w.subs[id], w.items)
  }

  // ---------- Every step keeps it ----------

  lemma PickAppend(items: seq<HubFrame>, item: HubFrame, log: seq<nat>)
    requires forall k :: 0 <= k < |log| ==> log[k] < |items|
    ensures Pick(items + [item], log) == Pick(items, log)
    ensures Pick(items + [item], log + [|items|]) == Pick(items, log) + [item]
  {
  }

  /** An item goes into a queue exactly if there is room and it is a keyframe or follows the last one put in. */
  lemma EnqueuedIff(s: Sub, items: seq<HubFrame>, item: HubFrame)
    requires SubOk(s, items) && s.active
    ensures
      UpToDate(Deliver(s, item, |items|).log, |items| + 1) <==>
      |s.state.queue| < 64 && (item.keyframe || UpToDate(s.log, |items|))
  {
  }

  lemma DeliverGates(s: Sub, items: seq<HubFrame>, item: HubFrame)
    requires SubOk(s, items)
    ensures
      var s', n := Deliver(s, item, |items|), |items| + 1;
      s'.joined <= n && Ordered(s'.log, s'.joined, n) && Gated(s'.log, items + [item])
  {
  }

  lemma DeliverQueues(s: Sub, items: seq<HubFrame>, item: HubFrame)
    requires SubOk(s, items)
    ensures
      var s' := Deliver(s, item, |items|);
      && (forall k :: 0 <= k < |s'.log| ==> s'.log[k] < |items + [item]|)
      && s'.got + s'.state.queue == Pick(items + [item], s'.log) && |s'.state.queue| <= QUEUE_MAX
  {
    hide Pick, Gated, Complete;
    PickAppend(items, item, s.log);
    Associative(s.got, s.state.queue, [item]);
  }

  lemma DeliverCompletes(s: Sub, items: seq<HubFrame>, item: HubFrame)
    requires SubOk(s, items) && s.active
    ensures
      var s' := Deliver(s, item, |items|);
      && (s'.state.waitingKey <==> !UpToDate(s'.log, |items| + 1))
      && (s'.state.dropped == 0 ==> s'.joined <= |items| + 1 && Complete(s', items + [item]))
  {
    hide Pick, Gated;
  }

  lemma DeliverKeeps(s: Sub, items: seq<HubFrame>, item: HubFrame)
    requires SubOk(s, items)
    ensures SubOk(Deliver(s, item, |items|), items + [item])
  {
    hide Pick, Gated, Ordered, Complete, UpToDate;
    DeliverGates(s, items, item);
    DeliverQueues(s, items, item);
    if s.active { DeliverCompletes(s, items, item); }
  }

  lemma TakeKeeps(s: Sub, items: seq<HubFrame>)
    requires SubOk(s, items)
    ensures SubOk(Take(s), items)
  {
    hide Pick, Gated, Ordered, UpToDate;
    var q := s.state.queue;
    if s.active && q != [] {
      assert [q[0]] + q[1..] == q;
      Associative(s.got, [q[0]], q[1..]);
    }
  }

  lemma StepKeeps(w: World, e: Event)
    requires Inv(w)
    ensures Inv(Step(w, e))
  {
    hide SubOk, NalsOf, Typed, ItemOf, AfterFrame, Deliver, Take;
    match e
    case Frame(payload, ts90k, keyframe) =>
      var nals := NalsOf(payload);
      if nals != [] {
        AfterFrameTyped(w.cache, nals);
        var item := ItemOf(AfterFrame(w.cache, nals), nals, ts90k, keyframe);
        forall id | id in w.subs
          ensures SubOk(Deliver(w.subs[id], item, |w.items|), w.items + [item])
        {
          DeliverKeeps(w.subs[id], w.items, item);
        }
      }
    case Get(id) =>
      if id in w.subs { TakeKeeps(w.subs[id], w.items); }
    case Subscribe(id) =>
      JoinKeeps(w.items);
    case Unsubscribe(id) =>
      if id in w.subs { LeaveKeeps(w.subs[id], w.items); }
    case Reconnect =>
      ClearedTyped(w.cache);
    case Restart =>
      ClearedTyped(w.cache);
  }

  lemma ClearedTyped(c: Cache)
    requires Typed(c)
    ensures Typed(c.(sps := None, pps := None, ready := false)) && Typed(c.(ready := false))
  {
  }

  lemma JoinKeeps(items: seq<HubFrame>)
    ensures SubOk(Sub(NEW_SUB, true, |items|, [], []), items)
  {
  }

  lemma LeaveKeeps(s: Sub, items: seq<HubFrame>)
    requires SubOk(s, items)
    ensures SubOk(s.(active := false), items)
  {
    hide Pick;
  }

  /**
   In every run, each subscriber has been handed an ordered subsequence of the hub's items made of
   gap-free segments that start with a keyframe; its queue never exceeds the limit; and while it has
   dropped nothing, it has every item from the first keyframe on.
   */
  lemma {:induction false} RunKeeps(w: World, events: seq<Event>)
    requires Inv(w)
    ensures Inv(Run(w, events))
    decreases |events|
  {
    hide Inv, Step;
    if events != [] {
      StepKeeps(w, events[0]);
      RunKeeps(Step(w, events[0]), events[1..]);
    }
  }

  /** The same from the start of a hub, spelled out for one subscriber. */
  lemma WholeRun(events: seq<Event>, id: nat)
    requires id in Run(EMPTY, events).subs
    ensures
      var w := Run(EMPTY, events);
      var s := w.subs[id];
      && Ordered(s.log, s.joined, |w.items|) && Gated(s.log, w.items)
      && s.got + s.state.queue == Pick(w.items, s.log) && |s.state.queue| <= 64
      && (s.got != [] ==> s.got[0].keyframe)
  {
    hide Step;
    RunKeeps(EMPTY, events);
    var w := Run(EMPTY, events);
    assert SubOk(w.subs[id], w.items);
    var s := w.subs[id];
    if s.got != [] {
      FirstIsKeyframe(s.log, w.items);
      assert (s.got + s.state.queue)[0] == Pick(w.items, s.log)[0] == w.items[s.log[0]];
    }
  }

  // ---------- Subscribers apart ----------

  /** Only frames and what it does itself change a subscriber. */
  lemma Apart(w: World, id: nat, e: Event)
    requires id in w.subs && !e.Frame?
    requires (e.Get? || e.Unsubscribe?) ==> e.id != id
    ensures id in Step(w, e).subs && Step(w, e).subs[id] == w.subs[id]
  {
  }

  /** Once it has left, nothing is put into its queue or taken out of it, whatever happens. */
  lemma {:induction false} StaysAway(w: World, id: nat, events: seq<Event>)
    requires id in w.subs && !w.subs[id].active
    ensures var w' := Run(w, events); id in w'.subs && w'.subs[id] == w.subs[id]
    decreases |events|
  {
    hide NalsOf, ItemOf, AfterFrame;
    if events != [] { StaysAway(Step(w, events[0]), id, events[1..]); }
  }

  lemma Unsubscribed(w: World, id: nat, events: seq<Event>)
    requires id in w.subs
    ensures
      var w' := Run(Step(w, Unsubscribe(id)), events);
      id in w'.subs && w'.subs[id] == w.subs[id].(active := false)
  {
    hide Run;
    StaysAway(Step(w, Unsubscribe(id)), id, events);
  }

  // ---------- Time stamps, counters ----------

  function TimesOf(items: seq<HubFrame>): seq<int> {
    seq(|items|, i requires 0 <= i < |items| => items[i].ts90k)
  }

  /** The time stamps of the frames that hold a NAL. */
  function FrameTimes(events: seq<Event>): seq<int>
    decreases |events|
  {
    if events == [] then []
    else
      (if events[0].Frame? && NalsOf(events[0].payload) != [] then [events[0].ts90k] else [])
      + FrameTimes(events[1..])
  }

  lemma StepTimes(w: World, e: Event)
    ensures
      var times := if e.Frame? && NalsOf(e.payload) != [] then [e.ts90k] else [];
      && TimesOf(Step(w, e).items) == TimesOf(w.items) + times
      && Step(w, e).cache.relayed == w.cache.relayed + |times|
  {
    hide NalsOf, Has, Deliver, LastOf;
    Neutral(TimesOf(w.items));
  }

  /** In every run, the items carry the time stamps of the frames that hold a NAL, in order, and are counted. */
  lemma {:induction false} TimesOfRun(w: World, events: seq<Event>)
    ensures TimesOf(Run(w, events).items) == TimesOf(w.items) + FrameTimes(events)
    ensures Run(w, events).cache.relayed == w.cache.relayed + |FrameTimes(events)|
    decreases |events|
  {
    hide Step, NalsOf, TimesOf;
    if events == [] {
      Neutral(TimesOf(w.items));
    } else {
      var e := events[0];
      var times := if e.Frame? && NalsOf(e.payload) != [] then [e.ts90k] else [];
      StepTimes(w, e);
      TimesOfRun(Step(w, e), events[1..]);
      Associative(TimesOf(w.items), times, FrameTimes(events[1..]));
    }
  }

  /** Item `n` was to go into the queue, as a keyframe or behind its predecessor, and did not. */
  predicate Missed(log: seq<nat>, items: seq<HubFrame>, n: nat)
    requires n < |items|
  {
    n !in log && (items[n].keyframe || (n > 0 && n - 1 in log))
  }

  /** How many of the items from number `lo` on, below `hi`, were missed. */
  function MissedCount(log: seq<nat>, items: seq<HubFrame>, lo: nat, hi: nat): nat
    requires lo <= hi <= |items|
  {
    if lo == hi then 0 else MissedCount(log, items, lo, hi - 1) + if Missed(log, items, hi - 1) then 1 else 0
  }

  /** Every subscriber still there has counted what it missed since it joined. */
  predicate Counts(s: Sub, items: seq<HubFrame>) {
    s.joined <= |items| && (s.active ==> s.state.dropped == MissedCount(s.log, items, s.joined, |items|))
  }

  predicate AllCount(w: World) {
    forall id :: id in w.subs ==> Counts(w.subs[id], w.items)
  }

  lemma {:induction false} MissedStays(log: seq<nat>, items: seq<HubFrame>, item: HubFrame, lo: nat, hi: nat)
    requires lo <= hi <= |items|
    ensures MissedCount(log, items + [item], lo, hi) == MissedCount(log, items, lo, hi)
    ensures MissedCount(log + [|items|], items + [item], lo, hi) == MissedCount(log, items, lo, hi)
    decreases hi
  {
    if lo < hi { MissedStays(log, items, item, lo, hi - 1); }
  }

  lemma LastInLog(log: seq<nat>, joined: nat, n: nat)
    requires Ordered(log, joined, n)
    ensures n !in log
    ensures n > 0 ==> (n - 1 in log <==> UpToDate(log, n))
  {
    if n > 0 && n - 1 in log {
      var k :| 0 <= k < |log| && log[k] == n - 1;
      if k < |log| - 1 { assert log[k] < log[k + 1]; }
    }
  }

  lemma DeliverCounts(s: Sub, items: seq<HubFrame>, item: HubFrame)
    requires SubOk(s, items) && Counts(s, items)
    ensures Counts(Deliver(s, item, |items|), items + [item])
  {
    hide Pick, Gated, Complete, Ordered;
    var n := |items|;
    LastInLog(s.log, s.joined, n);
    if s.active {
      MissedStays(s.log, items, item, s.joined, n);
    }
  }

  lemma {:induction false} RunCounts(w: World, events: seq<Event>)
    requires Inv(w) && AllCount(w)
    ensures AllCount(Run(w, events))
    decreases |events|
  {
    hide Inv, Step, AllCount;
    if events != [] {
      StepKeeps(w, events[0]);
      StepCounts(w, events[0]);
      RunCounts(Step(w, events[0]), events[1..]);
    }
  }

  lemma StepCounts(w: World, e: Event)
    requires Inv(w) && AllCount(w)
    ensures AllCount(Step(w, e))
  {
    hide SubOk, NalsOf, Typed, ItemOf, AfterFrame, Deliver, MissedCount, LastOf;
    match e
    case Frame(payload, ts90k, keyframe) =>
      var nals := NalsOf(payload);
      if nals != [] {
        var item := ItemOf(AfterFrame(w.cache, nals), nals, ts90k, keyframe);
        forall id | id in w.subs ensures Counts(Deliver(w.subs[id], item, |w.items|), w.items + [item]) {
          DeliverCounts(w.subs[id], w.items, item);
        }
      }
    case Subscribe(id) =>
      JoinCounts(w.items);
    case _ =>
  }

  lemma JoinCounts(items: seq<HubFrame>)
    ensures Counts(Sub(NEW_SUB, true, |items|, [], []), items)
  {
  }

  /** The drop counter of a subscriber, in every run: the items since it joined that it should have got and did not. */
  lemma DroppedIsMissed(events: seq<Event>, id: nat)
    requires id in Run(EMPTY, events).subs && Run(EMPTY, events).subs[id].active
    ensures
      var w := Run(EMPTY, events);
      var s := w.subs[id];
      s.joined <= |w.items| && s.state.dropped == MissedCount(s.log, w.items, s.joined, |w.items|)
  {
    hide Run, MissedCount;
    RunCounts(EMPTY, events);
    assert Counts(Run(EMPTY, events).subs[id], Run(EMPTY, events).items);
  }
}
