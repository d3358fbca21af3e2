/**
 Which parameter sets subscribers get and when the hub calls itself ready, over whole runs. The reference
 is the history of NALs heard, which the hub itself does not keep.
 */
module HubDecoding {
  import opened Bytes
  import opened AnnexB
  import opened Results
  import opened Hub
  import opened HubRuns

  /** What an item was made of: the NALs heard before since the cache was last cleared, and the unit's own. */
  datatype Origin = Origin(heard: seq<bytes>, nals: seq<bytes>)
  {
    /** A decoder can start here: the unit brings a PPS with its SPS, or what it lacks was heard before. */
    predicate Decodable() {
      if Has(NAL_SPS, nals) then Has(NAL_PPS, nals)
      else Has(NAL_SPS, heard) && (Has(NAL_PPS, nals) || Has(NAL_PPS, heard))
    }

    /** What the hub hands out: a keyframe without an SPS gets the last sets heard put in front, if both were. */
    function Item(keyframe: bool): seq<bytes> {
      var sps, pps := LastOf(NAL_SPS, None, heard), LastOf(NAL_PPS, None, heard + nals);
      if keyframe && !Has(NAL_SPS, nals) && sps.Some? && pps.Some? then [sps.value, pps.value] + nals else nals
    }
  }

  /** NALs heard since the cache was last cleared, those of the current connection, and every item's origin. */
  datatype History = History(heard: seq<bytes>, here: seq<bytes>, origins: seq<Origin>)
  {
    /** What the current connection has delivered was heard last. */
    predicate HereIsLast() {
      |here| <= |heard| && heard[|heard| - |here|..] == here
    }

    /** What was heard before, on connections that ended with `_run` and not with a reconnect. */
    function Earlier(): (e: seq<bytes>)
      requires HereIsLast()
      ensures e + here == heard
    {
      heard[..|heard| - |here|]
    }
  }

  const SILENCE: History := History([], [], [])

  function Note(h: History, e: Event): History {
    match e
    case Frame(payload, _, _) =>
      var nals := NalsOf(payload);
      if nals == [] then h else History(h.heard + nals, h.here + nals, h.origins + [Origin(h.heard, nals)])
    case Reconnect => h.(heard := [], here := [])
    case Restart => h.(here := [])
    case _ => h
  }

  function Noted(h: History, events: seq<Event>): History
    decreases |events|
  {
    if events == [] then h else Noted(Note(h, events[0]), events[1..])
  }

  /** The cache knows what was heard, and the hub is ready once it knows both sets and this connection has spoken. */
  predicate CacheAgrees(c: Cache, h: History) {
    && Typed(c)
    && c.sps == LastOf(NAL_SPS, None, h.heard) && c.pps == LastOf(NAL_PPS, None, h.heard)
    && (c.ready <==> h.here != [] && HasSets(h.heard))
    && h.HereIsLast()
  }

  /** An item is what its origin says, and a keyframe holds both sets exactly where this says so. */
  predicate ItemAgrees(item: HubFrame, o: Origin) {
    && item.nals == o.Item(item.keyframe)
    && (item.keyframe ==> (HasSets(item.nals) <==> o.Decodable()))
  }

  predicate ItemsAgree(items: seq<HubFrame>, origins: seq<Origin>) {
    && |items| == |origins|
    && forall i :: 0 <= i < |items| ==> ItemAgrees(items[i], origins[i])
  }

  predicate Agrees(w: World, h: History) {
    CacheAgrees(w.cache, h) && ItemsAgree(w.items, h.origins)
  }

  lemma {:induction false} LastOfAppend(t: int, known: Option<bytes>, a: seq<bytes>, b: seq<bytes>)
    ensures LastOf(t, known, a + b) == LastOf(t, LastOf(t, known, a), b)
    decreases |a|
  {
    hide NalType;
    if a == [] {
      Neutral(b);
    } else {
      SliceOfAppend(a, b, 1, 1);
      LastOfAppend(t, if NalType(a[0]) == t then Some(a[0]) else known, a[1..], b);
    }
  }

  lemma KnownIsHeard(c: Cache, h: History)
    requires CacheAgrees(c, h)
    ensures c.sps.Some? <==> Has(NAL_SPS, h.heard)
    ensures c.pps.Some? <==> Has(NAL_PPS, h.heard)
  {
    hide NalType, LastOf, Has;
    LastOfFinds(NAL_SPS, None, h.heard);
    LastOfFinds(NAL_PPS, None, h.heard);
  }

  lemma FrameAgrees(c: Cache, h: History, nals: seq<bytes>)
    requires CacheAgrees(c, h) && nals != []
    ensures CacheAgrees(AfterFrame(c, nals), History(h.heard + nals, h.here + nals, h.origins))
  {
    hide LastOf, Has, Typed;
    KnownIsHeard(c, h);
    KnownAfter(c, nals);
    HasAppend(NAL_SPS, h.heard, nals);
    HasAppend(NAL_PPS, h.heard, nals);
    AfterFrameTyped(c, nals);
    LastOfAppend(NAL_SPS, None, h.heard, nals);
    LastOfAppend(NAL_PPS, None, h.heard, nals);
    Associative(h.Earlier(), h.here, nals);
    SplitAppend(h.Earlier(), h.here + nals);
  }

  lemma ItemOfOrigin(c: Cache, h: History, nals: seq<bytes>, ts90k: int, keyframe: bool)
    requires CacheAgrees(c, h)
    ensures ItemOf(AfterFrame(c, nals), nals, ts90k, keyframe).keyframe == keyframe
    ensures ItemAgrees(ItemOf(AfterFrame(c, nals), nals, ts90k, keyframe), Origin(h.heard, nals))
  {
    hide NalType, LastOf, Has, HasSets;
    KnownIsHeard(c, h);
    LastOfFinds(NAL_SPS, c.sps, nals);
    LastOfAppend(NAL_PPS, None, h.heard, nals);
    if keyframe { KeyframeParameterSets(c, nals, ts90k); }
  }

  lemma ItemsAgreeOneMore(items: seq<HubFrame>, origins: seq<Origin>, item: HubFrame, o: Origin)
    requires ItemsAgree(items, origins) && ItemAgrees(item, o)
    ensures ItemsAgree(items + [item], origins + [o])
  {
    hide ItemAgrees;
  }

  lemma StepAgrees(w: World, h: History, e: Event)
    requires Agrees(w, h)
    ensures Agrees(Step(w, e), Note(h, e))
  {
    hide NalsOf, ItemOf, AfterFrame, CacheAgrees, ItemsAgree, ItemAgrees, Deliver, Take;
    match e
    case Frame(payload, ts90k, keyframe) =>
      var nals := NalsOf(payload);
      if nals != [] {
        FrameAgrees(w.cache, h, nals);
        ItemOfOrigin(w.cache, h, nals, ts90k, keyframe);
        var c, o := AfterFrame(w.cache, nals), Origin(h.heard, nals);
        ItemsAgreeOneMore(w.items, h.origins, ItemOf(c, nals, ts90k, keyframe), o);
        OriginsApart(c, h.heard + nals, h.here + nals, h.origins, h.origins + [o]);
      }
    case Reconnect =>
      ClearedAgrees(w.cache, h);
    case Restart =>
      ClearedAgrees(w.cache, h);
    case _ =>
  }

  lemma OriginsApart(c: Cache, heard: seq<bytes>, here: seq<bytes>, o: seq<Origin>, o': seq<Origin>)
    requires CacheAgrees(c, History(heard, here, o))
    ensures CacheAgrees(c, History(heard, here, o'))
  {
  }

  lemma ClearedAgrees(c: Cache, h: History)
    requires CacheAgrees(c, h)
    ensures CacheAgrees(c.(sps := None, pps := None, ready := false), h.(heard := [], here := []))
    ensures CacheAgrees(c.(ready := false), h.(here := []))
  {
  }

  lemma {:induction false} RunAgrees(w: World, h: History, events: seq<Event>)
    requires Agrees(w, h)
    ensures Agrees(Run(w, events), Noted(h, events))
    decreases |events|
  {
    hide Agrees, Step, Note;
    if events != [] {
      StepAgrees(w, h, events[0]);
      RunAgrees(Step(w, events[0]), Note(h, events[0]), events[1..]);
    }
  }

  lemma NothingAgrees()
    ensures Agrees(EMPTY, SILENCE)
  {
  }

  /**
   The first item a subscriber consumes, and every later keyframe, holds both parameter sets exactly if the
   unit brings a PPS with its SPS, or the sets it lacks were heard before.
   */
  lemma ConsumedKeyframes(events: seq<Event>, id: nat, k: nat)
    requires id in Run(EMPTY, events).subs && k < |Run(EMPTY, events).subs[id].got|
    ensures
      var s := Run(EMPTY, events).subs[id];
      var origins := Noted(SILENCE, events).origins;
      && k < |s.log| && s.log[k] < |origins|
      && (k == 0 || s.got[k].keyframe ==> (HasSets(s.got[k].nals) <==> origins[s.log[k]].Decodable()))
  {
    hide Run, Noted, Origin.Decodable, HasSets;
    var w := Run(EMPTY, events);
    var s := w.subs[id];
    WholeRun(events, id);
    NothingAgrees();
    RunAgrees(EMPTY, SILENCE, events);
    assert |s.got + s.state.queue| == |s.log|;
    assert s.got[k] == (s.got + s.state.queue)[k] == w.items[s.log[k]];
    assert ItemAgrees(w.items[s.log[k]], Noted(SILENCE, events).origins[s.log[k]]);
  }

  /**
   When the hub is ready, in every run: exactly when this connection has delivered a NAL and both sets were
   heard since the cache was last cleared.
   */
  lemma ReadyIff(events: seq<Event>)
    ensures
      var c, h := Run(EMPTY, events).cache, Noted(SILENCE, events);
      && (c.ready <==> h.here != [] && HasSets(h.heard))
      && c.sps == LastOf(NAL_SPS, None, h.heard) && c.pps == LastOf(NAL_PPS, None, h.heard)
  {
    hide Run, Noted, LastOf, HasSets;
    NothingAgrees();
    RunAgrees(EMPTY, SILENCE, events);
  }

  // ---------- Readiness is about the current connection, unless `_run` was restarted ----------

  predicate NoRestart(events: seq<Event>) {
    forall k :: 0 <= k < |events| ==> !events[k].Restart?
  }

  /** As long as `_run` only reconnects, all that is known was heard on the current connection. */
  lemma {:induction false} HeardHere(h: History, events: seq<Event>)
    requires h.here == h.heard && NoRestart(events)
    ensures Noted(h, events).here == Noted(h, events).heard
    decreases |events|
  {
    hide NalsOf;
    if events != [] {
      assert !events[0].Restart?;
      HeardHere(Note(h, events[0]), events[1..]);
    }
  }

  /** Then the hub is ready exactly when this connection has delivered both parameter sets. */
  lemma ReadyIsFresh(events: seq<Event>)
    requires NoRestart(events)
    ensures Run(EMPTY, events).cache.ready <==> HasSets(Noted(SILENCE, events).here)
  {
    hide Run, Noted, LastOf;
    ReadyIff(events);
    HeardHere(SILENCE, events);
  }

  lemma {:induction false} RunAppend(w: World, h: History, a: seq<Event>, b: seq<Event>)
    ensures Run(w, a + b) == Run(Run(w, a), b) && Noted(h, a + b) == Noted(Noted(h, a), b)
    decreases |a|
  {
    hide Step, Note;
    if a == [] {
      Neutral(b);
    } else {
      SliceOfAppend(a, b, 1, 1);
      RunAppend(Step(w, a[0]), Note(h, a[0]), a[1..], b);
    }
  }

  lemma KnownFrom(t: int, a: seq<bytes>, b: seq<bytes>)
    ensures LastOf(t, None, a + b) == if Has(t, b) then LastOf(t, None, b) else LastOf(t, None, a)
    ensures LastOf(t, None, a).Some? <==> Has(t, a)
  {
    hide NalType, LastOf, Has;
    LastOfAppend(t, None, a, b);
    LastOfFinds(t, None, a);
    LastOfFinds(t, None, b);
    LastOfFinds(t, LastOf(t, None, a), b);
    LastsAgree(t, LastOf(t, None, a), b);
  }

  /** If the list has one of the type, what was known before does not matter. */
  lemma {:induction false} LastsAgree(t: int, known: Option<bytes>, nals: seq<bytes>)
    ensures Has(t, nals) ==> LastOf(t, known, nals) == LastOf(t, None, nals)
    decreases |nals|
  {
    hide NalType;
    if nals != [] {
      var rest := nals[1..];
      LastsAgree(t, known, rest);
      if k :| 0 <= k < |nals| && NalType(nals[k]) == t && NalType(nals[0]) != t { assert rest[k - 1] == nals[k]; }
    }
  }

  /**
   When readiness is stale, in every run: the connection has spoken and not delivered both sets, and each one it
   has not delivered was heard before. That set, and no other, is the one of an earlier connection.
   */
  lemma StaleIff(events: seq<Event>)
    ensures
      var c, h := Run(EMPTY, events).cache, Noted(SILENCE, events);
      && h.HereIsLast()
      && (c.ready && !HasSets(h.here) <==>
          && h.here != [] && !HasSets(h.here)
          && (Has(NAL_SPS, h.here) || Has(NAL_SPS, h.Earlier()))
          && (Has(NAL_PPS, h.here) || Has(NAL_PPS, h.Earlier())))
      && c.sps == LastOf(NAL_SPS, None, if Has(NAL_SPS, h.here) then h.here else h.Earlier())
      && c.pps == LastOf(NAL_PPS, None, if Has(NAL_PPS, h.here) then h.here else h.Earlier())
  {
    hide Run, Noted, LastOf, Has;
    NothingAgrees();
    RunAgrees(EMPTY, SILENCE, events);
    var h := Noted(SILENCE, events);
    HasAppend(NAL_SPS, h.Earlier(), h.here);
    HasAppend(NAL_PPS, h.Earlier(), h.here);
    KnownFrom(NAL_SPS, h.Earlier(), h.here);
    KnownFrom(NAL_PPS, h.Earlier(), h.here);
  }

  /**
   After a restart the very first unit makes the hub ready without having delivered both sets exactly if it lacks
   one, and each one it lacks was cached before.
   */
  lemma RestartIsStale(events: seq<Event>, payload: bytes, ts90k: int, keyframe: bool)
    requires NalsOf(payload) != []
    ensures
      var events' := events + [Restart, Frame(payload, ts90k, keyframe)];
      var before, after, here := Run(EMPTY, events).cache, Run(EMPTY, events').cache, Noted(SILENCE, events').here;
      && here == NalsOf(payload)
      && (after.ready && !HasSets(here) <==>
          && !HasSets(here)
          && (Has(NAL_SPS, here) || before.sps.Some?) && (Has(NAL_PPS, here) || before.pps.Some?))
  {
    hide NalsOf, Run, Noted, LastOf, Has;
    var nals, tail := NalsOf(payload), [Restart, Frame(payload, ts90k, keyframe)];
    RunAppend(EMPTY, SILENCE, events, tail);
    TwoSteps(Run(EMPTY, events), Noted(SILENCE, events), tail);
    Neutral(nals);
    KnownAfter(Run(EMPTY, events).cache, nals);
  }

  /**
   A run that fails: both sets are heard, `_run` ends and starts again, and a unit with a new SPS and no PPS makes
   the hub ready with the new SPS and the old PPS.
   */
  lemma StalePps()
    ensures
      var sets, unit: seq<bytes> := [[0x67, 1], [0x68, 2]], [[0x67, 9], [0x65, 3]];
      var events := [Frame(Join(sets), 0, true), Restart, Frame(Join(unit), 0, true)];
      var c, here := Run(EMPTY, events).cache, Noted(SILENCE, events).here;
      c.ready && here == unit && !Has(NAL_PPS, here) && c.sps == Some([0x67, 9]) && c.pps == Some([0x68, 2])
  {
    hide Join, Run, Noted, LastOf, Has, AfterFrame;
    var sets, unit: seq<bytes> := [[0x67, 1], [0x68, 2]], [[0x67, 9], [0x65, 3]];
    ShortNals(sets[0], sets[1]);
    ShortNals(unit[0], unit[1]);
    RestartRun(Join(sets), Join(unit));
    StaleCache(sets[0], sets[1], unit[0], unit[1]);
  }

  /** The cache after an SPS with a PPS, a restart, and another SPS with a NAL of another type. */
  lemma StaleCache(sps: bytes, pps: bytes, sps': bytes, nal: bytes)
    requires NalType(sps) == NalType(sps') == NAL_SPS && NalType(pps) == NAL_PPS
    requires NalType(nal) != NAL_SPS && NalType(nal) != NAL_PPS
    ensures
      var c := AfterFrame(AfterFrame(EMPTY.cache, [sps, pps]).(ready := false), [sps', nal]);
      c.ready && c.sps == Some(sps') && c.pps == Some(pps) && !Has(NAL_PPS, [sps', nal])
  {
    hide LastOf, NalType;
    LastOfTwo(NAL_SPS, None, sps, pps);
    LastOfTwo(NAL_PPS, None, sps, pps);
    LastOfTwo(NAL_SPS, Some(sps), sps', nal);
    LastOfTwo(NAL_PPS, Some(pps), sps', nal);
  }

  /** One frame, a restart, and another frame. */
  lemma RestartRun(p: bytes, q: bytes)
    requires NalsOf(p) != [] && NalsOf(q) != []
    ensures
      var events := [Frame(p, 0, true), Restart, Frame(q, 0, true)];
      && Run(EMPTY, events).cache ==
         AfterFrame(AfterFrame(EMPTY.cache, NalsOf(p)).(ready := false), NalsOf(q))
      && Noted(SILENCE, events).here == NalsOf(q)
  {
    hide NalsOf, LastOf, Run, Noted, ItemOf;
    var first, tail := [Frame(p, 0, true)], [Restart, Frame(q, 0, true)];
    RunAppend(EMPTY, SILENCE, first, tail);
    OneStep(EMPTY, SILENCE, first[0]);
    TwoSteps(Run(EMPTY, first), Noted(SILENCE, first), tail);
    Neutral(NalsOf(q));
    assert first + tail == [Frame(p, 0, true), Restart, Frame(q, 0, true)];
  }

  /** Two NALs of two bytes without zeros come back from joining. */
  lemma ShortNals(a: bytes, b: bytes)
    requires |a| == |b| == 2 && a[0] != 0 && a[1] != 0 && b[0] != 0 && b[1] != 0
    ensures NalsOf(Join([a, b])) == [a, b]
  {
    NalsOfJoin([a, b]);
  }

  lemma LastOfTwo(t: int, known: Option<bytes>, a: bytes, b: bytes)
    ensures LastOf(t, known, [a, b]) == if NalType(b) == t then Some(b) else if NalType(a) == t then Some(a) else known
  {
    hide NalType;
    assert [a, b][1..] == [b] && [b][1..] == [];
    var known' := if NalType(a) == t then Some(a) else known;
    assert LastOf(t, known', [b]) == LastOf(t, if NalType(b) == t then Some(b) else known', []);
  }

  lemma OneStep(w: World, h: History, e: Event)
    ensures Run(w, [e]) == Step(w, e) && Noted(h, [e]) == Note(h, e)
  {
    hide Step, Note;
    assert [e][1..] == [];
  }

  lemma TwoSteps(w: World, h: History, events: seq<Event>)
    requires |events| == 2
    ensures Run(w, events) == Step(Step(w, events[0]), events[1])
    ensures Noted(h, events) == Note(Note(h, events[0]), events[1])
  {
    hide Step, Note;
    var rest := events[1..];
    assert rest == [events[1]] && rest[1..] == [];
    assert Run(w, events) == Run(Step(w, events[0]), rest);
    assert Noted(h, events) == Noted(Note(h, events[0]), rest);
    assert Run(Step(Step(w, events[0]), rest[0]), rest[1..]) == Step(Step(w, events[0]), rest[0]);
    assert Noted(Note(Note(h, events[0]), rest[0]), rest[1..]) == Note(Note(h, events[0]), rest[0]);
  }
}
