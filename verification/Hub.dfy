/** `Stream._on_frame` and its subscribers: parameter-set caching, and the keyframe gate over a bounded queue. */
module Hub {
  import opened Bytes
  import opened AnnexB
  import opened Results

  const QUEUE_MAX: nat := 64

  datatype HubFrame = HubFrame(nals: seq<bytes>, ts90k: int, keyframe: bool)

  // ---------- The cache of parameter sets ----------

  datatype Cache = Cache(sps: Option<bytes>, pps: Option<bytes>, ready: bool, relayed: nat)
  {
    predicate Complete() {
      sps.Some? && pps.Some?
    }
  }

  /** The last NAL of type `t` in the list, or the one known before. */
  function LastOf(t: int, known: Option<bytes>, nals: seq<bytes>): Option<bytes>
    decreases |nals|
  {
    if nals == [] then known
    else LastOf(t, if NalType(nals[0]) == t then Some(nals[0]) else known, nals[1..])
  }

  predicate Has(t: int, nals: seq<bytes>) {
    exists k :: 0 <= k < |nals| && NalType(nals[k]) == t
  }

  /** The cache after a frame with the given NALs. */
  function AfterFrame(c: Cache, nals: seq<bytes>): Cache {
    var sps := LastOf(NAL_SPS, c.sps, nals);
    var pps := LastOf(NAL_PPS, c.pps, nals);
    Cache(sps, pps, c.ready || (sps.Some? && pps.Some?), c.relayed + 1)
  }

  /** The item handed to subscribers; `c` is the cache after the frame. */
  function ItemOf(c: Cache, nals: seq<bytes>, ts90k: int, keyframe: bool): HubFrame {
    HubFrame(
      if keyframe && c.Complete() && !Has(NAL_SPS, nals) then [c.sps.value, c.pps.value] + nals else nals,
      ts90k, keyframe)
  }

  // ---------- One subscriber ----------

  datatype SubState = SubState(queue: seq<HubFrame>, waitingKey: bool, dropped: nat)

  const NEW_SUB: SubState := SubState([], true, 0)

  function Offer(s: SubState, item: HubFrame): SubState {
    if s.waitingKey && !item.keyframe then s
    else if |s.queue| < QUEUE_MAX then SubState(s.queue + [item], false, s.dropped)
    else SubState(s.queue, true, s.dropped + 1)
  }

  class Subscriber {
    var queue: seq<HubFrame>
    var waitingKey: bool
    var dropped: nat

    function State(): SubState
      reads this
    {
      SubState(queue, waitingKey, dropped)
    }

    constructor ()
      ensures State() == NEW_SUB
    {
      queue, waitingKey, dropped := [], true, 0;
    }

    /** `queue.put_nowait(item)`; false is QueueFull. */
    method PutNowait(item: HubFrame) returns (ok: bool)
      modifies this`queue
      ensures ok == (|old(queue)| < QUEUE_MAX)
      ensures queue == if ok then old(queue) + [item] else old(queue)
    {
      ok := |queue| < QUEUE_MAX;
      if ok {
        queue := queue + [item];
      }
    }

    /** One consumer get, on a queue that is not empty. */
    method Get() returns (item: HubFrame)
      requires queue != []
      modifies this`queue
      ensures old(queue) == [item] + queue
    {
      item := queue[0];
      queue := queue[1..];
    }
  }

  class Stream {
    var sps: Option<bytes>
    var pps: Option<bytes>
    var ready: bool
    var framesRelayed: nat
    var subs: set<Subscriber>

    function State(): Cache
      reads this
    {
      Cache(sps, pps, ready, framesRelayed)
    }

    constructor ()
      ensures State() == Cache(None, None, false, 0) && subs == {}
    {
      sps, pps, ready, framesRelayed, subs := None, None, false, 0, {};
    }

    method Subscribe() returns (sub: Subscriber)
      modifies this`subs
      ensures fresh(sub) && sub.State() == NEW_SUB && subs == old(subs) + {sub}
    {
      sub := new Subscriber();
      subs := subs + {sub};
    }

    method Unsubscribe(sub: Subscriber)
      modifies this`subs
      ensures subs == old(subs) - {sub}
    {
      subs := subs - {sub};
    }

    /** `_on_frame`: every subscriber is offered the same item, and nothing else about it changes. */
    method OnFrame(payload: bytes, ts90k: int, keyframe: bool)
      modifies this, subs
      ensures subs == old(subs)
      ensures NalsOf(payload) == [] ==>
        State() == old(State()) && forall s :: s in subs ==> s.State() == old(s.State())
      ensures NalsOf(payload) != [] ==>
        && State() == AfterFrame(old(State()), NalsOf(payload))
        && forall s :: s in subs ==>
             s.State() == Offer(old(s.State()), ItemOf(State(), NalsOf(payload), ts90k, keyframe))
    {
      hide NalsOf, Offer, LastOf, Has;
      var nals := IterNals(payload);
      if nals == [] {
        return;
      }
      Learn(nals);
      if sps.Some? && pps.Some? && !ready {
        ready := true;
      }
      framesRelayed := framesRelayed + 1;
      if keyframe && sps.Some? && pps.Some? && !Has(NAL_SPS, nals) {
        nals := [sps.value, pps.value] + nals;
      }
      var item := HubFrame(nals, ts90k, keyframe);
      FanOut(item);
    }

    /** The loop that caches parameter sets. */
    method Learn(nals: seq<bytes>)
      modifies this`sps, this`pps
      ensures sps == LastOf(NAL_SPS, old(sps), nals) && pps == LastOf(NAL_PPS, old(pps), nals)
    {
      hide NalType;
      for i := 0 to |nals|
        invariant LastOf(NAL_SPS, old(sps), nals) == LastOf(NAL_SPS, sps, nals[i..])
        invariant LastOf(NAL_PPS, old(pps), nals) == LastOf(NAL_PPS, pps, nals[i..])
      {
        assert nals[i..][1..] == nals[i + 1..];
        var t := NalType(nals[i]);
        if t == NAL_SPS {
          sps := Some(nals[i]);
        } else if t == NAL_PPS {
          pps := Some(nals[i]);
        }
      }
    }

    /** The loop over the subscribers, in whatever order the set is walked. */
    method FanOut(item: HubFrame)
      modifies subs
      ensures forall s :: s in subs ==> s.State() == Offer(old(s.State()), item)
    {
      var todo := subs;
      while todo != {}
        invariant todo <= subs
        invariant forall s :: s in todo ==> s.State() == old(s.State())
        invariant forall s :: s in subs - todo ==> s.State() == Offer(old(s.State()), item)
        decreases |todo|
      {
        var sub :| sub in todo;
        todo := todo - {sub};
        if sub.waitingKey && !item.keyframe {
          continue;
        }
        sub.waitingKey := false;
        var ok := sub.PutNowait(item);
        if !ok {
          sub.dropped := sub.dropped + 1;
          sub.waitingKey := true;
        }
      }
    }
  }

  // ---------- What a decoder that joins at a keyframe finds ----------

  lemma {:induction false} LastOfFinds(t: int, known: Option<bytes>, nals: seq<bytes>)
    ensures Has(t, nals) ==>
      exists k :: 0 <= k < |nals| && NalType(nals[k]) == t && LastOf(t, known, nals) == Some(nals[k])
        && forall j :: k < j < |nals| ==> NalType(nals[j]) != t
    ensures !Has(t, nals) ==> LastOf(t, known, nals) == known
    decreases |nals|
  {
    hide NalType;
    if nals != [] {
      var rest := nals[1..];
      LastOfFinds(t, if NalType(nals[0]) == t then Some(nals[0]) else known, rest);
      if Has(t, rest) {
        var k :| 0 <= k < |rest| && NalType(rest[k]) == t
          && LastOf(t, if NalType(nals[0]) == t then Some(nals[0]) else known, rest) == Some(rest[k])
          && forall j :: k < j < |rest| ==> NalType(rest[j]) != t;
        assert nals[k + 1] == rest[k];
        assert forall j :: k + 1 < j < |nals| ==> nals[j] == rest[j - 1];
      } else {
        assert forall j :: 0 < j < |nals| ==> nals[j] == rest[j - 1];
      }
    }
  }

  /** Cached parameter sets are what their names say. */
  predicate Typed(c: Cache) {
    (c.sps.Some? ==> NalType(c.sps.value) == NAL_SPS) && (c.pps.Some? ==> NalType(c.pps.value) == NAL_PPS)
  }

  lemma AfterFrameTyped(c: Cache, nals: seq<bytes>)
    requires Typed(c)
    ensures Typed(AfterFrame(c, nals))
    ensures AfterFrame(c, nals).ready ==> c.ready || AfterFrame(c, nals).Complete()
  {
    hide NalType, LastOf;
    LastOfFinds(NAL_SPS, c.sps, nals);
    LastOfFinds(NAL_PPS, c.pps, nals);
  }

  /** Both parameter sets are in the list. */
  predicate HasSets(nals: seq<bytes>) {
    Has(NAL_SPS, nals) && Has(NAL_PPS, nals)
  }

  lemma HasAppend(t: int, a: seq<bytes>, b: seq<bytes>)
    ensures Has(t, a + b) <==> Has(t, a) || Has(t, b)
  {
    hide NalType;
    if k :| 0 <= k < |a| && NalType(a[k]) == t { assert (a + b)[k] == a[k]; }
    if k :| 0 <= k < |b| && NalType(b[k]) == t { assert (a + b)[|a| + k] == b[k]; }
  }

  /** What the cache knows after a unit: what it knew before, or what the unit brings. */
  lemma KnownAfter(c: Cache, nals: seq<bytes>)
    ensures AfterFrame(c, nals).sps.Some? <==> Has(NAL_SPS, nals) || c.sps.Some?
    ensures AfterFrame(c, nals).pps.Some? <==> Has(NAL_PPS, nals) || c.pps.Some?
  {
    hide NalType, LastOf, Has;
    LastOfFinds(NAL_SPS, c.sps, nals);
    LastOfFinds(NAL_PPS, c.pps, nals);
  }

  /**
   What a keyframe item holds, for every cache `c0` that the unit meets. A decoder that joins there has
   both sets exactly if a unit that brings an SPS also brings a PPS, and one that brings none meets a cache
   with an SPS, and brings a PPS or meets a cache with one too.
   */
  lemma KeyframeParameterSets(c0: Cache, nals: seq<bytes>, ts90k: int)
    requires Typed(c0)
    ensures
      var c := AfterFrame(c0, nals);
      var item := ItemOf(c, nals, ts90k, true);
      && (Has(NAL_SPS, item.nals) <==> Has(NAL_SPS, nals) || c.Complete())
      && (Has(NAL_PPS, item.nals) <==> Has(NAL_PPS, nals) || (c.Complete() && !Has(NAL_SPS, nals)))
      && (HasSets(item.nals) <==>
          if Has(NAL_SPS, nals) then Has(NAL_PPS, nals)
          else c0.sps.Some? && (Has(NAL_PPS, nals) || c0.pps.Some?))
  {
    hide NalType, LastOf, Has;
    var c := AfterFrame(c0, nals);
    KnownAfter(c0, nals);
    AfterFrameTyped(c0, nals);
    if c.Complete() {
      var sets := [c.sps.value, c.pps.value];
      HasPair(c.sps.value, c.pps.value);
      HasAppend(NAL_SPS, sets, nals);
      HasAppend(NAL_PPS, sets, nals);
    }
  }

  lemma HasPair(a: bytes, b: bytes)
    ensures NalType(a) == NAL_SPS ==> Has(NAL_SPS, [a, b])
    ensures NalType(b) == NAL_PPS ==> Has(NAL_PPS, [a, b])
  {
    hide NalType;
    assert [a, b][0] == a && [a, b][1] == b;
  }

  /** An input that fails: right after connecting, a lone IDR slice opens the gate without any parameter set. */
  lemma ColdKeyframe(ts90k: int)
    ensures
      var c := AfterFrame(Cache(None, None, false, 0), [[0x65, 1]]);
      var item := ItemOf(c, [[0x65, 1]], ts90k, true);
      && item.nals == [[0x65, 1]] && !Has(NAL_SPS, item.nals) && !Has(NAL_PPS, item.nals)
      && Offer(NEW_SUB, item).queue == [item]
  {
    var nal: bytes := [0x65, 1];
    assert NalType(nal) == NAL_IDR;
    KnownAfter(Cache(None, None, false, 0), [nal]);
  }

  /** Another one: an SPS without its PPS, though the cache knows one. */
  lemma SpsAlone(sps: bytes, pps: bytes, ts90k: int)
    requires NalType(sps) == NAL_SPS && NalType(pps) == NAL_PPS
    ensures
      var c := AfterFrame(Cache(Some(sps), Some(pps), true, 0), [[0x67, 2], [0x65, 1]]);
      var item := ItemOf(c, [[0x67, 2], [0x65, 1]], ts90k, true);
      c.Complete() && item.nals == [[0x67, 2], [0x65, 1]] && !Has(NAL_PPS, item.nals)
  {
    var c0 := Cache(Some(sps), Some(pps), true, 0);
    var nals: seq<bytes> := [[0x67, 2], [0x65, 1]];
    assert NalType(nals[0]) == NAL_SPS && NalType(nals[1]) == NAL_IDR;
    KnownAfter(c0, nals);
  }
}
