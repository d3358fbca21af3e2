/**
 The whole media path: device bytes, driver, hub, pump, client. The README's promise of a byte-for-byte
 stream copy, with reframing only.
 */
module EndToEnd {
  import opened Bytes
  import opened AnnexB
  import opened Results
  import opened NetDvr3
  import opened NetDvr3Streams
  import opened NetDvr3Recovery
  import opened Pump
  import Hub
  import HubDecoding
  import HubRuns
  import Rtp
  import RtpLaws

  // ---------- Frames into the hub ----------

  /** What the hub keeps of a frame that holds NALs. */
  datatype Unit = Unit(nals: seq<bytes>, keyframe: bool)

  /** The access units the hub makes of driver frames: those without a NAL are ignored. */
  function Units(frames: seq<VideoFrame>): seq<Unit> {
    if frames == [] then []
    else
      var nals := NalsOf(frames[0].payload);
      (if nals == [] then [] else [Unit(nals, frames[0].keyframe)]) + Units(frames[1..])
  }

  function Shape(items: seq<Hub.HubFrame>): seq<Unit> {
    seq(|items|, i requires 0 <= i < |items| => Unit(items[i].nals, items[i].keyframe))
  }

  /** The events hand the hub these frames, in this order, with any time stamps and anything in between. */
  predicate Feeds(events: seq<HubRuns.Event>, frames: seq<VideoFrame>)
    decreases |events|
  {
    if events == [] then frames == []
    else
      match events[0]
      case Frame(payload, _, keyframe) =>
        && frames != [] && payload == frames[0].payload && keyframe == frames[0].keyframe
        && Feeds(events[1..], frames[1..])
      case _ => Feeds(events[1..], frames)
  }

  /** Every keyframe that holds a NAL carries an SPS. */
  predicate KeyframesCarrySps(frames: seq<VideoFrame>) {
    forall i :: 0 <= i < |frames| && frames[i].keyframe && NalsOf(frames[i].payload) != [] ==>
      Hub.Has(NAL_SPS, NalsOf(frames[i].payload))
  }

  /** What the hub hands out of the units: keyframes without an SPS are completed by the sets heard before. */
  function Relayed(units: seq<Unit>, origins: seq<HubDecoding.Origin>): seq<Unit>
    requires |units| == |origins|
  {
    seq(|units|, i requires 0 <= i < |units| => Unit(origins[i].Item(units[i].keyframe), units[i].keyframe))
  }

  /** The histories of the hub's items, in this run. */
  function Origins(events: seq<HubRuns.Event>): seq<HubDecoding.Origin> {
    HubDecoding.Noted(HubDecoding.SILENCE, events).origins
  }

  /** Items and origins come from these units. */
  predicate Made(items: seq<Hub.HubFrame>, origins: seq<HubDecoding.Origin>, units: seq<Unit>) {
    && |items| == |origins| == |units|
    && forall i :: 0 <= i < |units| ==> items[i].keyframe == units[i].keyframe && origins[i].nals == units[i].nals
  }

  lemma StepMakes(w: HubRuns.World, h: HubDecoding.History, e: HubRuns.Event, units: seq<Unit>)
    requires Made(w.items, h.origins, units)
    ensures
      var made := if e.Frame? && NalsOf(e.payload) != [] then [Unit(NalsOf(e.payload), e.keyframe)] else [];
      Made(HubRuns.Step(w, e).items, HubDecoding.Note(h, e).origins, units + made)
  {
    hide NalsOf, Hub.Has, HubRuns.Deliver, Hub.AfterFrame;
    Neutral(units);
  }

  lemma {:induction false} RunMakes(
      w: HubRuns.World, h: HubDecoding.History, units: seq<Unit>, events: seq<HubRuns.Event>, frames: seq<VideoFrame>)
    requires Made(w.items, h.origins, units) && Feeds(events, frames)
    ensures Made(HubRuns.Run(w, events).items, HubDecoding.Noted(h, events).origins, units + Units(frames))
    decreases |events|
  {
    hide NalsOf, HubRuns.Step, HubDecoding.Note, Made;
    if events == [] {
      Neutral(units);
    } else {
      var e := events[0];
      var w', h' := HubRuns.Step(w, e), HubDecoding.Note(h, e);
      StepMakes(w, h, e, units);
      Neutral(units);
      if e.Frame? {
        var made := if NalsOf(e.payload) == [] then [] else [Unit(NalsOf(e.payload), e.keyframe)];
        RunMakes(w', h', units + made, events[1..], frames[1..]);
        Associative(units, made, Units(frames[1..]));
      } else {
        RunMakes(w', h', units, events[1..], frames);
      }
    }
  }

  /**
   The hub's items are the units of the frames in order, with nothing added but the parameter sets heard before in
   front of keyframes without an SPS, whatever happens in between.
   */
  lemma ItemsOfRun(events: seq<HubRuns.Event>, frames: seq<VideoFrame>)
    requires Feeds(events, frames)
    ensures
      && Made(HubRuns.Run(HubRuns.EMPTY, events).items, Origins(events), Units(frames))
      && Shape(HubRuns.Run(HubRuns.EMPTY, events).items) == Relayed(Units(frames), Origins(events))
  {
    hide HubRuns.Run, HubDecoding.Noted, Units, Feeds, HubDecoding.Origin.Item, Hub.HasSets;
    Neutral(Units(frames));
    RunMakes(HubRuns.EMPTY, HubDecoding.SILENCE, [], events, frames);
    HubDecoding.NothingAgrees();
    HubDecoding.RunAgrees(HubRuns.EMPTY, HubDecoding.SILENCE, events);
    var items := HubRuns.Run(HubRuns.EMPTY, events).items;
    forall i | 0 <= i < |items| ensures items[i].nals == Origins(events)[i].Item(items[i].keyframe) {
      assert HubDecoding.ItemAgrees(items[i], Origins(events)[i]);
    }
  }

  predicate UnitKeysCarrySps(units: seq<Unit>) {
    forall i :: 0 <= i < |units| && units[i].keyframe ==> Hub.Has(NAL_SPS, units[i].nals)
  }

  lemma {:induction false} KeysOfFrames(frames: seq<VideoFrame>)
    requires KeyframesCarrySps(frames)
    ensures UnitKeysCarrySps(Units(frames))
    decreases |frames|
  {
    hide NalsOf, Hub.Has;
    if frames != [] {
      SpsOfFirst(frames);
      KeysOfFrames(frames[1..]);
    }
  }

  /** If all keyframes carry an SPS, nothing is added. */
  lemma NothingAdded(items: seq<Hub.HubFrame>, origins: seq<HubDecoding.Origin>, frames: seq<VideoFrame>)
    requires Made(items, origins, Units(frames)) && KeyframesCarrySps(frames)
    ensures Relayed(Units(frames), origins) == Units(frames)
  {
    hide Units, KeyframesCarrySps, Hub.Has, Hub.LastOf;
    KeysOfFrames(frames);
  }

  lemma SpsOfFirst(frames: seq<VideoFrame>)
    requires frames != [] && KeyframesCarrySps(frames)
    ensures KeyframesCarrySps(frames[1..])
    ensures frames[0].keyframe && NalsOf(frames[0].payload) != [] ==> Hub.Has(NAL_SPS, NalsOf(frames[0].payload))
  {
    hide NalsOf, Hub.Has;
  }

  // ---------- From the first keyframe on ----------

  function FromFirstKey(units: seq<Unit>): seq<Unit> {
    if units == [] then [] else if units[0].keyframe then units else FromFirstKey(units[1..])
  }

  function NalsIn(units: seq<Unit>): seq<bytes> {
    if units == [] then [] else units[0].nals + NalsIn(units[1..])
  }

  lemma {:induction false} FirstKeyAt(units: seq<Unit>, f: nat)
    requires f <= |units| && (f < |units| ==> units[f].keyframe)
    requires forall j :: 0 <= j < f ==> !units[j].keyframe
    ensures FromFirstKey(units) == units[f..]
    decreases f
  {
    if f > 0 {
      FirstKeyAt(units[1..], f - 1);
      assert units[1..][f - 1..] == units[f..];
    }
  }

  /** Where the items of a subscriber that dropped nothing begin. */
  lemma FirstOf(s: HubRuns.Sub, items: seq<Hub.HubFrame>) returns (f: nat)
    requires HubRuns.SubOk(s, items) && s.active && s.state.dropped == 0
    ensures s.joined <= f <= |items| && HubRuns.Pick(items, s.log) == items[f..]
    ensures f < |items| ==> items[f].keyframe
    ensures HubRuns.NoKeyframe(items, s.joined, f)
  {
    hide HubRuns.NoKeyframe;
    f := if s.log == [] then |items| else s.log[0];
    if s.log != [] { HubRuns.FirstIsKeyframe(s.log, items); }
  }

  lemma FirstKeyOfShape(items: seq<Hub.HubFrame>, joined: nat, f: nat)
    requires joined <= f <= |items| && (f < |items| ==> items[f].keyframe) && HubRuns.NoKeyframe(items, joined, f)
    ensures FromFirstKey(Shape(items)[joined..]) == Shape(items[f..])
  {
    var units := Shape(items);
    forall j | 0 <= j < f - joined ensures !units[joined..][j].keyframe {
      assert !items[joined + j].keyframe;
    }
    FirstKeyAt(units[joined..], f - joined);
    SliceOfSuffix(units, joined, f - joined, f - joined);
    assert Shape(items[f..]) == units[f..];
  }

  /** A subscriber that dropped nothing has exactly the items from the first keyframe since it joined. */
  lemma HandedFromFirstKey(events: seq<HubRuns.Event>, id: nat)
    requires id in HubRuns.Run(HubRuns.EMPTY, events).subs
    requires
      var s := HubRuns.Run(HubRuns.EMPTY, events).subs[id];
      s.active && s.state.dropped == 0
    ensures
      var w := HubRuns.Run(HubRuns.EMPTY, events);
      var s := w.subs[id];
      s.joined <= |w.items| && Shape(s.got + s.state.queue) == FromFirstKey(Shape(w.items)[s.joined..])
  {
    hide HubRuns.Run, Shape, HubRuns.Pick, HubRuns.Complete, HubRuns.Gated, HubRuns.Ordered, HubRuns.UpToDate;
    HubRuns.RunKeeps(HubRuns.EMPTY, events);
    var w := HubRuns.Run(HubRuns.EMPTY, events);
    var s := w.subs[id];
    assert HubRuns.SubOk(s, w.items);
    var f := FirstOf(s, w.items);
    FirstKeyOfShape(w.items, s.joined, f);
  }

  // ---------- Into the pump ----------

  function Calls(frames: seq<Hub.HubFrame>): seq<RtpLaws.Call> {
    seq(|frames|, i requires 0 <= i < |frames| => RtpLaws.Call(frames[i].nals, frames[i].ts90k))
  }

  lemma {:induction false} AllNalsOfCalls(frames: seq<Hub.HubFrame>)
    ensures AllNals(Calls(frames)) == NalsIn(Shape(frames))
    decreases |frames|
  {
    if frames != [] {
      AllNalsOfCalls(frames[1..]);
      assert Calls(frames)[1..] == Calls(frames[1..]);
      assert Shape(frames)[1..] == Shape(frames[1..]);
    }
  }

  /** Every NAL of the units is sent as it is. */
  predicate UnitsCarry(units: seq<Unit>, mtu: int) {
    forall i, k :: 0 <= i < |units| && 0 <= k < |units[i].nals| ==>
      units[i].nals[k] != [] && RtpLaws.Carries(units[i].nals[k], mtu)
  }

  lemma CallsSound(frames: seq<Hub.HubFrame>, mtu: int)
    requires UnitsCarry(Shape(frames), mtu)
    ensures Sound(Calls(frames), mtu)
  {
    hide RtpLaws.Carries;
    var calls := Calls(frames);
    forall i, k | 0 <= i < |calls| && 0 <= k < |calls[i].nals|
      ensures calls[i].nals[k] != [] && RtpLaws.Carries(calls[i].nals[k], mtu)
    {
      assert Shape(frames)[i].nals[k] == calls[i].nals[k];
    }
  }

  // ---------- What is added carries too ----------

  predicate NalsCarry(nals: seq<bytes>, mtu: int) {
    forall k :: 0 <= k < |nals| ==> nals[k] != [] && RtpLaws.Carries(nals[k], mtu)
  }

  predicate HistoryCarries(h: HubDecoding.History, mtu: int) {
    && NalsCarry(h.heard, mtu)
    && forall i :: 0 <= i < |h.origins| ==> NalsCarry(h.origins[i].heard, mtu) && NalsCarry(h.origins[i].nals, mtu)
  }

  lemma NoteCarries(h: HubDecoding.History, e: HubRuns.Event, mtu: int)
    requires HistoryCarries(h, mtu) && (e.Frame? ==> NalsCarry(NalsOf(e.payload), mtu))
    ensures HistoryCarries(HubDecoding.Note(h, e), mtu)
  {
    hide NalsOf, RtpLaws.Carries;
  }

  lemma UnitsCarryStep(frames: seq<VideoFrame>, mtu: int)
    requires frames != [] && UnitsCarry(Units(frames), mtu)
    ensures NalsCarry(NalsOf(frames[0].payload), mtu) && UnitsCarry(Units(frames[1..]), mtu)
  {
    hide NalsOf, RtpLaws.Carries;
    var units, rest, nals := Units(frames), Units(frames[1..]), NalsOf(frames[0].payload);
    if nals == [] {
      Neutral(rest);
    } else {
      assert units == [Unit(nals, frames[0].keyframe)] + rest;
      SplitAppend([Unit(nals, frames[0].keyframe)], rest);
      CarryTail(units, mtu);
    }
  }

  lemma CarryTail(units: seq<Unit>, mtu: int)
    requires units != [] && UnitsCarry(units, mtu)
    ensures NalsCarry(units[0].nals, mtu) && UnitsCarry(units[1..], mtu)
  {
    hide RtpLaws.Carries;
    var rest := units[1..];
    forall i, k | 0 <= i < |rest| && 0 <= k < |rest[i].nals|
      ensures rest[i].nals[k] != [] && RtpLaws.Carries(rest[i].nals[k], mtu)
    {
      assert units[i + 1].nals[k] == rest[i].nals[k];
    }
  }

  lemma {:induction false} NotedCarries(
      h: HubDecoding.History, events: seq<HubRuns.Event>, frames: seq<VideoFrame>, mtu: int)
    requires HistoryCarries(h, mtu) && Feeds(events, frames) && UnitsCarry(Units(frames), mtu)
    ensures HistoryCarries(HubDecoding.Noted(h, events), mtu)
    decreases |events|
  {
    hide NalsOf, HistoryCarries, UnitsCarry, NalsCarry, HubDecoding.Note, Units;
    if events != [] {
      if events[0].Frame? {
        UnitsCarryStep(frames, mtu);
        NoteCarries(h, events[0], mtu);
        NotedCarries(HubDecoding.Note(h, events[0]), events[1..], frames[1..], mtu);
      } else {
        NoteCarries(h, events[0], mtu);
        NotedCarries(HubDecoding.Note(h, events[0]), events[1..], frames, mtu);
      }
    }
  }

  lemma LastCarries(t: int, nals: seq<bytes>, mtu: int)
    requires NalsCarry(nals, mtu)
    ensures
      var nal := Hub.LastOf(t, None, nals);
      nal.Some? ==> nal.value != [] && RtpLaws.Carries(nal.value, mtu)
  {
    hide NalType, Hub.LastOf, RtpLaws.Carries;
    Hub.LastOfFinds(t, None, nals);
  }

  lemma ItemCarries(o: HubDecoding.Origin, keyframe: bool, mtu: int)
    requires NalsCarry(o.heard, mtu) && NalsCarry(o.nals, mtu)
    ensures NalsCarry(o.Item(keyframe), mtu)
  {
    hide NalType, Hub.LastOf, RtpLaws.Carries, Hub.Has;
    LastCarries(NAL_SPS, o.heard, mtu);
    LastCarries(NAL_PPS, o.heard + o.nals, mtu);
  }

  lemma RelayedCarry(events: seq<HubRuns.Event>, frames: seq<VideoFrame>, mtu: int)
    requires Feeds(events, frames) && UnitsCarry(Units(frames), mtu) && |Units(frames)| == |Origins(events)|
    ensures UnitsCarry(Relayed(Units(frames), Origins(events)), mtu)
  {
    hide NalsCarry, RtpLaws.Carries, HubDecoding.Origin.Item, HubDecoding.Noted, Units, Feeds, UnitsCarry;
    NothingCarries(mtu);
    NotedCarries(HubDecoding.SILENCE, events, frames, mtu);
    var units, origins := Units(frames), Origins(events);
    forall i | 0 <= i < |units| ensures NalsCarry(Relayed(units, origins)[i].nals, mtu) {
      ItemCarries(origins[i], units[i].keyframe, mtu);
    }
    EachCarries(Relayed(units, origins), mtu);
  }

  lemma NothingCarries(mtu: int)
    ensures HistoryCarries(HubDecoding.SILENCE, mtu)
  {
  }

  lemma EachCarries(units: seq<Unit>, mtu: int)
    requires forall i :: 0 <= i < |units| ==> NalsCarry(units[i].nals, mtu)
    ensures UnitsCarry(units, mtu)
  {
    hide RtpLaws.Carries;
  }

  // ---------- Any client ----------

  /** The units with these numbers. */
  function Chosen(units: seq<Unit>, log: seq<nat>): seq<Unit>
    requires forall k :: 0 <= k < |log| ==> log[k] < |units|
  {
    seq(|log|, k requires 0 <= k < |log| => units[log[k]])
  }

  /**
   What a client may be sent of a list of units, from number `joined` on: some of them, in order, in
   gap-free segments that start with a keyframe.
   */
  predicate Gated(log: seq<nat>, joined: nat, units: seq<Unit>) {
    && HubRuns.Ordered(log, joined, |units|)
    && forall k {:trigger log[k]} :: 0 <= k < |log| ==>
         units[log[k]].keyframe || (k > 0 && log[k - 1] + 1 == log[k])
  }

  lemma ChosenCarry(units: seq<Unit>, log: seq<nat>, mtu: int)
    requires UnitsCarry(units, mtu) && forall k :: 0 <= k < |log| ==> log[k] < |units|
    ensures UnitsCarry(Chosen(units, log), mtu)
  {
    hide RtpLaws.Carries;
    var c := Chosen(units, log);
    forall i, k | 0 <= i < |c| && 0 <= k < |c[i].nals|
      ensures c[i].nals[k] != [] && RtpLaws.Carries(c[i].nals[k], mtu)
    {
      assert units[log[i]].nals[k] == c[i].nals[k];
    }
  }

  /** What a subscriber has consumed is a gated choice among the units relayed. */
  lemma ConsumedIsGated(frames: seq<VideoFrame>, events: seq<HubRuns.Event>, id: nat)
    requires Feeds(events, frames) && id in HubRuns.Run(HubRuns.EMPTY, events).subs
    ensures |Units(frames)| == |Origins(events)|
    ensures
      var s := HubRuns.Run(HubRuns.EMPTY, events).subs[id];
      var units := Relayed(Units(frames), Origins(events));
      && Gated(s.log, s.joined, units) && |s.got| <= |s.log|
      && Shape(s.got) == Chosen(units, s.log[..|s.got|])
  {
    hide HubRuns.Run, Units, Feeds, Relayed, Origins;
    var w := HubRuns.Run(HubRuns.EMPTY, events);
    var s := w.subs[id];
    ItemsOfRun(events, frames);
    HubRuns.WholeRun(events, id);
    var picked := HubRuns.Pick(w.items, s.log);
    assert |s.got| + |s.state.queue| == |s.log|;
    assert forall k :: 0 <= k < |s.got| ==> s.got[k] == picked[k];
  }

  /**
   Every client, however slow: it is sent, byte for byte and in order, exactly the NALs of a gated choice
   among the units relayed, from the moment it joined.
   */
  lemma ClientCopy(
      frames: seq<VideoFrame>, events: seq<HubRuns.Event>, id: nat,
      pt: int, ssrc: int, mtu: int, ch: byte, seqNo: nat)
    requires Feeds(events, frames) && UnitsCarry(Units(frames), mtu)
    requires id in HubRuns.Run(HubRuns.EMPTY, events).subs
    requires Rtp.Stamp(pt, ssrc, 0).Ok() && 3 <= mtu <= 0xFFFF - 12
    ensures |Units(frames)| == |Origins(events)|
    ensures
      var s := HubRuns.Run(HubRuns.EMPTY, events).subs[id];
      var units := Relayed(Units(frames), Origins(events));
      var sent := Pumped(pt, ssrc, mtu, ch, Calls(s.got), seqNo);
      && Gated(s.log, s.joined, units) && |s.got| <= |s.log| && sent.Some?
      && ClientNals(sent.value) == Some(NalsIn(Chosen(units, s.log[..|s.got|])))
  {
    hide HubRuns.Run, Units, Feeds, UnitsCarry, Pumped, ClientNals, Rtp.Stamp.Ok, Sound, AllNals;
    hide Calls, Shape, NalsIn, Chosen, Relayed, Origins;
    var s := HubRuns.Run(HubRuns.EMPTY, events).subs[id];
    ConsumedIsGated(frames, events, id);
    RelayedCarry(events, frames, mtu);
    ChosenCarry(Relayed(Units(frames), Origins(events)), s.log[..|s.got|], mtu);
    CallsSound(s.got, mtu);
    AllNalsOfCalls(s.got);
    PumpRoundTrip(pt, ssrc, mtu, ch, Calls(s.got), seqNo);
  }

  /**
   A client that has dropped nothing and left nothing in its queue is sent all of them, from the first
   keyframe since it joined. If all keyframes carry an SPS, these are the driver's own units.
   */
  lemma DrainedClientCopy(
      frames: seq<VideoFrame>, events: seq<HubRuns.Event>, id: nat,
      pt: int, ssrc: int, mtu: int, ch: byte, seqNo: nat)
    requires Feeds(events, frames) && UnitsCarry(Units(frames), mtu)
    requires DrainedSub(HubRuns.Run(HubRuns.EMPTY, events), id)
    requires Rtp.Stamp(pt, ssrc, 0).Ok() && 3 <= mtu <= 0xFFFF - 12
    ensures |Units(frames)| == |Origins(events)|
    ensures
      var s := HubRuns.Run(HubRuns.EMPTY, events).subs[id];
      var units := Relayed(Units(frames), Origins(events));
      var sent := Pumped(pt, ssrc, mtu, ch, Calls(s.got), seqNo);
      && s.joined <= |units| && sent.Some?
      && ClientNals(sent.value) == Some(NalsIn(FromFirstKey(units[s.joined..])))
      && (KeyframesCarrySps(frames) ==> units == Units(frames))
  {
    hide HubRuns.Run, Units, KeyframesCarrySps, Feeds, UnitsCarry, Pumped, ClientNals, Rtp.Stamp.Ok, Shape, Made;
    hide NalsIn, Chosen, Calls, FromFirstKey, Relayed, Origins;
    var w := HubRuns.Run(HubRuns.EMPTY, events);
    var s := w.subs[id];
    ClientCopy(frames, events, id, pt, ssrc, mtu, ch, seqNo);
    ConsumedIsGated(frames, events, id);
    HandedFromFirstKey(events, id);
    Neutral(s.got);
    ItemsOfRun(events, frames);
    assert |Shape(w.items)| == |w.items| by { ShapeLength(w.items); }
    if KeyframesCarrySps(frames) { NothingAdded(w.items, Origins(events), frames); }
  }

  lemma ShapeLength(items: seq<Hub.HubFrame>)
    ensures |Shape(items)| == |items|
  {
  }

  /**
   The time stamps of what a subscriber has consumed: item by item those of the frames it was made of. With
   `PumpedPackets` these are the time stamps of the packets its client gets.
   */
  lemma ConsumedTimes(events: seq<HubRuns.Event>, id: nat, j: nat)
    requires id in HubRuns.Run(HubRuns.EMPTY, events).subs
    requires j < |HubRuns.Run(HubRuns.EMPTY, events).subs[id].got|
    ensures
      var s := HubRuns.Run(HubRuns.EMPTY, events).subs[id];
      var times := HubRuns.FrameTimes(events);
      && j < |s.log| && s.log[j] < |times|
      && Calls(s.got)[j] == RtpLaws.Call(s.got[j].nals, times[s.log[j]])
  {
    hide HubRuns.Run, HubRuns.FrameTimes;
    var w := HubRuns.Run(HubRuns.EMPTY, events);
    var s := w.subs[id];
    HubRuns.WholeRun(events, id);
    HubRuns.TimesOfRun(HubRuns.EMPTY, events);
    var times := HubRuns.FrameTimes(events);
    assert HubRuns.TimesOf(HubRuns.EMPTY.items) == [];
    Neutral(times);
    var picked := HubRuns.Pick(w.items, s.log);
    assert |s.got| + |s.state.queue| == |s.log|;
    assert s.got[j] == (s.got + s.state.queue)[j] == picked[j] == w.items[s.log[j]];
    assert HubRuns.TimesOf(w.items)[s.log[j]] == w.items[s.log[j]].ts90k;
  }

  /** Subscriber `id` has dropped nothing and left nothing in its queue. */
  predicate DrainedSub(w: HubRuns.World, id: nat) {
    id in w.subs && var s := w.subs[id];
    s.active && s.state.dropped == 0 && s.state.queue == []
  }

  // ---------- What the device sends ----------

  /** NAL unit types a single RTP packet may carry as they are, RFC 6184 section 5.4. */
  predicate PlainNals(us: seq<Sent>) {
    forall i, k :: 0 <= i < |us| && 0 <= k < |NalsOf(us[i].au)| ==> 1 <= NalType(NalsOf(us[i].au)[k]) <= 23
  }

  predicate SentKeyframesCarrySps(us: seq<Sent>) {
    forall i :: 0 <= i < |us| && us[i].Frame().keyframe && NalsOf(us[i].au) != [] ==> Hub.Has(NAL_SPS, NalsOf(us[i].au))
  }

  /** The access units sent, as the hub sees them. */
  function SentUnits(us: seq<Sent>): seq<Unit> {
    Units(FramesOf(us))
  }

  lemma {:induction false} FramesOfAt(us: seq<Sent>)
    ensures |FramesOf(us)| == |us| && forall i :: 0 <= i < |us| ==> FramesOf(us)[i] == us[i].Frame()
    decreases |us|
  {
    hide Sent.Frame;
    if us != [] {
      FramesOfAt(us[1..]);
      assert forall i :: 0 < i < |us| ==> FramesOf(us)[i] == FramesOf(us[1..])[i - 1];
    }
  }

  lemma SentSps(us: seq<Sent>)
    requires SentKeyframesCarrySps(us)
    ensures KeyframesCarrySps(FramesOf(us))
  {
    hide NalsOf, Hub.Has, HasIdr;
    FramesOfAt(us);
  }

  lemma {:induction false} SentCarry(us: seq<Sent>, mtu: int)
    requires PlainNals(us) && mtu >= 3
    ensures UnitsCarry(SentUnits(us), mtu)
    decreases |us|
  {
    hide HasIdr, NalsOf;
    if us != [] {
      var rest, nals := us[1..], NalsOf(us[0].au);
      forall i, k | 0 <= i < |rest| && 0 <= k < |NalsOf(rest[i].au)|
        ensures 1 <= NalType(NalsOf(rest[i].au)[k]) <= 23
      {
        assert us[i + 1] == rest[i];
      }
      SentCarry(rest, mtu);
      NalsFramable(us[0].au);
      var units, tail := SentUnits(us), SentUnits(rest);
      assert units == (if nals == [] then [] else [Unit(nals, us[0].Frame().keyframe)]) + tail;
      forall i, k | 0 <= i < |units| && 0 <= k < |units[i].nals|
        ensures units[i].nals[k] != [] && RtpLaws.Carries(units[i].nals[k], mtu)
      {
        if nals == [] {
          assert units[i] == tail[i];
        } else if i > 0 {
          assert units[i] == tail[i - 1];
        } else {
          assert units[0].nals == nals && 1 <= NalType(nals[k]) <= 23;
        }
      }
    }
  }

  // ---------- The theorem ----------

  /** The driver's run on a clean stream, whatever the delivery schedule: all units but the last come out. */
  lemma DriverEmits(pre: bytes, us: seq<Sent>, ahead: nat, r: Run)
    requires us != [] && AllRegular(us)
    requires FirstHeaderAt(pre + NetDvr3Streams.Wire(us), |pre|) && IsRun(pre + NetDvr3Streams.Wire(us), ahead, r)
    ensures r == Run(FramesOf(us[..|us| - 1]), 0, ClosedInFrame)
  {
    hide FrameLoop, NetDvr3Streams.Wire, FramesOf, Find, At, AllRegular, IsRun;
    var dev := pre + NetDvr3Streams.Wire(us);
    RunFromFirstHeader(dev, |pre|, ahead, r);
    SplitAppend(pre, NetDvr3Streams.Wire(us));
    CleanStream(dev, |pre|, ahead, us);
  }

  /**
   End to end: whatever sizes the preamble reads have, and however frames, gets and other subscriptions
   interleave at the hub, a client whose queue never filled and has been drained receives, byte for byte and
   in order, exactly the NALs of the access units since it joined, from the first keyframe on. Of the units
   sent it misses the last one, for which there is no next header, and those damaged on the way.
   */
  lemma StreamCopy(
      pre: bytes, ds: seq<Damage>, hops: seq<nat>, after: seq<Sent>, ahead: nat, r: Run,
      events: seq<HubRuns.Event>, id: nat, pt: int, ssrc: int, mtu: int, ch: byte, seqNo: nat)
    requires |hops| == |ds| && Regular(ds, after)
    requires PlainNals(Undamaged(ds, after)) && SentKeyframesCarrySps(Undamaged(ds, after))
    requires
      var dev := pre + DamagedWire(ds, after);
      FirstHeaderAt(dev, |pre|) && IsRun(dev, ahead, r) && Recoverable(dev, |pre|, |pre| + 8 + 4096, ds, hops)
    requires Feeds(events, r.frames) && DrainedSub(HubRuns.Run(HubRuns.EMPTY, events), id)
    requires Rtp.Stamp(pt, ssrc, 0).Ok() && 3 <= mtu <= 0xFFFF - 12
    ensures
      var s := HubRuns.Run(HubRuns.EMPTY, events).subs[id];
      var sent := Pumped(pt, ssrc, mtu, ch, Calls(s.got), seqNo);
      && s.joined <= |SentUnits(Undamaged(ds, after))| && sent.Some?
      && ClientNals(sent.value) == Some(NalsIn(FromFirstKey(SentUnits(Undamaged(ds, after))[s.joined..])))
  {
    hide *;
    RegularMeans(ds, after);
    var us := Undamaged(ds, after);
    Recovers(pre, ds, hops, after, ahead, r);
    SentSps(us);
    SentCarry(us, mtu);
    SentUnitsAre(us);
    DrainedClientCopy(r.frames, events, id, pt, ssrc, mtu, ch, seqNo);
  }

  lemma SentUnitsAre(us: seq<Sent>)
    ensures SentUnits(us) == Units(FramesOf(us))
  {
  }

  // ---------- A client that keeps up ----------

  /** Behind every frame, one get. */
  function Alternating(frames: seq<VideoFrame>): seq<HubRuns.Event> {
    if frames == [] then []
    else [HubRuns.Frame(frames[0].payload, 0, frames[0].keyframe)] + ([HubRuns.Get(0)] + Alternating(frames[1..]))
  }

  /** A subscriber joins, and then takes what it is offered after every frame. */
  function Prompt(frames: seq<VideoFrame>): seq<HubRuns.Event> {
    [HubRuns.Subscribe(0)] + Alternating(frames)
  }

  /** Subscriber 0 was there from the start, has dropped nothing and left nothing in its queue. */
  predicate Drained(w: HubRuns.World) {
    DrainedSub(w, 0) && w.subs[0].joined == 0
  }

  lemma DrainedAgain(w: HubRuns.World, payload: bytes, keyframe: bool)
    requires Drained(w)
    ensures Drained(HubRuns.Step(HubRuns.Step(w, HubRuns.Frame(payload, 0, keyframe)), HubRuns.Get(0)))
  {
    hide NalsOf, Hub.AfterFrame, Hub.ItemOf;
  }

  lemma RunCons(w: HubRuns.World, e: HubRuns.Event, rest: seq<HubRuns.Event>)
    ensures HubRuns.Run(w, [e] + rest) == HubRuns.Run(HubRuns.Step(w, e), rest)
  {
    hide HubRuns.Step;
    SplitAppend([e], rest);
  }

  lemma {:induction false} StaysDrained(w: HubRuns.World, frames: seq<VideoFrame>)
    requires Drained(w)
    ensures Drained(HubRuns.Run(w, Alternating(frames))) && Feeds(Alternating(frames), frames)
    decreases |frames|
  {
    hide HubRuns.Run, HubRuns.Step, Drained;
    if frames == [] {
      RunOfNothing(w);
    } else {
      var e := HubRuns.Frame(frames[0].payload, 0, frames[0].keyframe);
      var rest := Alternating(frames[1..]);
      var w' := HubRuns.Step(w, e);
      RunCons(w, e, [HubRuns.Get(0)] + rest);
      RunCons(w', HubRuns.Get(0), rest);
      DrainedAgain(w, frames[0].payload, frames[0].keyframe);
      StaysDrained(HubRuns.Step(w', HubRuns.Get(0)), frames[1..]);
      SplitAppend([e], [HubRuns.Get(0)] + rest);
      SplitAppend([HubRuns.Get(0)], rest);
    }
  }

  lemma RunOfNothing(w: HubRuns.World)
    ensures HubRuns.Run(w, []) == w
  {
  }

  /** Such a client never drops anything, whatever the frames. */
  lemma PromptClient(frames: seq<VideoFrame>)
    ensures Drained(HubRuns.Run(HubRuns.EMPTY, Prompt(frames))) && Feeds(Prompt(frames), frames)
  {
    hide HubRuns.Run;
    RunCons(HubRuns.EMPTY, HubRuns.Subscribe(0), Alternating(frames));
    StaysDrained(HubRuns.Step(HubRuns.EMPTY, HubRuns.Subscribe(0)), frames);
    SplitAppend([HubRuns.Subscribe(0)], Alternating(frames));
  }

  /**
   So it receives the whole copy: if the damage is quiet, the driver has a run, and for each one the client
   ends up with exactly the undamaged units from the first keyframe on, all but the last.
   */
  lemma StreamCopyToPromptClient(
      pre: bytes, ds: seq<Damage>, after: seq<Sent>, pt: int, ssrc: int, mtu: int, ch: byte, seqNo: nat)
    requires Regular(ds, after) && QuietGaps(ds, after) && AllUnbacked(ds, after) && LongEnough(ds, after)
    requires NoMagicBefore(pre, FirstSent(ds, after)) && |pre| + 8 <= MAX_PREAMBLE + 1
    requires PlainNals(Undamaged(ds, after)) && SentKeyframesCarrySps(Undamaged(ds, after))
    requires Rtp.Stamp(pt, ssrc, 0).Ok() && 3 <= mtu <= 0xFFFF - 12
    ensures
      var run := Run(FramesOf(Undamaged(ds, after)), |ds|, ClosedInFrame);
      && OnlyRun(pre + DamagedWire(ds, after), run)
      && var w := HubRuns.Run(HubRuns.EMPTY, Prompt(run.frames));
      && Drained(w)
      && var sent := Pumped(pt, ssrc, mtu, ch, Calls(w.subs[0].got), seqNo);
      && sent.Some?
      && ClientNals(sent.value) == Some(NalsIn(FromFirstKey(SentUnits(Undamaged(ds, after)))))
  {
    hide *;
    RegularMeans(ds, after);
    var us := Undamaged(ds, after);
    var frames := FramesOf(us);
    QuietRecovery(pre, ds, after);
    PromptClient(frames);
    var w := HubRuns.Run(HubRuns.EMPTY, Prompt(frames));
    DrainedMeans(w);
    SentSps(us);
    SentCarry(us, mtu);
    SentUnitsAre(us);
    DrainedClientCopy(frames, Prompt(frames), 0, pt, ssrc, mtu, ch, seqNo);
    assert SentUnits(us)[0..] == SentUnits(us);
  }

  lemma DrainedMeans(w: HubRuns.World)
    requires Drained(w)
    ensures 0 in w.subs && DrainedSub(w, 0) && w.subs[0].joined == 0
  {
  }
}
