/**
 What the driver makes of whole streams: its runs against the position parser, its progress, clean
 streams, and recovery from garbage and from access units whose length overflows the header field.
 */
module NetDvr3Streams {
  import opened Bytes
  import opened AnnexB
  import opened Results
  import opened NetDvr3
  import opened Simulator

  // ---------- Every run is a prefix of the position parser's ----------

  lemma NextHeaderStep(dev: bytes, q: nat)
    ensures
      var m := Find(dev, MAGIC, q);
      NextHeader(dev, q) == if m == -1 then -1 else if m - q >= 4 then m - 4 else NextHeader(dev, m + 4)
  {
  }

  lemma BufferedIs(dev: bytes, q: nat, e: nat)
    ensures
      var f := Find(dev, MAGIC, q);
      Buffered(dev, q, e) == if f == -1 || f + 4 > e then -1 else f
  {
  }

  lemma FindLater(dev: bytes, q: nat, r: nat)
    requires q <= r
    requires Find(dev, MAGIC, q) == -1 || r <= Find(dev, MAGIC, q)
    ensures Find(dev, MAGIC, r) == Find(dev, MAGIC, q)
  {
    hide At;
  }

  /** Keeping a tail of 7 bytes loses nothing: a rescan that succeeds lands on the next header of the stream. */
  lemma {:induction false} RescanFindsNext(dev: bytes, q: nat, e: nat, scanned: nat)
    requires q <= e <= |dev| && Rescanned(dev, q, e, scanned).Found?
    ensures Rescanned(dev, q, e, scanned).header == NextHeader(dev, q)
    decreases |dev| - e
  {
    hide Find, At, Rescanned, NextHeader, Buffered;
    RescanStep(dev, q, e, scanned);
    NextHeaderStep(dev, q);
    BufferedIs(dev, q, e);
    var m := Buffered(dev, q, e);
    if m - q < 4 {
      var q' := q + Discarded(q, e, m);
      RescanFindsNext(dev, q', e + 4096, if m == -1 then scanned + Discarded(q, e, m) else scanned);
      if m == -1 {
        FindLater(dev, q, q');
        NextHeaderStep(dev, q');
      }
    }
  }

  lemma PureStep(dev: bytes, p: nat)
    requires HeaderAt(dev, p)
    ensures p + HEADER_LEN > |dev| ==> PureFrames(dev, p) == []
    ensures p + HEADER_LEN <= |dev| ==>
      if p + Need(dev, p) + 8 > |dev| then PureFrames(dev, p) == []
      else if Corroborated(dev, p) then
        PureFrames(dev, p) == [FrameAt(dev, p)] + PureFrames(dev, p + Need(dev, p))
      else
        var h := NextHeader(dev, p + 4);
        PureFrames(dev, p) == if h == -1 then [] else PureFrames(dev, h)
  {
  }

  /**
   Refinement: whatever has been read ahead, the driver emits a prefix of the position parser's frames,
   and all of them if the stream ends inside a frame.
   */
  lemma {:induction false} LoopIsPrefix(dev: bytes, p: nat, e: nat)
    requires HeaderAt(dev, p) && p + 8 <= e <= |dev|
    ensures FrameLoop(dev, p, e).frames <= PureFrames(dev, p)
    ensures FrameLoop(dev, p, e).end.ClosedInFrame? ==> FrameLoop(dev, p, e).frames == PureFrames(dev, p)
    decreases |dev| - p
  {
    hide Find, At, Rescanned, NextHeader, FrameLoop, PureFrames, Need, FrameAt;
    FrameLoopStep(dev, p, e);
    PureStep(dev, p);
    if p + HEADER_LEN <= |dev| && p + Need(dev, p) + 8 <= |dev| {
      var next := p + Need(dev, p);
      var e' := Max(e, next + 8);
      if Corroborated(dev, p) {
        LoopIsPrefix(dev, next, e');
      } else {
        match Rescanned(dev, p + 4, e', 0)
        case Found(h, e'') =>
          RescanFindsNext(dev, p + 4, e', 0);
          LoopIsPrefix(dev, h, e'');
          Neutral(FrameLoop(dev, h, e'').frames);
        case Starved =>
        case Lost =>
      }
    }
  }

  /** Two runs on one stream, under any two delivery schedules: one emits a prefix of the other's frames. */
  lemma SchedulesAgree(dev: bytes, ahead1: nat, r1: Run, ahead2: nat, r2: Run)
    requires IsRun(dev, ahead1, r1) && IsRun(dev, ahead2, r2)
    ensures r1.frames <= r2.frames || r2.frames <= r1.frames
  {
    hide Find, At, FrameLoop, PureFrames;
    var m := Find(dev, MAGIC, 0);
    if r1.frames != [] && r2.frames != [] {
      LoopIsPrefix(dev, m - 4, ahead1);
      LoopIsPrefix(dev, m - 4, ahead2);
    }
  }

  lemma {:induction false} NextHeaderStays(a: bytes, b: bytes, q: nat)
    requires q <= |a| && NextHeader(a, q) != -1
    ensures NextHeader(a + b, q) == NextHeader(a, q)
    decreases |a| - q
  {
    hide Find, At, NextHeader;
    NextHeaderStep(a, q);
    NextHeaderStep(a + b, q);
    FindAppendFrom(a, MAGIC, b, q);
    var m := Find(a, MAGIC, q);
    if m - q < 4 { NextHeaderStays(a, b, m + 4); }
  }

  lemma SameFrame(a: bytes, b: bytes, p: nat)
    requires p + HEADER_LEN <= |a| && p + Need(a, p) + 8 <= |a|
    ensures Need(a + b, p) == Need(a, p)
    ensures Corroborated(a + b, p) <==> Corroborated(a, p)
    ensures FrameAt(a + b, p) == FrameAt(a, p)
  {
    hide NalsOf, HasIdr, ReadLe16, ReadLe32;
    SliceOfAppend(a, b, p + 22, p + 24);
    SliceOfAppend(a, b, p + 16, p + 20);
    SliceOfAppend(a, b, p + HEADER_LEN, p + Need(a, p));
  }

  /** For the position parser, more bytes never change frames already determined. */
  lemma {:induction false} FramesOnlyGrow(a: bytes, b: bytes, p: nat)
    requires HeaderAt(a, p)
    ensures HeaderAt(a + b, p) && PureFrames(a, p) <= PureFrames(a + b, p)
    decreases |a| - p
  {
    hide Find, NextHeader, PureFrames, Need, FrameAt, Corroborated;
    PureStep(a, p);
    PureStep(a + b, p);
    if p + HEADER_LEN <= |a| && p + Need(a, p) + 8 <= |a| {
      SameFrame(a, b, p);
      if Corroborated(a, p) {
        Corroborates(a, p);
        FramesOnlyGrow(a, b, p + Need(a, p));
      } else {
        var h := NextHeader(a, p + 4);
        if h != -1 {
          NextHeaderStays(a, b, p + 4);
          FramesOnlyGrow(a, b, h);
        }
      }
    }
  }

  lemma BufferedStays(a: bytes, b: bytes, q: nat, e: nat)
    requires q <= e <= |a|
    ensures Buffered(a + b, q, e) == Buffered(a, q, e)
  {
    hide Find, At;
    FindSlice(a, MAGIC, q, e);
    FindSlice(a + b, MAGIC, q, e);
    SliceOfAppend(a, b, q, e);
  }

  /** A rescan that does not starve goes the same way when more bytes arrive. */
  lemma {:induction false} RescanStays(a: bytes, b: bytes, q: nat, e: nat, scanned: nat)
    requires q <= e <= |a| && !Rescanned(a, q, e, scanned).Starved?
    ensures Rescanned(a + b, q, e, scanned) == Rescanned(a, q, e, scanned)
    decreases |a| - e
  {
    hide Find, At, Rescanned, Buffered, Discarded;
    RescanStep(a, q, e, scanned);
    RescanStep(a + b, q, e, scanned);
    BufferedStays(a, b, q, e);
    var m := Buffered(a, q, e);
    if m - q < 4 {
      var drop := Discarded(q, e, m);
      var scanned' := if m == -1 then scanned + drop else scanned;
      if scanned' <= MAX_FRAME { RescanStays(a, b, q + drop, e + 4096, scanned'); }
    }
  }

  lemma HeaderStays(a: bytes, b: bytes, p: nat)
    requires HeaderAt(a, p)
    ensures HeaderAt(a + b, p)
  {
  }

  /**
   The driver's own run on a longer stream emits at least the same frames, and a run that gave up
   resynchronising is the same run. So where a read times out only decides where the frames stop.
   */
  lemma {:induction false} RunOnlyGrows(a: bytes, b: bytes, p: nat, e: nat)
    requires HeaderAt(a, p) && p + 8 <= e <= |a|
    ensures HeaderAt(a + b, p) && FrameLoop(a, p, e).frames <= FrameLoop(a + b, p, e).frames
    ensures FrameLoop(a, p, e).end.CouldNotResync? ==> FrameLoop(a + b, p, e) == FrameLoop(a, p, e)
    decreases |a| - p
  {
    hide Find, At, Rescanned, FrameLoop, Need, FrameAt, Corroborated, HeaderAt;
    HeaderStays(a, b, p);
    FrameLoopStep(a, p, e);
    FrameLoopStep(a + b, p, e);
    if p + HEADER_LEN <= |a| && p + Need(a, p) + 8 <= |a| {
      SameFrame(a, b, p);
      var next := p + Need(a, p);
      var e' := Max(e, next + 8);
      if Corroborated(a, p) {
        Corroborates(a, p);
        RunOnlyGrows(a, b, next, e');
        PrefixBehind([FrameAt(a, p)], FrameLoop(a, next, e').frames, FrameLoop(a + b, next, e').frames);
      } else {
        match Rescanned(a, p + 4, e', 0)
        case Found(h, e'') =>
          RescanStays(a, b, p + 4, e', 0);
          RunOnlyGrows(a, b, h, e'');
          PrefixBehind([], FrameLoop(a, h, e'').frames, FrameLoop(a + b, h, e'').frames);
        case Starved =>
        case Lost =>
          RescanStays(a, b, p + 4, e', 0);
      }
    }
  }

  lemma PrefixBehind<T>(first: seq<T>, s: seq<T>, t: seq<T>)
    requires s <= t
    ensures first + s <= first + t
  {
  }

  /**
   How a run fails before its first frame, in numbers: with no usable magic it is one error on more than 64 KiB and
   another on less; a magic that ends within 65537 bytes is always found, one behind 69632 never.
   */
  lemma PreambleOutcome(dev: bytes, ahead: nat, r: Run)
    requires IsRun(dev, ahead, r)
    ensures
      var m := Find(dev, MAGIC, 0);
      && (m < 4 ==> r == Run([], 0, if |dev| > 65536 then NoHeader else ClosedInPreamble))
      && (4 <= m <= 65533 ==> !r.end.NoHeader? && !r.end.ClosedInPreamble?)
      && (m + 4 > 69632 ==> r == Run([], 0, NoHeader))
  {
    hide Find, At, FrameLoop;
  }

  /** Every stream has a run. */
  lemma SomeRun(dev: bytes) returns (ahead: nat, r: Run)
    ensures IsRun(dev, ahead, r)
  {
    hide Find, At, FrameLoop;
    var m := Find(dev, MAGIC, 0);
    if |dev| > MAX_PREAMBLE && (m < 4 || m + 4 > MAX_PREAMBLE + 1) {
      ahead, r := 0, Run([], 0, NoHeader);
    } else if m < 4 {
      ahead, r := 0, Run([], 0, ClosedInPreamble);
    } else {
      ahead, r := m + 4, FrameLoop(dev, m - 4, m + 4);
    }
  }

  /** The same for whole runs: a stream cut short has no run whose frames a run of the whole does not begin with. */
  lemma TimeoutOnlyShortens(a: bytes, b: bytes, ahead: nat, r: Run) returns (ahead': nat, r': Run)
    requires IsRun(a, ahead, r)
    ensures IsRun(a + b, ahead', r') && r.frames <= r'.frames
  {
    hide Find, At, FrameLoop;
    if r.frames == [] {
      ahead', r' := SomeRun(a + b);
    } else {
      var m := Find(a, MAGIC, 0);
      FindAppendFrom(a, MAGIC, b, 0);
      RunOnlyGrows(a, b, m - 4, ahead);
      ahead', r' := ahead, FrameLoop(a + b, m - 4, ahead);
    }
  }

  // ---------- Where frames are emitted ----------

  /** The headers whose frames the loop emits. */
  function EmittedAt(dev: bytes, p: nat, e: nat): seq<nat>
    requires HeaderAt(dev, p) && p + 8 <= e <= |dev|
    decreases |dev| - p
  {
    if p + HEADER_LEN > |dev| || p + Need(dev, p) + 8 > |dev| then []
    else
      var next := p + Need(dev, p);
      var e' := Max(e, next + 8);
      if Corroborated(dev, p) then [p] + EmittedAt(dev, next, e')
      else
        match Rescanned(dev, p + 4, e', 0)
        case Found(h, e'') => EmittedAt(dev, h, e'')
        case _ => []
  }

  lemma EmittedStep(dev: bytes, p: nat, e: nat)
    requires HeaderAt(dev, p) && p + 8 <= e <= |dev|
    ensures p + HEADER_LEN > |dev| || p + Need(dev, p) + 8 > |dev| ==> EmittedAt(dev, p, e) == []
    ensures p + HEADER_LEN <= |dev| && p + Need(dev, p) + 8 <= |dev| ==>
      var next := p + Need(dev, p);
      var e' := Max(e, next + 8);
      if Corroborated(dev, p) then EmittedAt(dev, p, e) == [p] + EmittedAt(dev, next, e')
      else
        EmittedAt(dev, p, e) ==
        match Rescanned(dev, p + 4, e', 0)
        case Found(h, e'') => EmittedAt(dev, h, e'')
        case _ => []
  {
  }

  /** Headers in stream order, none inside another's frame, each with a frame corroborated by what follows it. */
  predicate Corroborating(dev: bytes, p: nat, at: seq<nat>) {
    forall k :: 0 <= k < |at| ==>
      && p <= at[k] && at[k] + HEADER_LEN <= |dev| && at[k] + Need(dev, at[k]) + 8 <= |dev|
      && HeaderAt(dev, at[k]) && Corroborated(dev, at[k])
      && (k > 0 ==> at[k - 1] + HEADER_LEN <= |dev| && at[k - 1] + Need(dev, at[k - 1]) <= at[k])
  }

  function FramesAt(dev: bytes, at: seq<nat>): seq<VideoFrame>
    requires forall k :: 0 <= k < |at| ==> at[k] + HEADER_LEN <= |dev| && at[k] + Need(dev, at[k]) <= |dev|
  {
    seq(|at|, k requires 0 <= k < |at| => FrameAt(dev, at[k]))
  }

  /**
   On any stream at all, whatever a run emits are disjoint pieces of the stream, in order, each behind a header
   and corroborated: it begins with a start code, and the next magic stands where the header says.
   */
  lemma {:induction false} EmittedAreCorroborated(dev: bytes, p: nat, e: nat)
    requires HeaderAt(dev, p) && p + 8 <= e <= |dev|
    ensures Corroborating(dev, p, EmittedAt(dev, p, e))
    ensures FrameLoop(dev, p, e).frames == FramesAt(dev, EmittedAt(dev, p, e))
    decreases |dev| - p
  {
    hide Find, At, Rescanned, FrameLoop, Need, FrameAt, Corroborated, HeaderAt, EmittedAt;
    FrameLoopStep(dev, p, e);
    EmittedStep(dev, p, e);
    if p + HEADER_LEN <= |dev| && p + Need(dev, p) + 8 <= |dev| {
      var next := p + Need(dev, p);
      var e' := Max(e, next + 8);
      if Corroborated(dev, p) {
        Corroborates(dev, p);
        EmittedAreCorroborated(dev, next, e');
        CorroboratingCons(dev, p, EmittedAt(dev, next, e'));
      } else if Rescanned(dev, p + 4, e', 0).Found? {
        var h, e'' := Rescanned(dev, p + 4, e', 0).header, Rescanned(dev, p + 4, e', 0).end;
        EmittedAreCorroborated(dev, h, e'');
        Neutral(FramesAt(dev, EmittedAt(dev, h, e'')));
      }
    }
  }

  lemma CorroboratingCons(dev: bytes, p: nat, more: seq<nat>)
    requires HeaderAt(dev, p) && p + HEADER_LEN <= |dev| && p + Need(dev, p) + 8 <= |dev| && Corroborated(dev, p)
    requires Corroborating(dev, p + Need(dev, p), more)
    ensures Corroborating(dev, p, [p] + more)
    ensures FramesAt(dev, [p] + more) == [FrameAt(dev, p)] + FramesAt(dev, more)
  {
    hide HeaderAt, Need, Corroborated, FrameAt;
  }

  lemma EmittedFrom(dev: bytes, p: nat, e: nat)
    requires HeaderAt(dev, p) && p + 8 <= e <= |dev|
    ensures forall a :: a in EmittedAt(dev, p, e) ==> p <= a
  {
    hide EmittedAt, HeaderAt, Need, Corroborated, FrameLoop;
    EmittedAreCorroborated(dev, p, e);
  }

  // ---------- Progress ----------

  /** Every frame takes at least 28 bytes of the stream, every resync at least 8. */
  lemma {:induction false} Progress(dev: bytes, p: nat, e: nat)
    requires HeaderAt(dev, p) && p + 8 <= e <= |dev|
    ensures
      var r := FrameLoop(dev, p, e);
      var failed := if r.end.ClosedInFrame? then 0 else 1;
      28 * |r.frames| + 8 * (r.resyncs - failed) <= |dev| - p
    decreases |dev| - p
  {
    hide Find, At, Rescanned, FrameLoop, Corroborated, FrameAt;
    FrameLoopStep(dev, p, e);
    if p + HEADER_LEN <= |dev| && p + Need(dev, p) + 8 <= |dev| {
      var next := p + Need(dev, p);
      var e' := Max(e, next + 8);
      if Corroborated(dev, p) {
        Corroborates(dev, p);
        Progress(dev, next, e');
      } else {
        match Rescanned(dev, p + 4, e', 0)
        case Found(h, e'') =>
          RescanSkipsHeader(dev, p, e');
          Progress(dev, h, e'');
        case Starved =>
        case Lost =>
      }
    }
  }

  lemma Corroborates(dev: bytes, p: nat)
    requires p + HEADER_LEN <= |dev| && Corroborated(dev, p)
    ensures HeaderAt(dev, p + Need(dev, p))
  {
  }

  /** The header that failed is behind the scan: its own magic is found first and skipped. */
  lemma RescanSkipsHeader(dev: bytes, p: nat, e: nat)
    requires HeaderAt(dev, p) && p + 8 <= e <= |dev|
    ensures
      Rescanned(dev, p + 4, e, 0) == if e + 4096 > |dev| then Starved else Rescanned(dev, p + 8, e + 4096, 0)
  {
    hide Rescanned;
    RescanStep(dev, p + 4, e, 0);
  }

  // ---------- What the simulator sends ----------

  datatype Sent = Sent(seqNo: int, ts: int, keyframe: bool, au: bytes)
  {
    function Header(): bytes {
      HeaderBytes(seqNo, ts, keyframe, |au|)
    }

    /** The access unit begins with a start code and its length fits the header field. */
    predicate Regular() {
      START4 <= au && |au| <= 4 + 0xFFFF
    }

    function Frame(): VideoFrame {
      VideoFrame(au, Word(ts), keyframe || HasIdr(NalsOf(au)))
    }
  }

  function Wire(us: seq<Sent>): bytes {
    if us == [] then [] else us[0].Header() + (us[0].au + Wire(us[1..]))
  }

  function FramesOf(us: seq<Sent>): seq<VideoFrame> {
    if us == [] then [] else [us[0].Frame()] + FramesOf(us[1..])
  }

  predicate AllRegular(us: seq<Sent>) {
    forall i :: 0 <= i < |us| ==> us[i].Regular()
  }

  /** `s` stands in the stream at `p`. */
  predicate Placed(dev: bytes, p: nat, s: bytes) {
    p + |s| <= |dev| && dev[p..p + |s|] == s
  }

  lemma PlacedParts(dev: bytes, p: nat, s: bytes, t: bytes)
    requires Placed(dev, p, s + t)
    ensures Placed(dev, p, s) && Placed(dev, p + |s|, t)
  {
    var whole := dev[p..p + |s + t|];
    SplitAppend(s, t);
    SliceOfSlice(dev, p, p + |s + t|, 0, |s|);
    SliceOfSlice(dev, p, p + |s + t|, |s|, |s| + |t|);
  }

  lemma HeaderBytesFields(u: Sent)
    ensures
      var h := u.Header();
      && At(h, MAGIC, 4) && h[16..20] == Le32(Word(u.ts)) && h[20] == (if u.keyframe then 0x64 else 0x66)
      && h[22..24] == Le16((|u.au| - 4) % 0x1_0000)
  {
    hide Le32;
  }

  lemma HeaderPlaced(dev: bytes, p: nat, u: Sent)
    requires Placed(dev, p, u.Header())
    ensures HeaderAt(dev, p) && p + HEADER_LEN <= |dev|
    ensures Need(dev, p) == 28 + (|u.au| - 4) % 0x1_0000
    ensures ReadLe32(dev[p + 16..p + 20]) == Word(u.ts) && (dev[p + 20] == FRAME_I <==> u.keyframe)
  {
    var h := u.Header();
    HeaderBytesFields(u);
    hide HeaderBytes;
    SliceOfSlice(dev, p, p + 24, 16, 20);
    SliceOfSlice(dev, p, p + 24, 22, 24);
    FieldsRoundTrip(Word(u.ts));
    FieldsRoundTrip((|u.au| - 4) % 0x1_0000);
    assert dev[p..p + 24][20] == dev[p + 20];
    assert forall k :: 4 <= k < 8 ==> h[k] == dev[p + k];
  }

  /** What the driver reads in a header the simulator writes, on its own. */
  lemma HeaderReadBack(seqNo: int, ts: int, keyframe: bool, payloadLen: int)
    ensures
      ParseFrameHeader(HeaderBytes(seqNo, ts, keyframe, payloadLen)) ==
      Some(Header(
        seqNo % 0x1_0000_0000, ts % 0x1_0000_0000, if keyframe then 0x64 else 0x66, 4 + (payloadLen - 4) % 0x1_0000))
  {
    hide Le32, Le16, Word, ReadLe32, ReadLe16;
    HeaderSlices(seqNo, ts, keyframe, payloadLen);
    WordIs(seqNo);
    WordIs(ts);
    FieldsRoundTrip(Word(seqNo));
    FieldsRoundTrip(Word(ts));
    FieldsRoundTrip((payloadLen - 4) % 0x1_0000);
    FieldsRoundTrip(0x0063);
    FieldsRoundTrip(0x000c);
    var h := HeaderBytes(seqNo, ts, keyframe, payloadLen);
    assert h[4..6] == h[4..8][..2] && h[6..8] == h[4..8][2..] && h[20] == h[20..22][0];
  }

  /** A regular access unit, followed by a header, is corroborated and emitted as it was sent. */
  lemma UnitPlaced(dev: bytes, p: nat, u: Sent)
    requires u.Regular() && Placed(dev, p, u.Header()) && Placed(dev, p + 24, u.au)
    requires HeaderAt(dev, p + 24 + |u.au|)
    ensures HeaderAt(dev, p) && p + HEADER_LEN <= |dev| && Need(dev, p) == 24 + |u.au|
    ensures Corroborated(dev, p) && FrameAt(dev, p) == u.Frame()
  {
    hide NalsOf, HasIdr, HeaderBytes;
    HeaderPlaced(dev, p, u);
    AtIsSlice(dev, START4, p + 24);
    SliceOfSlice(dev, p + 24, p + 24 + |u.au|, 0, 4);
    assert u.au[0..4] == START4;
  }

  /**
   The driver's keyframe test, on any frame: the type byte is 0x64, or some NAL is an IDR slice by the low five bits
   of its header byte.
   */
  lemma KeyframeIff(dev: bytes, p: nat)
    requires p + HEADER_LEN <= |dev| && p + Need(dev, p) <= |dev|
    ensures
      var nals := NalsOf(FrameAt(dev, p).payload);
      FrameAt(dev, p).keyframe <==> dev[p + 20] == 0x64 || exists k :: 0 <= k < |nals| && SliceOf(nals[k], 5, 5)
  {
    hide NalsOf, ReadLe32, ReadLe16;
    IdrIsSlice(NalsOf(FrameAt(dev, p).payload));
  }

  lemma IdrIsSlice(nals: seq<bytes>)
    ensures HasIdr(nals) <==> exists k :: 0 <= k < |nals| && SliceOf(nals[k], 5, 5)
  {
    if k :| 0 <= k < |nals| && SliceOf(nals[k], 5, 5) { assert NalType(nals[k]) == NAL_IDR; }
    if k :| 0 <= k < |nals| && NalType(nals[k]) == NAL_IDR { assert SliceOf(nals[k], 5, 5); }
  }

  /** A simulated access unit comes out as a keyframe exactly if its one slice is an IDR slice. */
  lemma SentKeyframeIff(g: seq<bytes>, seqNo: int, ts: int)
    requires OneVclLast(g) && Framable(g)
    ensures
      var u := ToUnit(g);
      Sent(seqNo, ts, u.keyframe, u.au).Frame().keyframe <==> g[|g| - 1] != [] && g[|g| - 1][0] % 32 == 5
  {
    hide NalsOf, Join, NalType;
    NalsOfJoin(g);
    KeyframeIsIdr(g);
    IdrIsSlice(g);
  }

  // ---------- Clean streams ----------

  lemma WireStep(us: seq<Sent>)
    requires us != []
    ensures Wire(us) == us[0].Header() + (us[0].au + Wire(us[1..])) && |us[0].Header()| == 24
  {
    hide HeaderBytes;
  }

  lemma FirstOfWire(dev: bytes, p: nat, us: seq<Sent>)
    requires us != [] && Placed(dev, p, Wire(us))
    ensures
      var u := us[0];
      && HeaderAt(dev, p) && Placed(dev, p, u.Header()) && Placed(dev, p + 24, u.au)
      && Placed(dev, p + 24 + |u.au|, Wire(us[1..]))
      && |Wire(us)| == 24 + |u.au| + |Wire(us[1..])|
  {
    hide *;
    var u := us[0];
    WireStep(us);
    PlacedParts(dev, p, u.Header(), u.au + Wire(us[1..]));
    PlacedParts(dev, p + 24, u.au, Wire(us[1..]));
    HeaderPlaced(dev, p, u);
  }

  /** The frame loop can start at `p` with the bytes up to `e` buffered, and its run is `r`. */
  predicate RunsTo(dev: bytes, p: nat, e: nat, r: Run) {
    HeaderAt(dev, p) && p + 8 <= e <= |dev| && FrameLoop(dev, p, e) == r
  }

  lemma StepEmits(dev: bytes, p: nat, e: nat, u: Sent)
    requires p + 8 <= e <= |dev| && u.Regular()
    requires Placed(dev, p, u.Header()) && Placed(dev, p + 24, u.au) && HeaderAt(dev, p + 24 + |u.au|)
    ensures
      var next := p + 24 + |u.au|;
      && HeaderAt(dev, p) && Max(e, next + 8) <= |dev|
      && FrameLoop(dev, p, e) == FrameLoop(dev, next, Max(e, next + 8)).After([u.Frame()], 0)
  {
    hide At, FrameLoop, HeaderBytes, NalsOf, HasIdr, Need, FrameAt, Corroborated;
    UnitPlaced(dev, p, u);
    FrameLoopStep(dev, p, e);
  }

  /** Regular access units are emitted one by one, and nothing is resynchronised. */
  lemma {:induction false} CleanPrefix(dev: bytes, p: nat, e: nat, us: seq<Sent>) returns (e': nat)
    requires p + 8 <= e <= |dev|
    requires AllRegular(us) && Placed(dev, p, Wire(us)) && HeaderAt(dev, p + |Wire(us)|)
    ensures e' == Max(e, p + |Wire(us)| + 8) <= |dev|
    ensures RunsTo(dev, p, e, FrameLoop(dev, p + |Wire(us)|, e').After(FramesOf(us), 0))
    decreases |us|
  {
    hide At, FrameLoop, HeaderBytes, Placed;
    if us == [] {
      e' := e;
      Neutral(FrameLoop(dev, p, e).frames);
    } else {
      var u, rest := us[0], us[1..];
      FirstOfWire(dev, p, us);
      var next := p + 24 + |u.au|;
      if rest != [] {
        FirstOfWire(dev, next, rest);
      }
      StepEmits(dev, p, e, u);
      hide Wire;
      e' := CleanPrefix(dev, next, Max(e, next + 8), rest);
      AfterAfter(FrameLoop(dev, next + |Wire(rest)|, e'), [u.Frame()], 0, FramesOf(rest), 0);
    }
  }

  lemma {:induction false} WireAppend(us: seq<Sent>, vs: seq<Sent>)
    ensures Wire(us + vs) == Wire(us) + Wire(vs)
    ensures FramesOf(us + vs) == FramesOf(us) + FramesOf(vs)
  {
    if us == [] {
      Neutral(vs);
      Neutral(Wire(vs));
      Neutral(FramesOf(vs));
    } else {
      hide HeaderBytes;
      var u, rest := us[0], us[1..];
      SliceOfAppend(us, vs, 1, 1);
      WireAppend(rest, vs);
      Associative([u.Frame()], FramesOf(rest), FramesOf(vs));
      Associative(u.au, Wire(rest), Wire(vs));
      Associative(u.Header(), u.au + Wire(rest), Wire(vs));
    }
  }

  lemma LastUnit(dev: bytes, p: nat, e: nat, u: Sent)
    requires u.Regular() && Placed(dev, p, u.Header()) && p + 24 + |u.au| == |dev| && p + 8 <= e <= |dev|
    ensures RunsTo(dev, p, e, Run([], 0, ClosedInFrame))
  {
    hide At, FrameLoop, HeaderBytes, Need, FrameAt, Corroborated, ReadLe32;
    HeaderPlaced(dev, p, u);
    FrameLoopStep(dev, p, e);
  }

  /** A stream that ends in a list of regular access units: all but the last, uncorroborated one come out. */
  lemma CleanStream(dev: bytes, p: nat, e: nat, us: seq<Sent>)
    requires us != [] && AllRegular(us) && p <= |dev| && dev[p..] == Wire(us) && p + 8 <= e <= |dev|
    ensures RunsTo(dev, p, e, Run(FramesOf(us[..|us| - 1]), 0, ClosedInFrame))
  {
    hide *;
    var init, last := us[..|us| - 1], us[|us| - 1];
    SplitWire(dev, p, us);
    RegularParts(us);
    CleanThenLast(dev, p, e, init, last);
  }

  lemma RegularParts(us: seq<Sent>)
    requires us != [] && AllRegular(us)
    ensures AllRegular(us[..|us| - 1]) && us[|us| - 1].Regular()
  {
  }

  lemma CleanThenLast(dev: bytes, p: nat, e: nat, init: seq<Sent>, last: Sent)
    requires AllRegular(init) && last.Regular() && p + 8 <= e <= |dev|
    requires Placed(dev, p, Wire(init)) && Placed(dev, p + |Wire(init)|, Wire([last]))
    requires p + |Wire(init)| + 24 + |last.au| == |dev|
    ensures RunsTo(dev, p, e, Run(FramesOf(init), 0, ClosedInFrame))
  {
    hide At, FrameLoop, HeaderBytes, Wire, FramesOf, Placed, AllRegular, Sent.Regular;
    var q := p + |Wire(init)|;
    FirstOfWire(dev, q, [last]);
    var e' := CleanPrefix(dev, p, e, init);
    LastUnit(dev, q, e', last);
    Neutral(FramesOf(init));
  }

  lemma SplitWire(dev: bytes, p: nat, us: seq<Sent>)
    requires us != [] && p <= |dev| && dev[p..] == Wire(us)
    ensures
      var init, last := us[..|us| - 1], us[|us| - 1];
      && Placed(dev, p, Wire(init)) && Placed(dev, p + |Wire(init)|, Wire([last]))
      && p + |Wire(init)| + 24 + |last.au| == |dev|
  {
    hide Wire, HeaderBytes;
    var init, last := us[..|us| - 1], us[|us| - 1];
    assert us == init + [last];
    WireAppend(init, [last]);
    WireOfOne(last);
    assert dev[p..p + |Wire(us)|] == dev[p..];
    PlacedParts(dev, p, Wire(init), Wire([last]));
  }

  lemma WireOfOne(u: Sent)
    ensures Wire([u]) == u.Header() + u.au
  {
    hide HeaderBytes;
    Neutral(u.au);
    assert [u][1..] == [];
  }

  // ---------- The first header ----------

  /** The first magic of the stream belongs to the header at `n`, within what the preamble may take. */
  predicate FirstHeaderAt(dev: bytes, n: nat) {
    Find(dev, MAGIC, 0) == n + 4 && n + 8 <= MAX_PREAMBLE + 1
  }

  /** Preamble and sequence number hold no magic, and form none with the first bytes of the true one. */
  predicate NoMagicBefore(pre: bytes, u: Sent) {
    Find(pre + u.Header()[..7], MAGIC, 0) == -1
  }

  /** Then the first magic of the stream is that of the header behind the preamble. */
  lemma FirstHeaderFound(pre: bytes, u: Sent, rest: bytes)
    requires NoMagicBefore(pre, u) && |pre| + 8 <= MAX_PREAMBLE + 1
    ensures FirstHeaderAt(pre + (u.Header() + rest), |pre|)
  {
    hide HeaderBytes;
    var head, tail := u.Header()[..7], u.Header()[7..] + rest;
    var dev := pre + (u.Header() + rest);
    HeaderBytesFields(u);
    assert u.Header() == head + u.Header()[7..];
    assert dev == (pre + head) + tail;
    FindAppend(pre + head, MAGIC, tail);
    assert forall k :: 4 <= k < 8 ==> dev[|pre| + k] == u.Header()[k];
    assert At(dev, MAGIC, |pre| + 4);
  }

  /** Then every run gets through the preamble, less than one read ahead of that header. */
  lemma RunFromFirstHeader(dev: bytes, n: nat, ahead: nat, r: Run)
    requires FirstHeaderAt(dev, n) && IsRun(dev, ahead, r)
    ensures n + 8 <= ahead < n + 8 + 4096 && RunsTo(dev, n, ahead, r)
  {
    hide Find, At, FrameLoop;
  }

  /** Among them the one whose preamble reads stop right behind that magic. */
  lemma RunExists(dev: bytes, n: nat)
    requires FirstHeaderAt(dev, n)
    ensures HeaderAt(dev, n) && n + 8 <= |dev| && IsRun(dev, n + 8, FrameLoop(dev, n, n + 8))
  {
    hide Find, At, FrameLoop;
  }
}
