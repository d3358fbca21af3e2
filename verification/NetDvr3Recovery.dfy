/**
 What the driver makes of damaged streams: garbage between units, access units whose length overflows the
 header field, and false headers on the way to the next true one.
 */
module NetDvr3Recovery {
  import opened Bytes
  import opened AnnexB
  import opened NetDvr3
  import opened NetDvr3Streams
  import opened Simulator

  // ---------- One rescan ----------

  /** How many magics from `q` on are skipped because less than 4 bytes before them are left. */
  function Skips(dev: bytes, q: nat): nat
    decreases |dev| - q
  {
    var m := Find(dev, MAGIC, q);
    if m == -1 || m - q >= 4 then 0 else 1 + Skips(dev, m + 4)
  }

  lemma SkipsStep(dev: bytes, q: nat)
    ensures
      var m := Find(dev, MAGIC, q);
      Skips(dev, q) == if m == -1 || m - q >= 4 then 0 else 1 + Skips(dev, m + 4)
  {
  }

  /**
   A rescan that may still discard everything up to the next header finds it, if it has one read of bytes
   behind that header and one more for every magic it skips.
   */
  lemma {:induction false} RescanReaches(dev: bytes, q: nat, e: nat, scanned: nat, h: nat)
    requires q <= e <= |dev| && NextHeader(dev, q) == h
    requires scanned + (h - q) <= MAX_FRAME && Max(e, h + 8 + 4096) + 4096 * Skips(dev, q) <= |dev|
    ensures Rescanned(dev, q, e, scanned).Found? && Rescanned(dev, q, e, scanned).header == h
    ensures Rescanned(dev, q, e, scanned).end <= Max(e, h + 8 + 4096) + 4096 * Skips(dev, q)
    decreases |dev| - e
  {
    hide Find, At, Rescanned, Buffered, NextHeader, Skips;
    RescanStep(dev, q, e, scanned);
    BufferedIs(dev, q, e);
    NextHeaderStep(dev, q);
    SkipsStep(dev, q);
    var m := Buffered(dev, q, e);
    if m == -1 {
      var drop := Discarded(q, e, -1);
      FindLater(dev, q, q + drop);
      NextHeaderStep(dev, q + drop);
      SkipsStep(dev, q + drop);
      RescanReaches(dev, q + drop, e + 4096, scanned + drop, h);
    } else if m - q < 4 {
      RescanReaches(dev, m + 4, e + 4096, scanned, h);
    }
  }

  /** A header with a whole frame, from which the next header is within the scan limit. */
  predicate Near(dev: bytes, p: nat) {
    && p + HEADER_LEN <= |dev| && p + Need(dev, p) + 8 <= |dev|
    && NextHeader(dev, p + 4) != -1 && NextHeader(dev, p + 4) - (p + 8) <= MAX_FRAME
  }

  /** If it is not corroborated, it is dropped, and the driver lands on that next header after one resync. */
  lemma DropUncorroborated(dev: bytes, p: nat, e: nat) returns (e': nat)
    requires HeaderAt(dev, p) && p + 8 <= e <= |dev| && Near(dev, p) && !Corroborated(dev, p)
    requires
      Max(Max(e, p + Need(dev, p) + 8), NextHeader(dev, p + 4) + 8) + 4096 * Skips(dev, p + 4) <= |dev|
    ensures
      var h := NextHeader(dev, p + 4);
      && p + 4 <= h && HeaderAt(dev, h)
      && h + 8 <= e' <= Max(Max(e, p + Need(dev, p) + 8), h + 8) + 4096 * Skips(dev, p + 4)
      && RunsTo(dev, p, e, FrameLoop(dev, h, e').After([], 1)) && EmittedAt(dev, p, e) == EmittedAt(dev, h, e')
  {
    hide Find, Rescanned, FrameLoop, Need, NextHeader, Skips, Corroborated, EmittedAt;
    FrameLoopStep(dev, p, e);
    EmittedStep(dev, p, e);
    var e1 := Max(e, p + Need(dev, p) + 8);
    RescanSkipsHeader(dev, p, e1);
    OwnMagic(dev, p);
    RescanReaches(dev, p + 8, e1 + 4096, 0, NextHeader(dev, p + 4));
    e' := Rescanned(dev, p + 4, e1, 0).end;
  }

  lemma OwnMagic(dev: bytes, p: nat)
    requires HeaderAt(dev, p)
    ensures NextHeader(dev, p + 4) == NextHeader(dev, p + 8)
    ensures Skips(dev, p + 4) == 1 + Skips(dev, p + 8)
  {
    hide NextHeader, Skips;
    NextHeaderStep(dev, p + 4);
    SkipsStep(dev, p + 4);
  }

  // ---------- Giving up ----------

  /** The end of the last whole read that the stream allows. */
  function LastRead(dev: bytes, e: nat): nat
    requires e <= |dev|
  {
    e + 4096 * ((|dev| - e) / 4096)
  }

  lemma LastReadStep(dev: bytes, e: nat)
    requires e <= |dev|
    ensures e <= LastRead(dev, e)
    ensures if e + 4096 <= |dev| then LastRead(dev, e) == LastRead(dev, e + 4096) else LastRead(dev, e) == e
  {
  }

  /** Without another magic a rescan never succeeds: it gives up once it has discarded more than 4 MiB. */
  lemma {:induction false} RescanFails(dev: bytes, q: nat, e: nat, scanned: nat)
    requires q <= e <= |dev| && Find(dev, MAGIC, q) == -1 && scanned <= 4194304
    ensures
      Rescanned(dev, q, e, scanned) == if scanned + (LastRead(dev, e) - q - 7) > 4194304 then Lost else Starved
    decreases |dev| - e
  {
    hide Find, At, Rescanned, Buffered, LastRead;
    RescanStep(dev, q, e, scanned);
    BufferedIs(dev, q, e);
    LastReadStep(dev, e);
    var drop := Discarded(q, e, -1);
    FindLater(dev, q, q + drop);
    if scanned + drop <= 4194304 && e + 4096 <= |dev| { RescanFails(dev, q + drop, e + 4096, scanned + drop); }
  }

  /**
   How a run ends in garbage: behind an uncorroborated header with no other magic after it, the driver gives up
   exactly if it can read on and discard more than 4 MiB in whole reads, and is cut off by the end of the
   stream otherwise.
   */
  lemma GivesUpIff(dev: bytes, p: nat, e: nat)
    requires HeaderAt(dev, p) && p + 8 <= e <= |dev| && Find(dev, MAGIC, p + 8) == -1
    requires p + HEADER_LEN <= |dev| && p + Need(dev, p) + 8 <= |dev|
    ensures
      var e1 := Max(e, p + Need(dev, p) + 8);
      var lost := e1 + 4096 <= |dev| && LastRead(dev, e1) - (p + 8) - 7 > 4194304;
      RunsTo(dev, p, e, Run([], 1, if lost then CouldNotResync else ClosedInResync))
  {
    hide Find, At, Rescanned, FrameLoop, Need, LastRead;
    FrameLoopStep(dev, p, e);
    var e1 := Max(e, p + Need(dev, p) + 8);
    NotCorroborated(dev, p);
    RescanSkipsHeader(dev, p, e1);
    LastReadStep(dev, e1);
    if e1 + 4096 <= |dev| { RescanFails(dev, p + 8, e1 + 4096, 0); }
  }

  lemma NotCorroborated(dev: bytes, p: nat)
    requires p + HEADER_LEN <= |dev| && Find(dev, MAGIC, p + 8) == -1
    ensures !Corroborated(dev, p)
  {
    hide Find;
  }

  // ---------- A chain of false headers ----------

  /** From the header at `p`, the next one, the next behind that, and so on, `n` of them, lead to the one at `h`. */
  predicate Chain(dev: bytes, p: nat, h: nat, n: nat)
    decreases n
  {
    if n == 0 then p == h else Near(dev, p) && Chain(dev, NextHeader(dev, p + 4), h, n - 1)
  }

  /** None of the `n` headers from `p` on is corroborated. */
  predicate NoneCorroborated(dev: bytes, p: nat, n: nat)
    decreases n
  {
    n == 0 || !Near(dev, p) || (!Corroborated(dev, p) && NoneCorroborated(dev, NextHeader(dev, p + 4), n - 1))
  }

  /** The furthest byte these headers make the driver buffer. */
  function Reach(dev: bytes, p: nat, n: nat): nat
    decreases n
  {
    if n == 0 || !Near(dev, p) then 0
    else Max(p + Need(dev, p) + 8, Reach(dev, NextHeader(dev, p + 4), n - 1))
  }

  /** How many extra reads they may cost. */
  function Reads(dev: bytes, p: nat, n: nat): nat
    decreases n
  {
    if n == 0 || !Near(dev, p) then 0
    else Skips(dev, p + 4) + Reads(dev, NextHeader(dev, p + 4), n - 1)
  }

  /** How far the buffer can reach in the end. */
  function Ahead(dev: bytes, p: nat, h: nat, n: nat, e: nat): nat {
    Max(Max(e, Reach(dev, p, n)), h + 8) + 4096 * Reads(dev, p, n)
  }

  lemma ChainStep(dev: bytes, p: nat, h: nat, n: nat)
    requires Chain(dev, p, h, n) && n > 0
    ensures Near(dev, p) && Chain(dev, NextHeader(dev, p + 4), h, n - 1)
    ensures Reach(dev, p, n) == Max(p + Need(dev, p) + 8, Reach(dev, NextHeader(dev, p + 4), n - 1))
    ensures Reads(dev, p, n) == Skips(dev, p + 4) + Reads(dev, NextHeader(dev, p + 4), n - 1)
    ensures
      NoneCorroborated(dev, p, n) <==>
      !Corroborated(dev, p) && NoneCorroborated(dev, NextHeader(dev, p + 4), n - 1)
  {
    hide Near, Need, Skips, NextHeader, Corroborated;
    NextIsNear(dev, p);
  }

  lemma NextIsNear(dev: bytes, p: nat)
    requires Near(dev, p)
    ensures p + HEADER_LEN <= |dev| && p + Need(dev, p) + 8 <= |dev| && p + 4 <= NextHeader(dev, p + 4)
  {
  }

  lemma {:induction false} ChainForward(dev: bytes, p: nat, h: nat, n: nat)
    requires Chain(dev, p, h, n)
    ensures p <= h
    decreases n
  {
    if n > 0 { ChainForward(dev, NextHeader(dev, p + 4), h, n - 1); }
  }

  /** If none of them is corroborated, each costs exactly one resync, and nothing is emitted on the way. */
  lemma {:induction false} Wander(dev: bytes, p: nat, h: nat, n: nat, e: nat) returns (e': nat)
    requires HeaderAt(dev, p) && p + 8 <= e <= |dev|
    requires Chain(dev, p, h, n) && NoneCorroborated(dev, p, n) && Ahead(dev, p, h, n, e) <= |dev|
    ensures HeaderAt(dev, h) && h + 8 <= e' <= Ahead(dev, p, h, n, e)
    ensures RunsTo(dev, p, e, FrameLoop(dev, h, e').After([], n)) && EmittedAt(dev, p, e) == EmittedAt(dev, h, e')
    decreases n
  {
    hide *;
    if n == 0 {
      e' := e;
      NoHop(dev, p, h, e);
    } else {
      ChainStep(dev, p, h, n);
      NextIsNear(dev, p);
      var h1 := NextHeader(dev, p + 4);
      ChainForward(dev, h1, h, n - 1);
      FirstHopFits(dev, p, h, n, e);
      var e1 := DropUncorroborated(dev, p, e);
      RestFits(dev, p, h, n, e, e1);
      e' := Wander(dev, h1, h, n - 1, e1);
      OneMoreHop(dev, p, e, h1, e1, h, e', n - 1);
    }
  }

  lemma NoHop(dev: bytes, p: nat, h: nat, e: nat)
    requires HeaderAt(dev, p) && p + 8 <= e <= |dev| && Chain(dev, p, h, 0)
    ensures p == h && h + 8 <= e <= Ahead(dev, p, h, 0, e) && RunsTo(dev, p, e, FrameLoop(dev, h, e).After([], 0))
  {
    hide FrameLoop, HeaderAt;
    Neutral(FrameLoop(dev, p, e).frames);
  }

  lemma FirstHopFits(dev: bytes, p: nat, h: nat, n: nat, e: nat)
    requires n > 0 && Chain(dev, p, h, n) && p + HEADER_LEN <= |dev| && NextHeader(dev, p + 4) != -1
    requires NextHeader(dev, p + 4) <= h && Ahead(dev, p, h, n, e) <= |dev|
    ensures
      Max(Max(e, p + Need(dev, p) + 8), NextHeader(dev, p + 4) + 8) + 4096 * Skips(dev, p + 4) <= |dev|
  {
    hide Need, NextHeader, Skips, Chain, Near, Reach, Reads;
    ChainStep(dev, p, h, n);
  }

  lemma RestFits(dev: bytes, p: nat, h: nat, n: nat, e: nat, e1: nat)
    requires n > 0 && Chain(dev, p, h, n) && p + HEADER_LEN <= |dev| && NextHeader(dev, p + 4) != -1
    requires NextHeader(dev, p + 4) <= h
    requires
      e1 <= Max(Max(e, p + Need(dev, p) + 8), NextHeader(dev, p + 4) + 8) + 4096 * Skips(dev, p + 4)
    ensures Ahead(dev, NextHeader(dev, p + 4), h, n - 1, e1) <= Ahead(dev, p, h, n, e)
  {
    hide Need, NextHeader, Skips, Chain, Near, Reach, Reads;
    ChainStep(dev, p, h, n);
  }

  /**
   Rejection, exactly: of the headers on the way to `h` nothing is emitted if and only if none is corroborated.
   */
  lemma {:induction false} RejectedIff(dev: bytes, p: nat, h: nat, n: nat, e: nat)
    requires HeaderAt(dev, p) && p + 8 <= e <= |dev|
    requires Chain(dev, p, h, n) && Ahead(dev, p, h, n, e) <= |dev|
    ensures (forall a :: a in EmittedAt(dev, p, e) ==> h <= a) <==> NoneCorroborated(dev, p, n)
    decreases n
  {
    hide *;
    if n == 0 {
      NoHop(dev, p, h, e);
      EmittedFrom(dev, p, e);
      NoneLeft(dev, p);
    } else {
      ChainStep(dev, p, h, n);
      NextIsNear(dev, p);
      var h1 := NextHeader(dev, p + 4);
      ChainForward(dev, h1, h, n - 1);
      if Corroborated(dev, p) {
        EmittedStep(dev, p, e);
        assert p == EmittedAt(dev, p, e)[0] && p in EmittedAt(dev, p, e);
      } else {
        FirstHopFits(dev, p, h, n, e);
        var e1 := DropUncorroborated(dev, p, e);
        RestFits(dev, p, h, n, e, e1);
        RejectedIff(dev, h1, h, n - 1, e1);
      }
    }
  }

  lemma NoneLeft(dev: bytes, p: nat)
    ensures NoneCorroborated(dev, p, 0)
  {
  }

  lemma OneMoreHop(dev: bytes, p: nat, e: nat, h1: nat, e1: nat, h: nat, e': nat, n: nat)
    requires HeaderAt(dev, h1) && h1 + 8 <= e1 <= |dev| && HeaderAt(dev, h) && h + 8 <= e' <= |dev|
    requires RunsTo(dev, p, e, FrameLoop(dev, h1, e1).After([], 1))
    requires RunsTo(dev, h1, e1, FrameLoop(dev, h, e').After([], n))
    ensures RunsTo(dev, p, e, FrameLoop(dev, h, e').After([], n + 1))
  {
    hide FrameLoop, HeaderAt;
    AfterAfter(FrameLoop(dev, h, e'), [], 1, [], n);
  }

  // ---------- Streams with any number of damaged units ----------

  /** Clean units, then a header with a body that does not end where the header says. */
  datatype Damage = Damage(before: seq<Sent>, bad: Sent, body: bytes)

  function DamagedWire(ds: seq<Damage>, after: seq<Sent>): bytes {
    if ds == [] then Wire(after)
    else Wire(ds[0].before) + (ds[0].bad.Header() + (ds[0].body + DamagedWire(ds[1..], after)))
  }

  /** All units but the damaged ones and the last. */
  function Undamaged(ds: seq<Damage>, after: seq<Sent>): seq<Sent>
    requires after != []
  {
    if ds == [] then after[..|after| - 1] else ds[0].before + Undamaged(ds[1..], after)
  }

  predicate Regular(ds: seq<Damage>, after: seq<Sent>) {
    after != [] && AllRegular(after) && forall i :: 0 <= i < |ds| ==> AllRegular(ds[i].before)
  }

  function Sum(ns: seq<nat>): nat {
    if ns == [] then 0 else ns[0] + Sum(ns[1..])
  }

  function BadAt(p: nat, d: Damage): nat {
    p + |Wire(d.before)|
  }

  function ResumeAt(p: nat, d: Damage): nat {
    BadAt(p, d) + 24 + |d.body|
  }

  /**
   From each damaged header, a chain of `hops[i]` headers leads to the next true one, and the stream goes on
   for the reads this may take. `e` bounds how far the buffer reaches.
   */
  predicate Crossable(dev: bytes, p: nat, e: nat, ds: seq<Damage>, hops: seq<nat>)
    requires |hops| == |ds|
    decreases |ds|
  {
    ds == [] ||
    (var b, h := BadAt(p, ds[0]), ResumeAt(p, ds[0]);
     var e' := Ahead(dev, b, h, hops[0], Max(e, b + 8));
     Chain(dev, b, h, hops[0]) && e' <= |dev| && Crossable(dev, h, e', ds[1..], hops[1..]))
  }

  /** No damaged header is corroborated, and no false one behind it. */
  predicate AllRejected(dev: bytes, p: nat, ds: seq<Damage>, hops: seq<nat>)
    requires |hops| == |ds|
    decreases |ds|
  {
    ds == [] ||
    (NoneCorroborated(dev, BadAt(p, ds[0]), hops[0]) && AllRejected(dev, ResumeAt(p, ds[0]), ds[1..], hops[1..]))
  }

  predicate Recoverable(dev: bytes, p: nat, e: nat, ds: seq<Damage>, hops: seq<nat>)
    requires |hops| == |ds|
  {
    Crossable(dev, p, e, ds, hops) && AllRejected(dev, p, ds, hops)
  }

  lemma DamagedParts(dev: bytes, p: nat, ds: seq<Damage>, after: seq<Sent>)
    requires ds != [] && p <= |dev| && dev[p..] == DamagedWire(ds, after)
    ensures
      var d := ds[0];
      var b, h := BadAt(p, d), ResumeAt(p, d);
      && Placed(dev, p, Wire(d.before)) && Placed(dev, b, d.bad.Header())
      && h <= |dev| && dev[h..] == DamagedWire(ds[1..], after)
  {
    hide HeaderBytes, Wire;
    var d, rest := ds[0], DamagedWire(ds[1..], after);
    var b, h := BadAt(p, d), ResumeAt(p, d);
    var t2 := d.body + rest;
    var t1 := d.bad.Header() + t2;
    assert dev[p..p + |Wire(d.before) + t1|] == dev[p..];
    PlacedParts(dev, p, Wire(d.before), t1);
    PlacedParts(dev, b, d.bad.Header(), t2);
    PlacedParts(dev, b + 24, d.body, rest);
    assert h + |rest| == |dev|;
  }

  lemma CrossableStep(dev: bytes, p: nat, e: nat, ds: seq<Damage>, hops: seq<nat>)
    requires |hops| == |ds| && ds != [] && Crossable(dev, p, e, ds, hops)
    ensures
      var b, h := BadAt(p, ds[0]), ResumeAt(p, ds[0]);
      var e' := Ahead(dev, b, h, hops[0], Max(e, b + 8));
      && Chain(dev, b, h, hops[0]) && e' <= |dev| && Crossable(dev, h, e', ds[1..], hops[1..])
      && (AllRejected(dev, p, ds, hops) <==>
          NoneCorroborated(dev, b, hops[0]) && AllRejected(dev, h, ds[1..], hops[1..]))
  {
    hide Chain, NoneCorroborated, Ahead, BadAt, ResumeAt;
  }

  lemma {:induction false} RunRecovers(
      dev: bytes, p: nat, e: nat, limit: nat, ds: seq<Damage>, hops: seq<nat>, after: seq<Sent>)
    requires |hops| == |ds| && Regular(ds, after)
    requires p <= |dev| && dev[p..] == DamagedWire(ds, after)
    requires p + 8 <= e <= |dev| && e <= limit
    requires Crossable(dev, p, limit, ds, hops) && AllRejected(dev, p, ds, hops)
    ensures RunsTo(dev, p, e, Run(FramesOf(Undamaged(ds, after)), Sum(hops), ClosedInFrame))
    decreases |ds|
  {
    hide *;
    if ds == [] {
      NothingDamaged(ds, hops, after);
      CleanStream(dev, p, e, after);
    } else {
      var d := ds[0];
      var b, h := BadAt(p, d), ResumeAt(p, d);
      DamagedParts(dev, p, ds, after);
      HeaderPlaced(dev, b, d.bad);
      RegularStep(ds, after);
      CrossableStep(dev, p, limit, ds, hops);
      BadAtIs(p, d);
      var e1 := CleanPrefix(dev, p, e, d.before);
      MaxGrows(e, limit, b + 8);
      AheadGrows(dev, b, h, hops[0], e1, Max(limit, b + 8));
      var e2 := Wander(dev, b, h, hops[0], e1);
      RunRecovers(dev, h, e2, Ahead(dev, b, h, hops[0], Max(limit, b + 8)), ds[1..], hops[1..], after);
      Assemble(dev, p, e, b, e1, h, e2, ds, hops, after);
    }
  }

  lemma NothingDamaged(ds: seq<Damage>, hops: seq<nat>, after: seq<Sent>)
    requires ds == [] && hops == [] && Regular(ds, after)
    ensures FramesOf(Undamaged(ds, after)) == FramesOf(after[..|after| - 1]) && Sum(hops) == 0
    ensures DamagedWire(ds, after) == Wire(after) && AllRegular(after) && after != []
  {
  }

  lemma RegularStep(ds: seq<Damage>, after: seq<Sent>)
    requires ds != [] && Regular(ds, after)
    ensures AllRegular(ds[0].before) && Regular(ds[1..], after) && after != []
  {
    hide AllRegular;
  }

  lemma BadAtIs(p: nat, d: Damage)
    ensures BadAt(p, d) == p + |Wire(d.before)|
  {
  }

  lemma MaxGrows(e: nat, limit: nat, n: nat)
    requires e <= limit
    ensures n <= Max(e, n) <= Max(limit, n)
  {
  }

  lemma AheadGrows(dev: bytes, p: nat, h: nat, n: nat, e: nat, e': nat)
    requires e <= e'
    ensures Ahead(dev, p, h, n, e) <= Ahead(dev, p, h, n, e')
  {
    hide Reach, Reads;
  }

  lemma Assemble(
      dev: bytes, p: nat, e: nat, b: nat, e1: nat, h: nat, e2: nat,
      ds: seq<Damage>, hops: seq<nat>, after: seq<Sent>)
    requires ds != [] && |hops| == |ds| && after != []
    requires HeaderAt(dev, b) && b + 8 <= e1 <= |dev| && HeaderAt(dev, h) && h + 8 <= e2 <= |dev|
    requires RunsTo(dev, p, e, FrameLoop(dev, b, e1).After(FramesOf(ds[0].before), 0))
    requires RunsTo(dev, b, e1, FrameLoop(dev, h, e2).After([], hops[0]))
    requires RunsTo(dev, h, e2, Run(FramesOf(Undamaged(ds[1..], after)), Sum(hops[1..]), ClosedInFrame))
    ensures RunsTo(dev, p, e, Run(FramesOf(Undamaged(ds, after)), Sum(hops), ClosedInFrame))
  {
    hide FrameLoop, HeaderAt, FramesOf, Wire, HeaderBytes;
    WireAppend(ds[0].before, Undamaged(ds[1..], after));
    Neutral(FramesOf(Undamaged(ds[1..], after)));
  }

  /**
   Recovery: in a stream with any number of damaged units, and any number of uncorroborated false headers
   behind each, every run loses exactly the damaged units and counts one resync for each header dropped.
   */
  lemma Recovers(pre: bytes, ds: seq<Damage>, hops: seq<nat>, after: seq<Sent>, ahead: nat, r: Run)
    requires |hops| == |ds| && Regular(ds, after)
    requires
      var dev := pre + DamagedWire(ds, after);
      && FirstHeaderAt(dev, |pre|) && IsRun(dev, ahead, r)
      && Recoverable(dev, |pre|, |pre| + 8 + 4096, ds, hops)
    ensures r == Run(FramesOf(Undamaged(ds, after)), Sum(hops), ClosedInFrame)
  {
    hide FrameLoop, IsRun, FirstHeaderAt, DamagedWire, Regular, Crossable, AllRejected, Undamaged, Sum, HeaderAt;
    var dev := pre + DamagedWire(ds, after);
    RunFromFirstHeader(dev, |pre|, ahead, r);
    SplitAppend(pre, DamagedWire(ds, after));
    RunRecovers(dev, |pre|, ahead, |pre| + 8 + 4096, ds, hops, after);
  }

  // ---------- The same with conditions on the damage alone ----------

  /** The payload length that the header announces. */
  function Announced(d: Damage): nat {
    4 + (|d.bad.au| - 4) % 0x1_0000
  }

  /** The header is not corroborated by the bytes behind it. */
  predicate Unbacked(d: Damage, rest: bytes) {
    !(At(d.body + rest, START4, 0) && At(d.body + rest, MAGIC, Announced(d) + 4))
  }

  /** Between the magic of the header and that of the next there is no other, and the way is not too long. */
  predicate QuietGap(d: Damage, rest: bytes) {
    && 16 + |d.body| <= MAX_FRAME
    && |rest| >= 7 && Find(d.bad.Header()[8..] + (d.body + rest[..7]), MAGIC, 0) == -1
  }

  predicate QuietGaps(ds: seq<Damage>, after: seq<Sent>) {
    forall i :: 0 <= i < |ds| ==> QuietGap(ds[i], DamagedWire(ds[i + 1..], after))
  }

  predicate AllUnbacked(ds: seq<Damage>, after: seq<Sent>) {
    forall i :: 0 <= i < |ds| ==> Unbacked(ds[i], DamagedWire(ds[i + 1..], after))
  }

  /** How far the header announces more than there is. */
  function Shortfall(d: Damage): nat {
    if Announced(d) > |d.body| then Announced(d) - |d.body| else 0
  }

  function Longest(ds: seq<Damage>): nat {
    if ds == [] then 0 else Max(Shortfall(ds[0]), Longest(ds[1..]))
  }

  /** Behind the last damage there is what it announces too much, one read for each damage, and one more. */
  predicate LongEnough(ds: seq<Damage>, after: seq<Sent>) {
    ds == [] || 8 + Longest(ds) + 4096 * (1 + |ds|) <= |Wire(after)|
  }

  /** The unit whose header comes first. */
  function FirstSent(ds: seq<Damage>, after: seq<Sent>): Sent
    requires after != []
  {
    if ds == [] then after[0] else if ds[0].before == [] then ds[0].bad else ds[0].before[0]
  }

  lemma BeginsWithHeader(ds: seq<Damage>, after: seq<Sent>) returns (rest: bytes)
    requires after != []
    ensures DamagedWire(ds, after) == FirstSent(ds, after).Header() + rest
  {
    hide HeaderBytes;
    if ds == [] {
      rest := after[0].au + Wire(after[1..]);
    } else {
      var d := ds[0];
      var t := d.bad.Header() + (d.body + DamagedWire(ds[1..], after));
      if d.before == [] {
        rest := d.body + DamagedWire(ds[1..], after);
        Neutral(t);
      } else {
        var w := d.before[0].au + Wire(d.before[1..]);
        rest := w + t;
        Associative(d.before[0].Header(), w, t);
      }
    }
  }

  /** Then the next magic of the stream is that of the next header. */
  lemma QuietFind(dev: bytes, b: nat, d: Damage, u: Sent, rest: bytes)
    requires b <= |dev| && dev[b..] == d.bad.Header() + (d.body + (u.Header() + rest))
    requires QuietGap(d, u.Header() + rest)
    ensures Find(dev, MAGIC, b + 8) == b + 28 + |d.body| && HeaderAt(dev, b) && HeaderAt(dev, b + 24 + |d.body|)
  {
    hide HeaderBytes;
    HeaderBytesFields(d.bad);
    HeaderBytesFields(u);
    var gap := d.bad.Header()[8..] + (d.body + (u.Header() + rest)[..7]);
    var tail := u.Header()[7..] + rest;
    assert d.bad.Header() == d.bad.Header()[..8] + d.bad.Header()[8..];
    assert (u.Header() + rest)[..7] == u.Header()[..7];
    assert u.Header() == u.Header()[..7] + u.Header()[7..];
    assert dev[b..][8..] == gap + tail;
    FindAppend(gap, MAGIC, tail);
    FindSuffix(dev, MAGIC, b + 8);
    assert forall k :: 4 <= k < 8 ==> dev[b..][24 + |d.body| + k] == u.Header()[k];
    assert forall k :: 4 <= k < 8 ==> dev[b..][k] == d.bad.Header()[k];
    assert At(dev, MAGIC, b + 28 + |d.body|);
  }

  lemma QuietChain(dev: bytes, b: nat, h: nat)
    requires Find(dev, MAGIC, b + 8) == h + 4 && HeaderAt(dev, b) && HeaderAt(dev, h)
    requires b + 24 <= h && h - (b + 8) <= MAX_FRAME && b + Need(dev, b) + 8 <= |dev|
    ensures Chain(dev, b, h, 1) && Reach(dev, b, 1) == b + Need(dev, b) + 8 && Reads(dev, b, 1) == 1
    ensures NoneCorroborated(dev, b, 1) <==> !Corroborated(dev, b)
  {
    hide Need, Find, Skips, NextHeader, Corroborated;
    OwnMagic(dev, b);
    NextHeaderStep(dev, b + 8);
    SkipsStep(dev, b + 8);
    assert Near(dev, b);
  }

  /** What the bytes behind the header say about it is what the stream says. */
  lemma UnbackedIff(dev: bytes, b: nat, d: Damage, rest: bytes)
    requires b <= |dev| && dev[b..] == d.bad.Header() + (d.body + rest)
    requires b + HEADER_LEN <= |dev| && Need(dev, b) == 24 + Announced(d)
    ensures Corroborated(dev, b) <==> !Unbacked(d, rest)
  {
    hide HeaderBytes, At, Need;
    SplitAppend(d.bad.Header(), d.body + rest);
    SliceOfSuffix(dev, b, 24, 24);
    AtSuffix(dev, START4, b + 24, 0);
    AtSuffix(dev, MAGIC, b + 24, Announced(d) + 4);
  }

  function Ones(n: nat): (r: seq<nat>)
    ensures |r| == n
  {
    if n == 0 then [] else [1] + Ones(n - 1)
  }

  lemma {:induction false} SumOfOnes(n: nat)
    ensures Sum(Ones(n)) == n
  {
    if n > 0 { SumOfOnes(n - 1); }
  }

  lemma QuietStep(ds: seq<Damage>, after: seq<Sent>)
    requires ds != [] && QuietGaps(ds, after)
    ensures QuietGap(ds[0], DamagedWire(ds[1..], after)) && QuietGaps(ds[1..], after)
  {
    hide QuietGap, DamagedWire;
    var rest := ds[1..];
    assert ds[0 + 1..] == rest;
    forall i | 0 <= i < |rest| ensures QuietGap(rest[i], DamagedWire(rest[i + 1..], after)) {
      assert rest[i + 1..] == ds[(i + 1) + 1..];
      assert QuietGap(ds[i + 1], DamagedWire(ds[(i + 1) + 1..], after));
    }
  }

  lemma UnbackedStep(ds: seq<Damage>, after: seq<Sent>)
    requires ds != []
    ensures AllUnbacked(ds, after) <==> Unbacked(ds[0], DamagedWire(ds[1..], after)) && AllUnbacked(ds[1..], after)
  {
    hide Unbacked, DamagedWire;
    var rest := ds[1..];
    assert ds[0 + 1..] == rest;
    if AllUnbacked(ds, after) {
      forall i | 0 <= i < |rest| ensures Unbacked(rest[i], DamagedWire(rest[i + 1..], after)) {
        assert rest[i + 1..] == ds[(i + 1) + 1..];
        assert Unbacked(ds[i + 1], DamagedWire(ds[(i + 1) + 1..], after));
      }
    } else {
      var i :| 0 <= i < |ds| && !Unbacked(ds[i], DamagedWire(ds[i + 1..], after));
      if i > 0 {
        assert rest[i - 1 + 1..] == ds[i + 1..];
        assert rest[i - 1] == ds[i];
      }
    }
  }

  /** What the stream holds at a damaged header with a quiet gap. */
  lemma QuietFacts(dev: bytes, p: nat, ds: seq<Damage>, after: seq<Sent>)
    requires ds != [] && after != [] && QuietGap(ds[0], DamagedWire(ds[1..], after))
    requires p <= |dev| && dev[p..] == DamagedWire(ds, after)
    ensures
      var d := ds[0];
      var b, h := BadAt(p, d), ResumeAt(p, d);
      && Find(dev, MAGIC, b + 8) == h + 4 && HeaderAt(dev, b) && HeaderAt(dev, h)
      && b + HEADER_LEN <= |dev| && Need(dev, b) == 24 + Announced(d)
      && (Corroborated(dev, b) <==> !Unbacked(d, DamagedWire(ds[1..], after)))
  {
    hide *;
    var d, behind := ds[0], DamagedWire(ds[1..], after);
    var b := BadAt(p, d);
    Positions(p, d);
    DamagedParts(dev, p, ds, after);
    HeaderPlaced(dev, b, d.bad);
    BadSuffix(dev, p, ds, after);
    var rest := BeginsWithHeader(ds[1..], after);
    QuietFind(dev, b, d, FirstSent(ds[1..], after), rest);
    QuietNumbers(d, behind);
    UnbackedIff(dev, b, d, behind);
  }

  /** One quiet damage takes one read more than the bytes up to the next header. */
  lemma QuietHop(dev: bytes, p: nat, limit: nat, more: nat, j: nat, ds: seq<Damage>, after: seq<Sent>)
    requires ds != [] && after != [] && QuietGap(ds[0], DamagedWire(ds[1..], after)) && Shortfall(ds[0]) <= more
    requires p <= |dev| && dev[p..] == DamagedWire(ds, after)
    requires limit <= p + 8 + more + 4096 * j && ResumeAt(p, ds[0]) + 8 + more <= |dev|
    ensures Chain(dev, BadAt(p, ds[0]), ResumeAt(p, ds[0]), 1)
    ensures NoneCorroborated(dev, BadAt(p, ds[0]), 1) <==> Unbacked(ds[0], DamagedWire(ds[1..], after))
    ensures
      var b, h := BadAt(p, ds[0]), ResumeAt(p, ds[0]);
      Ahead(dev, b, h, 1, Max(limit, b + 8)) <= h + 8 + more + 4096 * (j + 1)
  {
    hide *;
    var b, h := BadAt(p, ds[0]), ResumeAt(p, ds[0]);
    Positions(p, ds[0]);
    QuietFacts(dev, p, ds, after);
    QuietNumbers(ds[0], DamagedWire(ds[1..], after));
    QuietChain(dev, b, h);
    QuietAhead(dev, b, h, limit, more, j);
  }

  lemma Positions(p: nat, d: Damage)
    ensures p <= BadAt(p, d) && ResumeAt(p, d) == BadAt(p, d) + 24 + |d.body|
  {
  }

  lemma QuietNumbers(d: Damage, rest: bytes)
    requires QuietGap(d, rest)
    ensures Announced(d) == 4 + (|d.bad.au| - 4) % 0x1_0000 <= |d.body| + Shortfall(d) && 16 + |d.body| <= MAX_FRAME
  {
    hide HeaderBytes, Find;
  }

  lemma QuietAhead(dev: bytes, b: nat, h: nat, limit: nat, more: nat, j: nat)
    requires Reach(dev, b, 1) <= h + 8 + more && Reads(dev, b, 1) == 1 && b <= h
    requires limit <= b + 8 + more + 4096 * j
    ensures Ahead(dev, b, h, 1, Max(limit, b + 8)) <= h + 8 + more + 4096 * (j + 1)
  {
    hide Reach, Reads;
  }

  lemma BadSuffix(dev: bytes, p: nat, ds: seq<Damage>, after: seq<Sent>)
    requires ds != [] && p <= |dev| && dev[p..] == DamagedWire(ds, after)
    ensures
      var b := BadAt(p, ds[0]);
      b <= |dev| && dev[b..] == ds[0].bad.Header() + (ds[0].body + DamagedWire(ds[1..], after))
  {
    hide HeaderBytes, Wire;
    var t := ds[0].bad.Header() + (ds[0].body + DamagedWire(ds[1..], after));
    SplitAppend(Wire(ds[0].before), t);
    assert |dev[p..]| == |Wire(ds[0].before)| + |t|;
    SliceOfSuffix(dev, p, |Wire(ds[0].before)|, |Wire(ds[0].before)|);
  }

  lemma {:induction false} QuietIsCrossable(
      dev: bytes, p: nat, limit: nat, more: nat, j: nat, ds: seq<Damage>, after: seq<Sent>)
    requires after != [] && QuietGaps(ds, after) && Longest(ds) <= more
    requires p <= |dev| && dev[p..] == DamagedWire(ds, after)
    requires limit <= p + 8 + more + 4096 * j && (ds == [] || 8 + more + 4096 * (j + |ds|) <= |Wire(after)|)
    ensures Crossable(dev, p, limit, ds, Ones(|ds|))
    ensures AllRejected(dev, p, ds, Ones(|ds|)) <==> AllUnbacked(ds, after)
    decreases |ds|
  {
    hide HeaderBytes, Chain, NoneCorroborated, Reach, Reads, Wire, Ahead, BadAt, ResumeAt, QuietGap, QuietGaps;
    hide Unbacked, DamagedWire, Announced;
    if ds != [] {
      QuietStep(ds, after);
      UnbackedStep(ds, after);
      EndsInWire(ds[1..], after);
      DamagedParts(dev, p, ds, after);
      QuietHop(dev, p, limit, more, j, ds, after);
      var b, h := BadAt(p, ds[0]), ResumeAt(p, ds[0]);
      var limit' := Ahead(dev, b, h, 1, Max(limit, b + 8));
      hide AllUnbacked;
      QuietIsCrossable(dev, h, limit', more, j + 1, ds[1..], after);
      assert Ones(|ds|)[1..] == Ones(|ds[1..]|);
    }
  }

  lemma {:induction false} EndsInWire(ds: seq<Damage>, after: seq<Sent>)
    ensures |DamagedWire(ds, after)| >= |Wire(after)|
  {
    hide HeaderBytes, Wire;
    if ds != [] { EndsInWire(ds[1..], after); }
  }

  /** The driver has a run on the stream, and whatever the sizes of the reads, it is this one. */
  ghost predicate OnlyRun(dev: bytes, run: Run) {
    (exists ahead: nat :: IsRun(dev, ahead, run)) && forall ahead: nat, r: Run :: IsRun(dev, ahead, r) ==> r == run
  }

  /**
   Recovery, closed: if no damaged header is corroborated by the bytes behind it, the gaps are quiet, no magic
   comes before the first header and enough bytes follow, then the driver has a run, and every run loses
   exactly the damaged units with one resync each. Bodies may be shorter or longer than announced, or defaced.
   */
  lemma QuietRecovery(pre: bytes, ds: seq<Damage>, after: seq<Sent>)
    requires Regular(ds, after) && QuietGaps(ds, after) && AllUnbacked(ds, after) && LongEnough(ds, after)
    requires NoMagicBefore(pre, FirstSent(ds, after)) && |pre| + 8 <= MAX_PREAMBLE + 1
    ensures OnlyRun(pre + DamagedWire(ds, after), Run(FramesOf(Undamaged(ds, after)), |ds|, ClosedInFrame))
  {
    hide *;
    var dev := pre + DamagedWire(ds, after);
    RegularMeans(ds, after);
    QuietStart(pre, ds, after);
    RecoverableMeans(dev, |pre|, |pre| + 8 + 4096, ds, Ones(|ds|));
    SumOfOnes(|ds|);
    RunExists(dev, |pre|);
    Recovers(pre, ds, Ones(|ds|), after, |pre| + 8, FrameLoop(dev, |pre|, |pre| + 8));
    forall ahead: nat, r: Run | IsRun(dev, ahead, r)
      ensures r == Run(FramesOf(Undamaged(ds, after)), |ds|, ClosedInFrame)
    {
      Recovers(pre, ds, Ones(|ds|), after, ahead, r);
    }
    OnlyRunMeans(dev, |pre| + 8, Run(FramesOf(Undamaged(ds, after)), |ds|, ClosedInFrame));
  }

  /** Such a stream has its first header behind the preamble, and its chains are of one hop each. */
  lemma QuietStart(pre: bytes, ds: seq<Damage>, after: seq<Sent>)
    requires Regular(ds, after) && QuietGaps(ds, after) && LongEnough(ds, after)
    requires NoMagicBefore(pre, FirstSent(ds, after)) && |pre| + 8 <= MAX_PREAMBLE + 1
    ensures
      var dev := pre + DamagedWire(ds, after);
      && FirstHeaderAt(dev, |pre|) && Crossable(dev, |pre|, |pre| + 8 + 4096, ds, Ones(|ds|))
      && (AllRejected(dev, |pre|, ds, Ones(|ds|)) <==> AllUnbacked(ds, after))
  {
    hide *;
    var dev := pre + DamagedWire(ds, after);
    RegularMeans(ds, after);
    LongEnoughMeans(ds, after);
    var rest := BeginsWithHeader(ds, after);
    FirstHeaderFound(pre, FirstSent(ds, after), rest);
    SplitAppend(pre, DamagedWire(ds, after));
    QuietIsCrossable(dev, |pre|, |pre| + 8 + 4096, Longest(ds), 1, ds, after);
  }

  lemma LongEnoughMeans(ds: seq<Damage>, after: seq<Sent>)
    requires LongEnough(ds, after)
    ensures ds == [] || 8 + Longest(ds) + 4096 * (1 + |ds|) <= |Wire(after)|
  {
  }

  lemma RecoverableMeans(dev: bytes, p: nat, e: nat, ds: seq<Damage>, hops: seq<nat>)
    requires |hops| == |ds| && Crossable(dev, p, e, ds, hops) && AllRejected(dev, p, ds, hops)
    ensures Recoverable(dev, p, e, ds, hops)
  {
  }

  lemma OnlyRunMeans(dev: bytes, ahead: nat, run: Run)
    requires IsRun(dev, ahead, run) && forall n: nat, r: Run :: IsRun(dev, n, r) ==> r == run
    ensures OnlyRun(dev, run)
  {
  }

  lemma RegularMeans(ds: seq<Damage>, after: seq<Sent>)
    requires Regular(ds, after)
    ensures after != []
  {
  }

  /** A unit that would have been emitted, with garbage behind it. */
  predicate Garbled(d: Damage) {
    d.bad.Regular() && d.bad.au < d.body
  }

  /** A unit sent whole that is too long for the 16-bit field. */
  predicate Oversized(d: Damage) {
    d.body == d.bad.au && |d.bad.au| > 4 + 0xFFFF
  }

  /** A unit whose start code is damaged, whatever the length of what follows it. */
  predicate Defaced(d: Damage) {
    |d.body| >= 4 && !(START4 <= d.body)
  }

  lemma LengthOfRegular(u: Sent)
    requires u.Regular()
    ensures 4 + (|u.au| - 4) % 0x1_0000 == |u.au|
  {
  }

  /** A header whose body goes on behind what it announces has no magic there if the gap is quiet. */
  lemma OverrunIsUnbacked(d: Damage, rest: bytes)
    requires Announced(d) < |d.body| && QuietGap(d, rest)
    ensures Unbacked(d, rest) && Shortfall(d) == 0
  {
    hide HeaderBytes, Find;
    if At(d.body + rest, MAGIC, Announced(d) + 4) { MagicInGap(d, rest, Announced(d) + 4); }
  }

  lemma MagicInGap(d: Damage, rest: bytes, k: nat)
    requires |rest| >= 7 && k + 4 <= |d.body| + 7 && At(d.body + rest, MAGIC, k)
    ensures At(d.bad.Header()[8..] + (d.body + rest[..7]), MAGIC, 16 + k)
  {
    hide HeaderBytes;
    var gap := d.bad.Header()[8..] + (d.body + rest[..7]);
    assert forall i :: 0 <= i < |d.body| + 7 ==> gap[16 + i] == (d.body + rest)[i];
  }

  lemma StartsOwnBody(body: bytes, rest: bytes)
    requires |body| >= 4 && At(body + rest, START4, 0)
    ensures START4 <= body
  {
    AtIsSlice(body + rest, START4, 0);
    assert (body + rest)[0..4] == body[..4];
  }

  lemma DamageIsUnbacked(d: Damage, rest: bytes)
    requires (Garbled(d) || Oversized(d) || Defaced(d)) && QuietGap(d, rest)
    ensures Unbacked(d, rest)
  {
    hide HeaderBytes, Find, QuietGap;
    if Garbled(d) { LengthOfRegular(d.bad); }
    if Garbled(d) || Oversized(d) {
      OverrunIsUnbacked(d, rest);
    } else if At(d.body + rest, START4, 0) {
      StartsOwnBody(d.body, rest);
    }
  }

  /**
   Any mixture of garbage behind units, of units too long for the length field and of damaged start codes costs
   these units and nothing else; in particular an overlong unit is never emitted truncated.
   */
  lemma RecoversFromDamage(pre: bytes, ds: seq<Damage>, after: seq<Sent>)
    requires Regular(ds, after)
    requires forall i :: 0 <= i < |ds| ==> Garbled(ds[i]) || Oversized(ds[i]) || Defaced(ds[i])
    requires QuietGaps(ds, after) && LongEnough(ds, after)
    requires NoMagicBefore(pre, FirstSent(ds, after)) && |pre| + 8 <= MAX_PREAMBLE + 1
    ensures OnlyRun(pre + DamagedWire(ds, after), Run(FramesOf(Undamaged(ds, after)), |ds|, ClosedInFrame))
  {
    hide HeaderBytes, DamagedWire, QuietGap, Wire, FirstSent, NoMagicBefore, OnlyRun, Undamaged, Longest;
    hide Garbled, Oversized, Defaced, Unbacked;
    forall i | 0 <= i < |ds| ensures Unbacked(ds[i], DamagedWire(ds[i + 1..], after)) {
      DamageIsUnbacked(ds[i], DamagedWire(ds[i + 1..], after));
    }
    QuietRecovery(pre, ds, after);
  }
}
