/**
 Which frames come out of a damaged stream: only units that were sent, exactly if no header on the way is
 corroborated by accident. And a stream on which one is.
 */
module NetDvr3Emission {
  import opened Bytes
  import opened AnnexB
  import opened NetDvr3
  import opened NetDvr3Streams
  import opened NetDvr3Recovery
  import opened Simulator

  // ---------- Where the units stand ----------

  /** The headers of units that stand in the stream from `p` on. */
  function StartsOf(p: nat, us: seq<Sent>): seq<nat>
    decreases |us|
  {
    if us == [] then [] else [p] + StartsOf(p + 24 + |us[0].au|, us[1..])
  }

  /** The headers of all units but the damaged ones and the last. */
  function UndamagedAt(p: nat, ds: seq<Damage>, after: seq<Sent>): seq<nat>
    requires after != []
    decreases |ds|
  {
    if ds == [] then StartsOf(p, after[..|after| - 1])
    else StartsOf(p, ds[0].before) + UndamagedAt(ResumeAt(p, ds[0]), ds[1..], after)
  }

  lemma {:induction false} StartsWithin(p: nat, us: seq<Sent>)
    ensures forall x :: x in StartsOf(p, us) ==> p <= x < p + |Wire(us)|
    decreases |us|
  {
    hide HeaderBytes, Wire;
    if us != [] {
      WireStep(us);
      StartsWithin(p + 24 + |us[0].au|, us[1..]);
    }
  }

  lemma {:induction false} UndamagedFrom(p: nat, ds: seq<Damage>, after: seq<Sent>)
    requires after != []
    ensures forall x :: x in UndamagedAt(p, ds, after) ==> p <= x
    decreases |ds|
  {
    hide HeaderBytes, Wire;
    if ds == [] {
      StartsWithin(p, after[..|after| - 1]);
    } else {
      StartsWithin(p, ds[0].before);
      UndamagedFrom(ResumeAt(p, ds[0]), ds[1..], after);
    }
  }

  // ---------- Clean parts ----------

  lemma {:induction false} CleanAt(dev: bytes, p: nat, e: nat, us: seq<Sent>)
    requires p + 8 <= e <= |dev|
    requires AllRegular(us) && Placed(dev, p, Wire(us)) && HeaderAt(dev, p + |Wire(us)|)
    ensures HeaderAt(dev, p)
    ensures
      var q := p + |Wire(us)|;
      EmittedAt(dev, p, e) == StartsOf(p, us) + EmittedAt(dev, q, Max(e, q + 8))
    decreases |us|
  {
    hide At, EmittedAt, HeaderBytes, Placed;
    if us == [] {
      Neutral(EmittedAt(dev, p, e));
    } else {
      var u, rest := us[0], us[1..];
      FirstOfWire(dev, p, us);
      var next := p + 24 + |u.au|;
      if rest != [] {
        FirstOfWire(dev, next, rest);
      }
      var q := next + |Wire(rest)|;
      UnitAt(dev, p, e, u);
      hide Wire;
      CleanAt(dev, next, Max(e, next + 8), rest);
      assert Max(Max(e, next + 8), q + 8) == Max(e, q + 8);
      Associative([p], StartsOf(next, rest), EmittedAt(dev, q, Max(e, q + 8)));
    }
  }

  lemma UnitAt(dev: bytes, p: nat, e: nat, u: Sent)
    requires p + 8 <= e <= |dev| && u.Regular()
    requires Placed(dev, p, u.Header()) && Placed(dev, p + 24, u.au) && HeaderAt(dev, p + 24 + |u.au|)
    ensures
      var next := p + 24 + |u.au|;
      HeaderAt(dev, p) && EmittedAt(dev, p, e) == [p] + EmittedAt(dev, next, Max(e, next + 8))
  {
    hide At, EmittedAt, HeaderBytes, NalsOf, HasIdr, Need, FrameAt, Corroborated;
    UnitPlaced(dev, p, u);
    EmittedStep(dev, p, e);
  }

  lemma LastAt(dev: bytes, p: nat, e: nat, u: Sent)
    requires u.Regular() && Placed(dev, p, u.Header()) && p + 24 + |u.au| == |dev| && p + 8 <= e <= |dev|
    ensures HeaderAt(dev, p) && EmittedAt(dev, p, e) == []
  {
    hide At, EmittedAt, HeaderBytes, Need, Corroborated, ReadLe32;
    HeaderPlaced(dev, p, u);
    EmittedStep(dev, p, e);
  }

  lemma CleanEndAt(dev: bytes, p: nat, e: nat, us: seq<Sent>)
    requires us != [] && AllRegular(us) && p <= |dev| && dev[p..] == Wire(us) && p + 8 <= e <= |dev|
    ensures HeaderAt(dev, p) && EmittedAt(dev, p, e) == StartsOf(p, us[..|us| - 1])
  {
    hide *;
    var init, last := us[..|us| - 1], us[|us| - 1];
    SplitWire(dev, p, us);
    RegularParts(us);
    var q := p + |Wire(init)|;
    FirstOfWire(dev, q, [last]);
    CleanAt(dev, p, e, init);
    MaxGrows(e, e, q + 8);
    MaxFits(e, q + 8, |dev|);
    LastAt(dev, q, Max(e, q + 8), last);
    Neutral(StartsOf(p, init));
  }

  lemma HeaderFits(dev: bytes, p: nat)
    requires HeaderAt(dev, p)
    ensures p + 8 <= |dev|
  {
    hide At;
  }

  lemma MaxFits(a: nat, b: nat, n: nat)
    requires a <= n && b <= n
    ensures Max(a, b) <= n
  {
  }

  // ---------- Damaged streams ----------

  /** Only frames of these headers are emitted. */
  predicate OnlyAt(at: seq<nat>, starts: seq<nat>) {
    forall a :: a in at ==> a in starts
  }

  /** Behind the clean units, the damage decides: what is emitted before the next true header is no unit sent. */
  lemma DamageDecides(b: nat, h: nat, before: seq<nat>, found: seq<nat>, rest: seq<nat>)
    requires forall x :: x in before ==> x < b
    requires forall x :: x in rest ==> h <= x
    requires forall a :: a in found ==> b <= a
    ensures OnlyAt(before + found, before + rest) ==> forall a :: a in found ==> h <= a
    ensures OnlyAt(before + found, before + rest) <==> OnlyAt(found, rest)
  {
    if OnlyAt(before + found, before + rest) {
      forall a | a in found ensures a in rest {
        assert a in before + found;
      }
    }
  }

  /** Only undamaged units are emitted if and only if no header on the way is corroborated. */
  lemma {:induction false} EmittedExactly(
      dev: bytes, p: nat, e: nat, limit: nat, ds: seq<Damage>, hops: seq<nat>, after: seq<Sent>)
    requires |hops| == |ds| && Regular(ds, after) && after != []
    requires p <= |dev| && dev[p..] == DamagedWire(ds, after)
    requires p + 8 <= e <= |dev| && e <= limit && Crossable(dev, p, limit, ds, hops)
    ensures HeaderAt(dev, p)
    ensures OnlyAt(EmittedAt(dev, p, e), UndamagedAt(p, ds, after)) <==> AllRejected(dev, p, ds, hops)
    ensures AllRejected(dev, p, ds, hops) ==> EmittedAt(dev, p, e) == UndamagedAt(p, ds, after)
    decreases |ds|
  {
    hide *;
    if ds == [] {
      NothingDamaged(ds, hops, after);
      CleanEndAt(dev, p, e, after);
      NothingRejected(dev, p, ds, hops, after);
      OnlyItself(EmittedAt(dev, p, e));
    } else {
      var d := ds[0];
      var b, h := BadAt(p, d), ResumeAt(p, d);
      DamagedParts(dev, p, ds, after);
      HeaderPlaced(dev, b, d.bad);
      RegularStep(ds, after);
      CrossableStep(dev, p, limit, ds, hops);
      BadAtIs(p, d);
      CleanAt(dev, p, e, d.before);
      var e1 := Max(e, b + 8);
      MaxGrows(e, limit, b + 8);
      AheadGrows(dev, b, h, hops[0], e1, Max(limit, b + 8));
      HeaderFits(dev, b);
      MaxFits(e, b + 8, |dev|);
      EmittedFrom(dev, b, e1);
      StartsWithin(p, d.before);
      UndamagedFrom(h, ds[1..], after);
      UndamagedStep(p, ds, after);
      var before, found, rest := StartsOf(p, d.before), EmittedAt(dev, b, e1), UndamagedAt(h, ds[1..], after);
      DamageDecides(b, h, before, found, rest);
      RejectedIff(dev, b, h, hops[0], e1);
      if NoneCorroborated(dev, b, hops[0]) {
        var e2 := Wander(dev, b, h, hops[0], e1);
        EmittedExactly(dev, h, e2, Ahead(dev, b, h, hops[0], Max(limit, b + 8)), ds[1..], hops[1..], after);
      }
    }
  }

  lemma NothingRejected(dev: bytes, p: nat, ds: seq<Damage>, hops: seq<nat>, after: seq<Sent>)
    requires ds == [] && hops == [] && after != []
    ensures AllRejected(dev, p, ds, hops) && UndamagedAt(p, ds, after) == StartsOf(p, after[..|after| - 1])
  {
  }

  lemma OnlyItself(at: seq<nat>)
    ensures OnlyAt(at, at)
  {
  }

  lemma UndamagedStep(p: nat, ds: seq<Damage>, after: seq<Sent>)
    requires ds != [] && after != []
    ensures
      UndamagedAt(p, ds, after) == StartsOf(p, ds[0].before) + UndamagedAt(ResumeAt(p, ds[0]), ds[1..], after)
  {
  }

  /**
   The run `r` emits what stands at `at`, which are only undamaged units if and only if `rejected`, and then all
   of them.
   */
  predicate EmitsOnly(dev: bytes, r: Run, at: seq<nat>, starts: seq<nat>, rejected: bool) {
    && Corroborating(dev, 0, at) && r.frames == FramesAt(dev, at)
    && (OnlyAt(at, starts) <==> rejected)
    && (rejected ==> at == starts)
  }

  /**
   Corroboration, exactly: whatever run the driver has on a damaged stream, only undamaged units come out if and only
   if no damaged header and no false one on the way to the next true header is corroborated. Then all of them do.
   */
  lemma OnlySentIff(pre: bytes, ds: seq<Damage>, hops: seq<nat>, after: seq<Sent>, ahead: nat, r: Run)
    requires |hops| == |ds| && Regular(ds, after) && after != []
    requires
      var dev := pre + DamagedWire(ds, after);
      && FirstHeaderAt(dev, |pre|) && IsRun(dev, ahead, r)
      && Crossable(dev, |pre|, |pre| + 8 + 4096, ds, hops)
    ensures
      var dev := pre + DamagedWire(ds, after);
      && RunsTo(dev, |pre|, ahead, r)
      && EmitsOnly(
           dev, r, EmittedAt(dev, |pre|, ahead), UndamagedAt(|pre|, ds, after),
           AllRejected(dev, |pre|, ds, hops))
  {
    hide FrameLoop, IsRun, FirstHeaderAt, DamagedWire, Regular, Crossable, AllRejected, UndamagedAt, HeaderAt;
    hide EmittedAt, OnlyAt, Corroborated, Need, FrameAt;
    var dev := pre + DamagedWire(ds, after);
    RunFromFirstHeader(dev, |pre|, ahead, r);
    SplitAppend(pre, DamagedWire(ds, after));
    EmittedExactly(dev, |pre|, ahead, |pre| + 8 + 4096, ds, hops, after);
    EmittedAreCorroborated(dev, |pre|, ahead);
  }

  /** The same with conditions on the bytes alone, for gaps with no magic but the damaged header's own. */
  lemma QuietOnlySentIff(pre: bytes, ds: seq<Damage>, after: seq<Sent>, ahead: nat, r: Run)
    requires after != [] && Regular(ds, after) && QuietGaps(ds, after) && LongEnough(ds, after)
    requires NoMagicBefore(pre, FirstSent(ds, after)) && |pre| + 8 <= MAX_PREAMBLE + 1
    requires IsRun(pre + DamagedWire(ds, after), ahead, r)
    ensures
      var dev := pre + DamagedWire(ds, after);
      && RunsTo(dev, |pre|, ahead, r)
      && EmitsOnly(
           dev, r, EmittedAt(dev, |pre|, ahead), UndamagedAt(|pre|, ds, after), AllUnbacked(ds, after))
  {
    hide FrameLoop, DamagedWire, Regular, Crossable, AllRejected, UndamagedAt, HeaderAt, EmittedAt, EmitsOnly;
    hide QuietGaps, AllUnbacked, LongEnough, NoMagicBefore, FirstHeaderAt, IsRun, FirstSent;
    QuietStart(pre, ds, after);
    OnlySentIff(pre, ds, Ones(|ds|), after, ahead, r);
  }

  // ---------- A payload that corroborates itself ----------

  /** The same bytes: an overlong unit that holds a framed unit at its end, and a damaged one before that unit. */
  lemma EmbeddedIsDamage(before: seq<Sent>, big: Sent, front: bytes, u: Sent, after: seq<Sent>)
    requires big.au == front + Wire([u])
    ensures Wire(before + ([big] + after)) == DamagedWire([Damage(before, big, front)], [u] + after)
  {
    hide HeaderBytes, Wire;
    var d := Damage(before, big, front);
    WireAppend(before, [big] + after);
    WireAppend([u], after);
    WireStep([big] + after);
    SplitAppend([big], after);
    Associative(front, Wire([u]), Wire(after));
    assert [d][1..] == [];
    assert DamagedWire([], [u] + after) == Wire([u] + after);
  }

  /**
   An input that fails: if a unit too long for the length field holds a whole framed unit at its end, this
   inner unit, which was never sent as one, is what every run emits in its place.
   */
  lemma EmbeddedUnitIsEmitted(
      pre: bytes, before: seq<Sent>, big: Sent, front: bytes, u: Sent, after: seq<Sent>)
    requires big.au == front + Wire([u]) && after != []
    requires AllRegular(before) && AllRegular([u] + after)
    requires
      var ds := [Damage(before, big, front)];
      QuietGaps(ds, [u] + after) && AllUnbacked(ds, [u] + after) && LongEnough(ds, [u] + after)
    requires NoMagicBefore(pre, if before == [] then big else before[0]) && |pre| + 8 <= MAX_PREAMBLE + 1
    ensures
      var emitted := before + ([u] + after[..|after| - 1]);
      OnlyRun(pre + Wire(before + ([big] + after)), Run(FramesOf(emitted), 1, ClosedInFrame))
  {
    hide HeaderBytes, Wire, FramesOf, QuietGaps, AllUnbacked, LongEnough, NoMagicBefore, OnlyRun, DamagedWire;
    hide AllRegular;
    var ds, tail := [Damage(before, big, front)], [u] + after;
    EmbeddedIsDamage(before, big, front, u, after);
    QuietRecovery(pre, ds, tail);
    assert ds[1..] == [];
    assert tail[..|tail| - 1] == [u] + after[..|after| - 1];
    assert Undamaged(ds[1..], tail) == tail[..|tail| - 1];
  }

  /** A framed unit of four bytes, an overlong one that ends in it, and one sent behind that. */
  const INNER: Sent := Sent(0, 0, false, START4)
  const NEXT: Sent := Sent(0, 0, false, START4 + Zeros(9000))

  function Outer(): Sent {
    Sent(0, 0, false, Zeros(65512) + Wire([INNER]))
  }

  lemma NoMagicIn(s: bytes)
    requires forall i :: 0 <= i < |s| - 3 ==> s[i] != 0x63
    ensures Find(s, MAGIC, 0) == -1
  {
  }

  lemma OuterHeader(len: nat)
    requires len == 65540
    ensures
      var h := HeaderBytes(0, 0, false, len);
      |h| == 24 && h[..7] == [0, 0, 0, 0, 0x63, 0, 0x0c] && forall i :: 8 <= i < 24 ==> h[i] != 0x63
  {
  }

  lemma InnerHeader()
    ensures |INNER.Header()| == 24 && INNER.Header()[..7] == [0, 0, 0, 0, 0x63, 0, 0x0c]
  {
  }

  /** The gap between the outer header's magic and the inner one's. */
  lemma WitnessGap(front: bytes, rest: bytes)
    requires |front| == 65512 && (forall i :: 0 <= i < |front| ==> front[i] == 0)
    requires |rest| >= 7 && rest[..7] == [0, 0, 0, 0, 0x63, 0, 0x0c]
    requires |Outer().au| == 65540
    ensures QuietGap(Damage([], Outer(), front), rest)
  {
    hide HeaderBytes, Zeros, Wire, Find;
    OuterHeader(65540);
    var gap := Outer().Header()[8..] + (front + rest[..7]);
    forall i | 0 <= i < |gap| - 3 ensures gap[i] != 0x63 {
      if i < 16 { assert gap[i] == Outer().Header()[8 + i]; }
    }
    NoMagicIn(gap);
  }

  lemma ZerosAre(n: nat)
    ensures |Zeros(n)| == n && forall i :: 0 <= i < n ==> Zeros(n)[i] == 0
  {
  }

  lemma WitnessLengths()
    ensures |Wire([INNER])| == 28 && |Outer().au| == 65540 && |Wire([INNER, NEXT])| == 28 + 9028
    ensures INNER.Regular() && NEXT.Regular()
  {
    hide HeaderBytes, Zeros;
    ZerosAre(9000);
    ZerosAre(65512);
    WireOfOne(INNER);
    WireOfOne(NEXT);
    assert [INNER, NEXT][1..] == [NEXT];
    WireStep([INNER, NEXT]);
  }

  lemma WitnessIsQuiet()
    ensures
      var ds, tail := [Damage([], Outer(), Zeros(65512))], [INNER, NEXT];
      QuietGaps(ds, tail) && AllUnbacked(ds, tail) && LongEnough(ds, tail)
  {
    hide HeaderBytes, Zeros, Wire, Outer, QuietGap, Unbacked;
    var d, tail := Damage([], Outer(), Zeros(65512)), [INNER, NEXT];
    WitnessLengths();
    ZerosAre(65512);
    InnerHeader();
    WireStep(tail);
    var rest := Wire(tail);
    assert rest[..7] == INNER.Header()[..7];
    WitnessGap(d.body, rest);
    OverrunIsUnbacked(d, rest);
    assert [d][0 + 1..] == [] && DamagedWire([], tail) == rest;
    assert Longest([d]) == Max(Shortfall(d), Longest([])) by { assert [d][1..] == []; }
  }

  /**
   Such a stream, in full: a unit of 65540 bytes and one of 9004 are sent; every run emits a unit of four bytes,
   which is the end of the first one, and nothing else.
   */
  lemma EmbeddedWitness()
    ensures |Outer().au| == 65540 && |NEXT.au| == 9004
    ensures OnlyRun(Wire([Outer(), NEXT]), Run([VideoFrame(START4, 0, false)], 1, ClosedInFrame))
  {
    hide HeaderBytes, Zeros, Wire, Find, QuietGaps, AllUnbacked, LongEnough, OnlyRun, HasIdr, NalsOf;
    WitnessLengths();
    WitnessIsQuiet();
    ZerosAre(9000);
    OuterHeader(65540);
    assert NoMagicBefore([], Outer()) by {
      Neutral(Outer().Header()[..7]);
      NoMagicIn(Outer().Header()[..7]);
    }
    assert [INNER] + [NEXT] == [INNER, NEXT] && [Outer()] + [NEXT] == [Outer(), NEXT];
    assert [NEXT][..0] == [];
    EmbeddedUnitIsEmitted([], [], Outer(), Zeros(65512), INNER, [NEXT]);
    Neutral([Outer(), NEXT]);
    Neutral([INNER]);
    Neutral(Wire([Outer(), NEXT]));
    WitnessFrame();
  }

  lemma WitnessFrame()
    ensures FramesOf([INNER]) == [VideoFrame(START4, 0, false)]
  {
    FindStart4([]);
    assert NalsOf(START4) == [] by {
      NalsStep(START4);
      assert START4 + [] == START4;
      assert Units([]) == [];
    }
  }
}
