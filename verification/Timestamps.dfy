/** `TimestampMapper`: device milliseconds onto a 90 kHz RTP timeline. Floats are modelled as reals. */
module Timestamps {
  import opened Results

  const WORD: int := 0x1_0000_0000

  /** The fields of the mapper; `rtp` is also the result of the last call. */
  datatype Mapper = Mapper(lastMs: Option<int>, lastWall: Option<real>, typicalMs: real, rtp: int)
  {
    predicate Valid() {
      && 1.0 <= typicalMs <= 5000.0 && 0 <= rtp < WORD
      && (lastMs.Some? ==> lastWall.Some?)
    }
  }

  const INITIAL: Mapper := Mapper(None, None, 100.0, 0)

  /** The device clock's step modulo 2^32. */
  function DeviceStep(from: int, to: int): (d: int)
    ensures 0 <= d < WORD
  {
    (to - from) % WORD
  }

  /** The milliseconds one call adds, before the conversion to ticks. */
  function DeltaMs(m: Mapper, ts: Option<int>, now: real): real {
    if ts == None || m.lastMs == None then
      if m.lastWall == None then 0.0
      else
        var wall := (now - m.lastWall.value) * 1000.0;
        if wall < 1.0 then 1.0 else if wall > 5000.0 then 5000.0 else wall
    else
      var d := DeviceStep(m.lastMs.value, ts.value);
      if d <= 5000 then d as real else m.typicalMs
  }

  /** `int(delta_ms * 90)` */
  function Ticks(m: Mapper, ts: Option<int>, now: real): int {
    (DeltaMs(m, ts, now) * 90.0).Floor
  }

  function Step(m: Mapper, ts: Option<int>, now: real): Mapper {
    var typical :=
      if ts == None || m.lastMs == None then m.typicalMs
      else
        var d := DeviceStep(m.lastMs.value, ts.value);
        if 0 < d <= 5000 then 0.9 * m.typicalMs + 0.1 * d as real else m.typicalMs;
    Mapper(ts, Some(now), typical, (m.rtp + Ticks(m, ts, now)) % WORD)
  }

  class TimestampMapper {
    var lastMs: Option<int>
    var lastWall: Option<real>
    var typicalMs: real
    var rtp: int

    function State(): Mapper
      reads this
    {
      Mapper(lastMs, lastWall, typicalMs, rtp)
    }

    constructor ()
      ensures State() == INITIAL && INITIAL.Valid()
    {
      lastMs, lastWall, typicalMs, rtp := None, None, 100.0, 0;
    }

    /** `map`, at the monotonic clock reading `now`. */
    method Map(ts: Option<int>, now: real) returns (r: int)
      modifies this
      ensures State() == Step(old(State()), ts, now) && r == rtp
    {
      var deltaMs: real;
      if ts == None || lastMs == None {
        if lastWall == None {
          deltaMs := 0.0;
        } else {
          deltaMs := (now - lastWall.value) * 1000.0;
          deltaMs := if deltaMs < 1.0 then 1.0 else deltaMs;
          deltaMs := if deltaMs > 5000.0 then 5000.0 else deltaMs;
        }
      } else {
        deltaMs := DeviceStep(lastMs.value, ts.value) as real;
        if !(0.0 <= deltaMs <= 5000.0) {
          deltaMs := typicalMs;
        } else if deltaMs > 0.0 {
          typicalMs := 0.9 * typicalMs + 0.1 * deltaMs;
        }
      }
      rtp := (rtp + (deltaMs * 90.0).Floor) % WORD;
      lastMs := ts;
      lastWall := Some(now);
      r := rtp;
    }
  }

  // ---------- Runs ----------

  datatype Reading = Reading(ts: Option<int>, now: real)

  function Run(m: Mapper, calls: seq<Reading>): Mapper
    decreases |calls|
  {
    if calls == [] then m else Run(Step(m, calls[0].ts, calls[0].now), calls[1..])
  }

  /** The unwrapped timeline: all ticks added by a run. */
  function Elapsed(m: Mapper, calls: seq<Reading>): int
    decreases |calls|
  {
    if calls == [] then 0
    else Ticks(m, calls[0].ts, calls[0].now) + Elapsed(Step(m, calls[0].ts, calls[0].now), calls[1..])
  }

  /** A reading whose device clock jumped: further than 5 seconds, or backwards. */
  predicate Jumps(m: Mapper, ts: Option<int>) {
    ts.Some? && m.lastMs.Some? && DeviceStep(m.lastMs.value, ts.value) > 5000
  }

  /** One call keeps the average in bounds, never goes back, never leaps, and a clock jump still advances. */
  lemma StepBounds(m: Mapper, ts: Option<int>, now: real)
    requires m.Valid()
    ensures Step(m, ts, now).Valid()
    ensures 0 <= Ticks(m, ts, now) <= 450000
    ensures Jumps(m, ts) ==> 90 <= Ticks(m, ts, now)
  {
    var d := DeltaMs(m, ts, now);
    assert 0.0 <= d <= 5000.0;
  }

  lemma {:induction false} RunBounds(m: Mapper, calls: seq<Reading>)
    requires m.Valid()
    ensures Run(m, calls).Valid()
    ensures 0 <= Elapsed(m, calls) <= 450000 * |calls|
    ensures Run(m, calls).rtp == (m.rtp + Elapsed(m, calls)) % WORD
    decreases |calls|
  {
    if calls != [] {
      hide Step, Ticks, Mapper.Valid;
      var m' := Step(m, calls[0].ts, calls[0].now);
      StepBounds(m, calls[0].ts, calls[0].now);
      RunBounds(m', calls[1..]);
      RtpOfStep(m, calls[0].ts, calls[0].now);
      var t := Ticks(m, calls[0].ts, calls[0].now);
      Congruent(m'.rtp + Elapsed(m', calls[1..]), m.rtp + t + Elapsed(m', calls[1..]), -((m.rtp + t) / 0x1_0000_0000));
    } else {
      RtpInRange(m);
    }
  }

  lemma RtpInRange(m: Mapper)
    requires m.Valid()
    ensures m.rtp == m.rtp % WORD
  {
  }

  lemma RtpOfStep(m: Mapper, ts: Option<int>, now: real)
    ensures Step(m, ts, now).rtp == (m.rtp + Ticks(m, ts, now)) % WORD
  {
    hide Ticks;
  }

  /** The unwrapped timeline never decreases: a longer run has elapsed at least as far. */
  lemma {:induction false} Monotone(m: Mapper, calls: seq<Reading>, more: seq<Reading>)
    requires m.Valid()
    ensures Elapsed(m, calls) <= Elapsed(m, calls + more)
    decreases |calls|
  {
    hide Step, Ticks;
    if calls == [] {
      assert calls + more == more;
      RunBounds(m, more);
    } else {
      assert (calls + more)[1..] == calls[1..] + more;
      StepBounds(m, calls[0].ts, calls[0].now);
      Monotone(Step(m, calls[0].ts, calls[0].now), calls[1..], more);
    }
  }

  /** All readings carry a device time, each at most 5 seconds after the one before, wrapping included. */
  predicate Steady(from: int, calls: seq<Reading>)
    decreases |calls|
  {
    calls == [] ||
    (calls[0].ts.Some? && DeviceStep(from, calls[0].ts.value) <= 5000 && Steady(calls[0].ts.value, calls[1..]))
  }

  function LastTs(from: int, calls: seq<Reading>): int
    decreases |calls|
  {
    if calls == [] || calls[0].ts == None then from else LastTs(calls[0].ts.value, calls[1..])
  }

  /** On a steady clock the RTP difference is exactly 90 ticks a millisecond, modulo 2^32, across wraps. */
  lemma {:induction false} SteadyIsExact(m: Mapper, from: int, calls: seq<Reading>)
    requires m.Valid() && m.lastMs == Some(from) && Steady(from, calls)
    ensures (Run(m, calls).rtp - m.rtp) % WORD == (90 * (LastTs(from, calls) - from)) % WORD
    decreases |calls|
  {
    if calls != [] {
      var ts, now := calls[0].ts.value, calls[0].now;
      var m' := Step(m, Some(ts), now);
      var d := DeviceStep(from, ts);
      StepBounds(m, Some(ts), now);
      assert Ticks(m, Some(ts), now) == 90 * d;
      SteadyIsExact(m', ts, calls[1..]);
      var last := LastTs(ts, calls[1..]);
      Combine(m.rtp, m'.rtp, Run(m', calls[1..]).rtp, d, ts - from, last - ts);
    }
  }

  lemma Combine(r0: int, r1: int, r2: int, d: int, step: int, rest: int)
    requires d == step % WORD && r1 == (r0 + 90 * d) % WORD && (r2 - r1) % WORD == (90 * rest) % WORD
    ensures (r2 - r0) % WORD == (90 * (step + rest)) % WORD
  {
    var a := (r0 + 90 * d) / 0x1_0000_0000;
    var b := step / 0x1_0000_0000;
    var c := (r2 - r1) / 0x1_0000_0000 - (90 * rest) / 0x1_0000_0000;
    assert r2 - r1 == 90 * rest + 0x1_0000_0000 * c;
    assert r1 == r0 + 90 * d - 0x1_0000_0000 * a;
    Congruent(r2 - r0, 90 * (step + rest), c - a - 90 * b);
  }

  lemma Congruent(x: int, y: int, k: int)
    requires x == y + 0x1_0000_0000 * k
    ensures x % WORD == y % WORD
  {
  }

  // ---------- The same as a function of the readings alone ----------

  /** Device milliseconds between two readings, if both have a device time. */
  function Between(a: Reading, b: Reading): Option<int> {
    if a.ts.Some? && b.ts.Some? then Some((b.ts.value - a.ts.value) % 0x1_0000_0000) else None
  }

  /** Milliseconds on the wall clock, between 1 and 5000. */
  function Waited(a: Reading, b: Reading): real {
    var ms := 1000.0 * (b.now - a.now);
    if ms > 5000.0 then 5000.0 else if ms < 1.0 then 1.0 else ms
  }

  /** The average when reading `k` is made: device steps of up to 5 seconds before it count for a tenth each. */
  function AverageAt(rs: seq<Reading>, k: nat): real
    requires k <= |rs|
  {
    if k <= 1 then 100.0
    else
      var average, d := AverageAt(rs, k - 1), Between(rs[k - 2], rs[k - 1]);
      if d.Some? && 1 <= d.value <= 5000 then average + (d.value as real - average) / 10.0 else average
  }

  /**
   How far reading `k` is from the one before: by the device clock if it has moved at most 5 seconds, the average
   if it has jumped, and by the wall clock if one of the two has no device time.
   */
  function DistanceAt(rs: seq<Reading>, k: nat): real
    requires k < |rs|
  {
    if k == 0 then 0.0
    else
      var d := Between(rs[k - 1], rs[k]);
      if d.None? then Waited(rs[k - 1], rs[k])
      else if d.value > 5000 then AverageAt(rs, k)
      else d.value as real
  }

  function TotalTicks(rs: seq<Reading>, n: nat): int
    requires n <= |rs|
  {
    if n == 0 then 0 else TotalTicks(rs, n - 1) + (90.0 * DistanceAt(rs, n - 1)).Floor
  }

  /** What the mapper remembers after `n` readings: the last one, and the average. */
  predicate Remembers(m: Mapper, rs: seq<Reading>, n: nat)
    requires n <= |rs|
  {
    if n == 0 then m == INITIAL
    else
      && m.lastMs == rs[n - 1].ts && m.lastWall == Some(rs[n - 1].now) && m.typicalMs == AverageAt(rs, n)
      && m.rtp == TotalTicks(rs, n) % WORD
  }

  lemma RemembersNext(m: Mapper, rs: seq<Reading>, n: nat)
    requires n < |rs| && Remembers(m, rs, n)
    ensures Remembers(Step(m, rs[n].ts, rs[n].now), rs, n + 1)
    ensures Ticks(m, rs[n].ts, rs[n].now) == (90.0 * DistanceAt(rs, n)).Floor
  {
    var d := DistanceAt(rs, n);
    assert DeltaMs(m, rs[n].ts, rs[n].now) == d;
    assert d * 90.0 == 90.0 * d;
    if n > 0 {
      var t, total := Ticks(m, rs[n].ts, rs[n].now), TotalTicks(rs, n);
      Congruent(m.rtp + t, total + t, -(total / 0x1_0000_0000));
    }
  }

  lemma {:induction false} RunRemembers(m: Mapper, rs: seq<Reading>, n: nat)
    requires n <= |rs| && Remembers(m, rs, n)
    ensures Remembers(Run(m, rs[n..]), rs, |rs|)
    decreases |rs| - n
  {
    hide Remembers, Step;
    if n < |rs| {
      RemembersNext(m, rs, n);
      assert rs[n..][1..] == rs[n + 1..];
      RunRemembers(Step(m, rs[n].ts, rs[n].now), rs, n + 1);
    }
  }

  /** From a new mapper on, the last result is the sum of all distances, each in whole ticks, modulo 2^32. */
  lemma ResultOfReadings(rs: seq<Reading>)
    requires rs != []
    ensures Run(INITIAL, rs).rtp == TotalTicks(rs, |rs|) % 0x1_0000_0000
    ensures Run(INITIAL, rs).typicalMs == AverageAt(rs, |rs|)
  {
    RunRemembers(INITIAL, rs, 0);
    assert rs[0..] == rs;
  }

  // ---------- The average, and what a clock jump makes of it ----------

  /** 0.9 to the power `n`. */
  function Decay(n: nat): real {
    if n == 0 then 1.0 else 0.9 * Decay(n - 1)
  }

  predicate EqualSteps(from: int, d: int, calls: seq<Reading>)
    decreases |calls|
  {
    calls == [] ||
    (calls[0].ts.Some? && DeviceStep(from, calls[0].ts.value) == d && EqualSteps(calls[0].ts.value, d, calls[1..]))
  }

  /** After `n` equal steps what is left of the distance between average and step is 0.9^n. */
  lemma {:induction false} AverageOfEqualSteps(m: Mapper, from: int, d: int, calls: seq<Reading>)
    requires m.lastMs == Some(from) && 1 <= d <= 5000 && EqualSteps(from, d, calls)
    ensures Run(m, calls).typicalMs == d as real + Decay(|calls|) * (m.typicalMs - d as real)
    decreases |calls|
  {
    if calls != [] {
      var m' := Step(m, calls[0].ts, calls[0].now);
      AverageOfEqualSteps(m', calls[0].ts.value, d, calls[1..]);
      var gap, rest := m.typicalMs - d as real, Decay(|calls| - 1);
      assert m'.typicalMs - d as real == 0.9 * gap;
      assert rest * (0.9 * gap) == (0.9 * rest) * gap;
    }
  }

  /** A clock jump advances by the average, and leaves it alone. */
  lemma JumpAdvances(m: Mapper, ts: Option<int>, now: real)
    requires Jumps(m, ts)
    ensures Ticks(m, ts, now) == (90.0 * m.typicalMs).Floor && Step(m, ts, now).typicalMs == m.typicalMs
  {
    assert m.typicalMs * 90.0 == 90.0 * m.typicalMs;
  }

  /** A new mapper, one step of 40 ms and a jump: the jump advances by 94 ms. */
  lemma JumpAfterOneStep(t: int, a: real, b: real, c: real)
    ensures
      var m := Run(INITIAL, [Reading(Some(t), a), Reading(Some(t + 40), b)]);
      Ticks(m, Some(t + 10000), c) == 8460
  {
    var rs := [Reading(Some(t), a), Reading(Some(t + 40), b)];
    ResultOfReadings(rs);
    RunRemembers(INITIAL, rs, 0);
    assert rs[0..] == rs;
    assert AverageAt(rs, 1) == 100.0 && AverageAt(rs, 2) == 94.0;
    var m := Run(INITIAL, rs);
    assert DeviceStep(t + 40, t + 10000) == 9960;
    JumpAdvances(m, Some(t + 10000), c);
  }
}
