/** What the size cap of `AnnexBSplitter` costs, and exactly when it costs nothing. */
module SplitterLoss {
  import opened Bytes
  import opened AnnexB

  // ---------- What a lost prefix costs ----------

  /** From a start code on, the NALs are the last ones of the whole text. */
  lemma {:induction false} UnitsSuffix(s: bytes, m: nat) returns (lost: seq<bytes>)
    requires At(s, START3, m)
    ensures Units(s) == lost + Units(s[m + 3..])
    ensures NonEmpty(TrimZeros(s[..Find(s, START3, 0)])) <= lost
    decreases |s|
  {
    hide Units, TrimZeros, NonEmpty;
    UnitsStep(s);
    var j := Find(s, START3, 0);
    var first := NonEmpty(TrimZeros(s[..j]));
    if j == m {
      lost := first;
    } else {
      var t := s[j + 3..];
      assert At(t, START3, m - (j + 3));
      hide Find, At;
      var more := UnitsSuffix(t, m - (j + 3));
      SliceOfSuffix(s, j + 3, m - j, m - j);
      lost := first + more;
      Associative(first, more, Units(s[m + 3..]));
    }
  }

  /** Two start codes do not overlap. */
  lemma StartsApart(s: bytes, f: nat, m: nat)
    requires At(s, START3, f) && At(s, START3, m) && f < m
    ensures f + 3 <= m
  {
  }

  /** Dropping a prefix loses the first NALs, and no others. */
  lemma NalsSuffix(prefix: bytes, t: bytes) returns (lost: seq<bytes>)
    ensures NalsOf(prefix + t) == lost + NalsOf(t)
  {
    hide Units, TrimZeros, NonEmpty, NalsOf, Find, At;
    var s := prefix + t;
    var i := Find(t, START3, 0);
    NalsStep(s);
    NalsStep(t);
    SplitAppend(prefix, t);
    FindSuffix(s, START3, |prefix|);
    if i == -1 {
      lost := NalsOf(s);
      Neutral(lost);
    } else {
      var m := |prefix| + i;
      AtSuffix(s, START3, |prefix|, i);
      var f := Find(s, START3, 0);
      SliceOfSuffix(s, |prefix|, i + 3, i + 3);
      if f == m {
        lost := [];
        Neutral(NalsOf(t));
      } else {
        StartsApart(s, f, m);
        AtSuffix(s, START3, f + 3, m - (f + 3));
        lost := UnitsSuffix(s[f + 3..], m - (f + 3));
        SliceOfSuffix(s, f + 3, m - f, m - f);
      }
    }
  }

  predicate HoldsData(payload: bytes) {
    exists k :: 0 <= k < |payload| && payload[k] != 0
  }

  /** A residue: start code, then a payload without one. */
  predicate IsResidue(rest: bytes) {
    At(rest, START3, 0) && Clean(rest[3..])
  }

  lemma NonEmptyIs(nal: bytes)
    ensures |NonEmpty(nal)| == if nal == [] then 0 else 1
  {
  }

  lemma DataStays(s: bytes, k: nat)
    requires k < |s| && s[k] != 0
    ensures TrimZeros(s) != []
  {
  }

  /** A start code that straddles the end of a clean text begins behind its non-zero bytes. */
  lemma DataIsBefore(p: bytes, t: bytes, k: nat)
    requires Clean(p) && k < |p| && p[k] != 0
    ensures var j := Find(p + t, START3, 0); j != -1 ==> k < j
  {
    FindAppend(p, START3, t);
    assert (p + t)[k] == p[k];
  }

  /** Text before the first start code that is not all zeros is a NAL the rest does not have. */
  lemma FirstIsLost(p: bytes, t: bytes)
    requires
      var j := Find(p + t, START3, 0);
      0 <= j && |p| <= j + 2 && TrimZeros((p + t)[..j]) != []
    ensures |Units(p + t)| > |NalsOf(t)|
  {
    hide Units, TrimZeros, NonEmpty, NalsOf, Find;
    var s := p + t;
    UnitsStep(s);
    NalsStep(t);
    SplitAppend(p, t);
    FindSuffix(s, START3, |p|);
    var j := Find(s, START3, 0);
    var i := Find(t, START3, 0);
    NonEmptyIs(TrimZeros(s[..j]));
    if i != -1 {
      SliceOfSuffix(s, |p|, i + 3, i + 3);
      var lost := UnitsSuffix(s, |p| + i);
    }
  }

  /** A text that starts with data begins with a NAL of its own, in front of those of the rest. */
  lemma FirstIsData(p: bytes, t: bytes)
    requires Clean(p) && HoldsData(p)
    ensures |Units(p + t)| > |NalsOf(t)|
  {
    hide Units, TrimZeros, NonEmpty, NalsOf, Find;
    var s := p + t;
    var k :| 0 <= k < |p| && p[k] != 0;
    assert s[k] != 0;
    DataIsBefore(p, t, k);
    FindAppend(p, START3, t);
    var j := Find(s, START3, 0);
    if j == -1 {
      UnitsStep(s);
      NalsStep(t);
      SplitAppend(p, t);
      FindSuffix(s, START3, |p|);
      NonEmptyIs(s);
    } else {
      DataStays(s[..j], k);
      FirstIsLost(p, t);
    }
  }

  /** Dropping a residue that holds a non-zero byte always loses a NAL, whatever follows. */
  lemma DataIsLost(rest: bytes, t: bytes)
    requires IsResidue(rest) && HoldsData(rest[3..])
    ensures |NalsOf(rest + t)| > |NalsOf(t)|
  {
    hide Units, NalsOf, HoldsData;
    SliceOfAppend(rest, t, 3, 3);
    assert At(rest + t, START3, 0);
    NalsStep(rest + t);
    FirstIsData(rest[3..], t);
  }

  // ---------- Exactly which drops are harmless ----------

  /** `z` zero bytes, then a one. */
  predicate ZerosThenOne(s: bytes, z: int) {
    0 <= z < |s| && s[z] == 1 && forall k :: 0 <= k < z ==> s[k] == 0
  }

  /** Nothing, or a start code with nothing but zeros before it. */
  predicate Padding(s: bytes) {
    s == [] || exists z :: 2 <= z < |s| && ZerosThenOne(s, z)
  }

  /** Behind `n` zeros, the first `z + 1` bytes end a start code that loses nothing when cut. */
  predicate TurnsIntoStart(n: nat, later: bytes, z: nat) {
    ZerosThenOne(later, z) && n + z >= 2 && (z >= 2 || Padding(later[z + 1..]))
  }

  /**
   A residue may be dropped exactly when it holds zeros only and the bytes to come turn these
   zeros into part of a start code that the splitter still finds, or that has nothing behind it.
   */
  predicate Harmless(rest: bytes, later: bytes)
    requires |rest| >= 3
  {
    var p := rest[3..];
    && !HoldsData(p)
    && (|| (p == [] && later == [])
        || exists z :: 0 <= z < |later| && TurnsIntoStart(|p|, later, z))
  }

  /** The first start code of a text that begins with zeros and a one. */
  lemma FirstStart(s: bytes, z: nat)
    requires ZerosThenOne(s, z) && z >= 2
    ensures Find(s, START3, 0) == z - 2 && TrimZeros(s[..z - 2]) == []
  {
    assert At(s, START3, z - 2);
  }

  lemma NonEmptyNone(u: seq<bytes>)
    ensures NonEmpty([]) == [] && [] + u == u
  {
  }

  /** The text behind a start code is what a search would find in it, exactly if it is padding. */
  lemma PaddingIff(s: bytes)
    ensures Units(s) == NalsOf(s) <==> Padding(s)
  {
    hide Units, NalsOf, TrimZeros, NonEmpty;
    UnitsStep(s);
    NalsStep(s);
    var j := Find(s, START3, 0);
    if z :| z >= 2 && ZerosThenOne(s, z) {
      FirstStart(s, z);
      NonEmptyNone(Units(s[z + 1..]));
    } else if j == -1 {
      NonEmptyIs(s);
    } else {
      AllZeros(s, j);
      NonEmptyIs(TrimZeros(s[..j]));
    }
  }

  lemma AllZeros(s: bytes, j: nat)
    requires At(s, START3, j)
    ensures TrimZeros(s[..j]) == [] <==> ZerosThenOne(s, j + 2)
  {
    if TrimZeros(s[..j]) == [] {
      forall k | 0 <= k < j ensures s[k] == 0 { assert s[..j][k] == 0; }
    } else {
      var t := TrimZeros(s[..j]);
      assert s[|t| - 1] != 0;
    }
  }

  lemma StartBehindZeros(p: bytes, later: bytes, z: nat)
    requires !HoldsData(p) && TurnsIntoStart(|p|, later, z)
    ensures At(p + later, START3, |p| + z - 2)
  {
  }

  /** The exact condition for dropping zeros, when no start code follows them. */
  lemma ZerosAtEnd(p: bytes, later: bytes)
    requires Clean(p) && !HoldsData(p) && Find(p + later, START3, 0) == -1
    ensures Units(p + later) == NalsOf(later) <==> p == [] && later == []
    ensures forall z :: 0 <= z < |later| ==> !TurnsIntoStart(|p|, later, z)
  {
    hide Units, NalsOf, TrimZeros, NonEmpty;
    var s := p + later;
    UnitsStep(s);
    NalsStep(later);
    SplitAppend(p, later);
    FindSuffix(s, START3, |p|);
    NonEmptyIs(s);
    forall z | 0 <= z < |later| ensures !TurnsIntoStart(|p|, later, z) {
      if TurnsIntoStart(|p|, later, z) {
        StartBehindZeros(p, later, z);
      }
    }
  }

  /** Zeros in front of a short start of `later` make it a start code of which `later` has none. */
  lemma StraddlingStart(later: bytes, z: nat)
    requires ZerosThenOne(later, z) && z < 2
    ensures NalsOf(later) == NalsOf(later[z + 1..])
  {
    hide Units;
    NalsStep(later);
    NalsStep(later[z + 1..]);
    FindSuffix(later, START3, z + 1);
    var i := Find(later[z + 1..], START3, 0);
    if i != -1 {
      assert At(later, START3, z + 1 + i);
      SliceOfSuffix(later, z + 1, i + 3, i + 3);
    }
  }

  /** The exact condition for dropping zeros, when they run into a start code. */
  lemma ZerosThenStart(p: bytes, later: bytes, z: nat)
    requires !HoldsData(p) && ZerosThenOne(later, z) && |p| + z >= 2
    ensures Units(p + later) == NalsOf(later) <==> TurnsIntoStart(|p|, later, z)
  {
    hide Units, NalsOf, TrimZeros, NonEmpty, Find, At;
    var s := p + later;
    assert ZerosThenOne(s, |p| + z);
    FirstStart(s, |p| + z);
    UnitsStep(s);
    var x := later[z + 1..];
    assert s[|p| + z + 1..] == x;
    NonEmptyNone(Units(x));
    if z >= 2 {
      FirstStart(later, z);
      NalsStep(later);
    } else {
      StraddlingStart(later, z);
      PaddingIff(x);
    }
  }

  lemma OneFirstByte(s: bytes, z: nat, y: nat)
    requires ZerosThenOne(s, z) && ZerosThenOne(s, y)
    ensures z == y
  {
  }

  /** The exact condition for dropping zeros, when data comes before the first start code. */
  lemma ZerosThenData(p: bytes, later: bytes)
    requires
      var j := Find(p + later, START3, 0);
      Clean(p) && !HoldsData(p) && j != -1 && TrimZeros((p + later)[..j]) != []
    ensures Units(p + later) != NalsOf(later)
    ensures forall z :: 0 <= z < |later| ==> !TurnsIntoStart(|p|, later, z)
  {
    hide Units, NalsOf, TrimZeros, NonEmpty;
    var s := p + later;
    var j := Find(s, START3, 0);
    FindAppend(p, START3, later);
    FirstIsLost(p, later);
    forall z | 0 <= z < |later| ensures !TurnsIntoStart(|p|, later, z) {
      if TurnsIntoStart(|p|, later, z) {
        assert ZerosThenOne(s, |p| + z);
        FirstStart(s, |p| + z);
      }
    }
  }

  /** Dropping a residue loses nothing exactly when it is harmless. */
  lemma HarmlessIff(rest: bytes, later: bytes)
    requires IsResidue(rest)
    ensures NalsOf(rest + later) == NalsOf(later) <==> Harmless(rest, later)
  {
    hide Units, NalsOf, HoldsData, TrimZeros, ZerosThenOne, Padding;
    var p := rest[3..];
    SliceOfAppend(rest, later, 3, 3);
    assert At(rest + later, START3, 0);
    NalsStep(rest + later);
    var s := p + later;
    var j := Find(s, START3, 0);
    if HoldsData(p) {
      DataIsLost(rest, later);
    } else if j == -1 {
      ZerosAtEnd(p, later);
    } else if TrimZeros(s[..j]) != [] {
      ZerosThenData(p, later);
    } else {
      ZerosRunInto(p, later, j);
    }
  }

  lemma ZerosRunInto(p: bytes, later: bytes, j: nat)
    requires Clean(p) && !HoldsData(p)
    requires Find(p + later, START3, 0) == j && TrimZeros((p + later)[..j]) == []
    ensures
      Units(p + later) == NalsOf(later) <==> exists z :: 0 <= z < |later| && TurnsIntoStart(|p|, later, z)
    ensures later != []
  {
    hide Units, NalsOf, TrimZeros, TurnsIntoStart, Padding;
    FindAppend(p, START3, later);
    AllZeros(p + later, j);
    var z := j + 2 - |p|;
    OneInLater(p, later, z);
    ZerosThenStart(p, later, z);
    forall y | 0 <= y < |later| && TurnsIntoStart(|p|, later, y) ensures y == z {
      TurnsIs(|p|, later, y);
      OneFirstByte(later, z, y);
    }
  }

  lemma TurnsIs(n: nat, later: bytes, z: nat)
    requires TurnsIntoStart(n, later, z)
    ensures ZerosThenOne(later, z)
  {
  }

  lemma OneInLater(p: bytes, later: bytes, z: int)
    requires !HoldsData(p) && ZerosThenOne(p + later, |p| + z)
    ensures ZerosThenOne(later, z)
  {
    if z >= 0 {
      assert (p + later)[|p| + z] == later[z];
      forall k | 0 <= k < z ensures later[k] == 0 {
        assert (p + later)[|p| + k] == later[k];
      }
    }
  }

  // ---------- What a capped splitter delivers ----------

  /** What a buffer can hold between two calls of `feed`. */
  predicate Kept(buf: bytes) {
    |buf| <= 2 || IsResidue(buf)
  }

  lemma {:induction false} DrainIsKept(b: bytes)
    ensures Kept(Drain(b).rest)
    decreases |b|
  {
    hide Drain, Find, At, Kept;
    DrainStep(b);
    var i := Find(b, START3, 0);
    if i == -1 {
      ShortIsKept(b);
    } else {
      var j := Find(b, START3, i + 3);
      if j == -1 {
        ResidueIsKept(b, i);
      } else {
        DrainIsKept(b[j..]);
      }
    }
  }

  lemma ShortIsKept(b: bytes)
    ensures Kept(Tail2(b))
  {
  }

  lemma ResidueIsKept(b: bytes, i: nat)
    requires At(b, START3, i) && Find(b, START3, i + 3) == -1
    ensures Kept(b[i..])
  {
    FindSuffix(b, START3, i + 3);
    assert b[i..][3..] == b[i + 3..];
  }

  /** Without more input, the batch splitter finds the open payload in what is kept. */
  lemma KeptIsOpen(buf: bytes)
    requires Kept(buf)
    ensures NalsOf(buf) == Open(buf)
  {
    NalsStep(buf);
    if IsResidue(buf) { UnitsStep(buf[3..]); }
  }

  /** Going on after a drain: the drained NALs, then those of the rest with the bytes to come. */
  lemma DrainThenNals(s: bytes, t: bytes)
    ensures NalsOf(s + t) == Drain(s).nals + NalsOf(Drain(s).rest + t)
  {
    hide *;
    DrainResumes(s, t);
    DrainIsNalsOf(s + t);
    DrainIsNalsOf(Drain(s).rest + t);
    var late := Drain(Drain(s).rest + t);
    Associative(Drain(s).nals, late.nals, Open(late.rest));
  }

  /** All that comes out of a splitter: the NALs delivered, and the payload open at the end. */
  function Delivered(buf: bytes, chunks: seq<bytes>, max: nat): seq<bytes> {
    var fed := FeedAll(buf, chunks, max);
    fed.nals + Open(fed.rest)
  }

  /** Every residue the cap drops is harmless, given the bytes fed after it. */
  predicate DropsHarmless(buf: bytes, chunks: seq<bytes>, max: nat)
    decreases |chunks|
  {
    chunks == [] ||
    (var rest := Drain(buf + chunks[0]).rest;
     && (TooLong(rest, max) ==> Harmless(rest, Flatten(chunks[1..])))
     && DropsHarmless(Capped(rest, max), chunks[1..], max))
  }

  /** Every residue the cap drops holds a non-zero byte, as the text of any real NAL does. */
  predicate DropsData(buf: bytes, chunks: seq<bytes>, max: nat)
    decreases |chunks|
  {
    chunks == [] ||
    (var rest := Drain(buf + chunks[0]).rest;
     && (TooLong(rest, max) ==> HoldsData(rest[3..]))
     && DropsData(Capped(rest, max), chunks[1..], max))
  }

  lemma CappedIs(rest: bytes, max: nat)
    requires Kept(rest)
    ensures Kept(Capped(rest, max))
    ensures
      if TooLong(rest, max) then Capped(rest, max) == [] && IsResidue(rest) && |rest| >= 3
      else Capped(rest, max) == rest
  {
    CappedIff(rest, max);
  }

  lemma DeliveredStep(buf: bytes, chunks: seq<bytes>, max: nat)
    ensures
      if chunks == [] then Delivered(buf, chunks, max) == Open(buf)
      else
        var d := Drain(buf + chunks[0]);
        Delivered(buf, chunks, max) == d.nals + Delivered(Capped(d.rest, max), chunks[1..], max)
  {
    hide Drain, Capped, Open;
    if chunks != [] {
      var d := Drain(buf + chunks[0]);
      var later := FeedAll(Capped(d.rest, max), chunks[1..], max);
      Associative(d.nals, later.nals, Open(later.rest));
    }
  }

  lemma HarmlessStep(buf: bytes, chunks: seq<bytes>, max: nat)
    ensures
      chunks != [] ==>
        var rest := Drain(buf + chunks[0]).rest;
        DropsHarmless(buf, chunks, max) <==>
          && (TooLong(rest, max) ==> |rest| >= 3 && Harmless(rest, Flatten(chunks[1..])))
          && DropsHarmless(Capped(rest, max), chunks[1..], max)
    ensures chunks == [] ==> DropsHarmless(buf, chunks, max)
  {
    hide Drain, Capped, Harmless;
  }

  /**
   The cost of the cap: a splitter never delivers more NALs than the batch splitter finds in what
   it was fed, and the same ones exactly when every residue dropped is harmless.
   */
  lemma {:induction false} DeliveredIff(buf: bytes, chunks: seq<bytes>, max: nat)
    requires Kept(buf)
    ensures |Delivered(buf, chunks, max)| <= |NalsOf(buf + Flatten(chunks))|
    ensures Delivered(buf, chunks, max) == NalsOf(buf + Flatten(chunks)) <==> DropsHarmless(buf, chunks, max)
    decreases |chunks|
  {
    hide *;
    DeliveredStep(buf, chunks, max);
    HarmlessStep(buf, chunks, max);
    FlattenIs(chunks);
    if chunks == [] {
      Neutral(buf);
      KeptIsOpen(buf);
    } else {
      var c, later := chunks[0], Flatten(chunks[1..]);
      var d := Drain(buf + c);
      var kept := Capped(d.rest, max);
      Associative(buf, c, later);
      DrainThenNals(buf + c, later);
      DrainIsKept(buf + c);
      CappedIs(d.rest, max);
      DeliveredIff(kept, chunks[1..], max);
      var rest := Delivered(kept, chunks[1..], max);
      SameFront(d.nals, rest, NalsOf(d.rest + later));
      if TooLong(d.rest, max) {
        Neutral(later);
        HarmlessIff(d.rest, later);
        var lost := NalsSuffix(d.rest, later);
        ShorterDiffers(rest, lost, NalsOf(later));
      }
    }
  }

  lemma SameFront<T>(a: seq<T>, b: seq<T>, c: seq<T>)
    ensures a + b == a + c <==> b == c
  {
    SplitAppend(a, b);
    SplitAppend(a, c);
  }

  lemma ShorterDiffers<T>(a: seq<T>, lost: seq<T>, b: seq<T>)
    requires |a| <= |b|
    ensures a == lost + b <==> lost + b == b && a == b
  {
    if a == lost + b {
      assert lost == [];
    }
  }

  lemma FlattenIs<T>(xs: seq<seq<T>>)
    ensures xs == [] ==> Flatten(xs) == []
    ensures xs != [] ==> Flatten(xs) == xs[0] + Flatten(xs[1..])
  {
  }

  /** The general statement, for a splitter that starts empty. */
  lemma FedIsAllIff(chunks: seq<bytes>, max: nat)
    ensures
      var fed := FeedAll([], chunks, max);
      && |fed.nals + Open(fed.rest)| <= |NalsOf(Flatten(chunks))|
      && (fed.nals + Open(fed.rest) == NalsOf(Flatten(chunks)) <==> DropsHarmless([], chunks, max))
  {
    hide Drain, Capped, Harmless, NalsOf, Open, FeedAll, DropsHarmless, Flatten;
    Neutral(Flatten(chunks));
    DeliveredIff([], chunks, max);
  }

  lemma DataStep(buf: bytes, chunks: seq<bytes>, max: nat)
    requires DropsData(buf, chunks, max) && chunks != []
    ensures
      var rest := Drain(buf + chunks[0]).rest;
      && (TooLong(rest, max) ==> |rest| >= 3 && HoldsData(rest[3..]))
      && DropsData(Capped(rest, max), chunks[1..], max)
  {
    hide Drain, Capped;
  }

  lemma DataIsNotHarmless(rest: bytes, later: bytes)
    requires |rest| >= 3 && HoldsData(rest[3..])
    ensures !Harmless(rest, later)
  {
  }

  /** As long as every dropped residue would hold data, losing nothing means dropping nothing. */
  lemma {:induction false} NothingDropped(seen: seq<bytes>, chunks: seq<bytes>, max: nat)
    requires NeverRunsAway(seen, max)
    requires DropsData(Drain(Flatten(seen)).rest, chunks, max)
    requires DropsHarmless(Drain(Flatten(seen)).rest, chunks, max)
    ensures NeverRunsAway(seen + chunks, max)
    decreases |chunks|
  {
    hide *;
    if chunks == [] {
      Neutral(seen);
    } else {
      var c := chunks[0];
      var buf := Drain(Flatten(seen)).rest;
      DataStep(buf, chunks, max);
      HarmlessStep(buf, chunks, max);
      var seen' := seen + [c];
      OneMore(seen, c);
      DrainResumes(Flatten(seen), c);
      var rest := Drain(buf + c).rest;
      DrainIsKept(buf + c);
      CappedIs(rest, max);
      if TooLong(rest, max) {
        DataIsNotHarmless(rest, Flatten(chunks[1..]));
        assert false;
      }
      NoDropOneMore(seen, c, max);
      NothingDropped(seen', chunks[1..], max);
      assert seen + chunks == seen' + chunks[1..];
    }
  }

  lemma OneMore(seen: seq<bytes>, c: bytes)
    ensures Flatten(seen + [c]) == Flatten(seen) + c
  {
    FlattenAppend(seen, [c]);
    assert Flatten([c]) == c;
  }

  lemma NoDropOneMore(seen: seq<bytes>, c: bytes, max: nat)
    requires NeverRunsAway(seen, max)
    requires !TooLong(Drain(Flatten(seen + [c])).rest, max)
    ensures NeverRunsAway(seen + [c], max)
  {
    hide Drain, Capped, Flatten;
    forall n | 0 <= n <= |seen| + 1 ensures NoDropAt(seen + [c], n, max) {
      if n <= |seen| {
        assert NoDropAt(seen, n, max);
        assert (seen + [c])[..n] == seen[..n];
      } else {
        assert (seen + [c])[..n] == seen + [c];
      }
    }
  }

  /**
   Chunking invariance, exactly: where every residue over the cap holds data, feeding the chunks
   delivers the batch splitter's NALs if and only if no residue ever exceeds the cap.
   */
  lemma ChunkingInvarianceIff(chunks: seq<bytes>, max: nat)
    requires DropsData([], chunks, max)
    ensures
      var fed := FeedAll([], chunks, max);
      fed.nals + Open(fed.rest) == NalsOf(Flatten(chunks)) <==> NeverRunsAway(chunks, max)
  {
    hide *;
    FedIsAllIff(chunks, max);
    if DropsHarmless([], chunks, max) {
      DrainNothing();
      NothingYet(max);
      NothingDropped([], chunks, max);
      Neutral(chunks);
    }
    if NeverRunsAway(chunks, max) { ChunkingInvariance(chunks, max); }
  }

  lemma NothingYet(max: nat)
    ensures NeverRunsAway([], max)
  {
    DrainNothing();
  }

  /** An input that fails: one payload of two bytes under a cap of four is lost without a trace. */
  lemma CapLosesNal()
    ensures
      var chunks: seq<bytes> := [[0, 0, 1, 0x65, 0x11]];
      && FeedAll([], chunks, 4) == Drained([], [])
      && NalsOf(Flatten(chunks)) == [[0x65, 0x11]]
  {
    var b: bytes := [0, 0, 1, 0x65, 0x11];
    assert At(b, START3, 0);
    assert Find(b, START3, 3) == -1;
    assert [] + b == b;
    DrainStep(b);
    NalsStep(b);
    UnitsStep(b[3..]);
    FindSuffix(b, START3, 3);
    assert FeedAll([], [], 4) == Drained([], []);
    assert b + [] == b;
    assert Flatten<byte>([b]) == b;
  }
}
