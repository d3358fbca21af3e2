/**
 `parse_sps`: profile, level and resolution out of a sequence parameter set, against the syntax of
 section 7.3.2.1.1 of ITU-T Rec. H.264 and its cropping equations.
 */
module Sps {
  import opened Bytes
  import opened Results
  import opened Bits
  import Emulation

  datatype SpsInfo = SpsInfo(profileIdc: nat, levelIdc: nat, width: int, height: int)

  predicate IsHighProfile(profile: int) {
    profile in {100, 110, 122, 244, 44, 83, 86, 118, 128, 138, 139, 134, 135}
  }

  // ---------- The parser, stage by stage, on the bits that remain ----------

  datatype Head = Head(profile: nat, level: nat)

  /** Picture size in macroblocks and map units, and `frame_mbs_only_flag`. */
  datatype Dims = Dims(widthMbs: nat, heightUnits: nat, frameMbsOnly: bit)

  datatype Crop = Crop(left: nat, right: nat, top: nat, bottom: nat)

  function PHead(s: bits): Result<Parsed<Head>> {
    var Parsed(profile, s) :- PBits(s, 8);
    var Parsed(_, s) :- PBits(s, 8);
    var Parsed(level, s) :- PBits(s, 8);
    var Parsed(_, s) :- PUe(s);
    Success(Parsed(Head(profile, level), s))
  }

  function PScalingList(s: bits, size: nat, last: int, nxt: int): Result<Parsed<()>>
    decreases size
  {
    if size == 0 then Success(Parsed((), s))
    else if nxt != 0 then
      var Parsed(delta, s) :- PSe(s);
      var n := (last + delta + 256) % 256;
      PScalingList(s, size - 1, if n != 0 then n else last, n)
    else PScalingList(s, size - 1, last, 0)
  }

  function ListSize(i: nat): nat {
    if i < 6 then 16 else 64
  }

  function PScalingLists(s: bits, i: nat, count: nat): Result<Parsed<()>>
    decreases count - i
  {
    if i >= count then Success(Parsed((), s))
    else
      var Parsed(present, s) :- PBit(s);
      if present == 1 then
        var Parsed(_, s) :- PScalingList(s, ListSize(i), 8, 8);
        PScalingLists(s, i + 1, count)
      else PScalingLists(s, i + 1, count)
  }

  function POptionalBit(s: bits, present: bool): Result<Parsed<bit>> {
    if present then PBit(s) else Success(Parsed(0, s))
  }

  /** The fields only the high profiles carry; the result is `chroma_format_idc`. */
  function PChroma(s: bits, profile: nat): Result<Parsed<nat>> {
    if !IsHighProfile(profile) then Success(Parsed(1, s))
    else
      var Parsed(chroma, s) :- PUe(s);
      var Parsed(_, s) :- POptionalBit(s, chroma == 3);
      var Parsed(_, s) :- PUe(s);
      var Parsed(_, s) :- PUe(s);
      var Parsed(_, s) :- PBit(s);
      var Parsed(matrix, s) :- PBit(s);
      if matrix == 0 then Success(Parsed(chroma, s))
      else
        var Parsed(_, s) :- PScalingLists(s, 0, if chroma != 3 then 8 else 12);
        Success(Parsed(chroma, s))
  }

  function PSes(s: bits, n: nat): Result<Parsed<()>>
    decreases n
  {
    if n == 0 then Success(Parsed((), s))
    else
      var Parsed(_, s) :- PSe(s);
      PSes(s, n - 1)
  }

  function PPoc(s: bits): Result<Parsed<()>> {
    var Parsed(pocType, s) :- PUe(s);
    if pocType == 0 then
      var Parsed(_, s) :- PUe(s);
      Success(Parsed((), s))
    else if pocType == 1 then
      var Parsed(_, s) :- PBit(s);
      var Parsed(_, s) :- PSe(s);
      var Parsed(_, s) :- PSe(s);
      var Parsed(n, s) :- PUe(s);
      PSes(s, n)
    else Success(Parsed((), s))
  }

  function PDims(s: bits): Result<Parsed<Dims>> {
    var Parsed(_, s) :- PUe(s);
    var Parsed(_, s) :- PBit(s);
    var Parsed(w, s) :- PUe(s);
    var Parsed(h, s) :- PUe(s);
    var Parsed(frameMbsOnly, s) :- PBit(s);
    var Parsed(_, s) :- POptionalBit(s, frameMbsOnly == 0);
    var Parsed(_, s) :- PBit(s);
    Success(Parsed(Dims(w + 1, h + 1, frameMbsOnly), s))
  }

  function PCrop(s: bits): Result<Parsed<Crop>> {
    var Parsed(cropping, s) :- PBit(s);
    if cropping == 0 then Success(Parsed(Crop(0, 0, 0, 0), s))
    else
      var Parsed(l, s) :- PUe(s);
      var Parsed(r, s) :- PUe(s);
      var Parsed(t, s) :- PUe(s);
      var Parsed(b, s) :- PUe(s);
      Success(Parsed(Crop(l, r, t, b), s))
  }

  /** The arithmetic at the end of `parse_sps`. */
  function Finish(h: Head, chroma: nat, d: Dims, c: Crop): SpsInfo {
    var fields := if d.frameMbsOnly == 1 then 1 else 2;
    var subW := if chroma == 1 || chroma == 2 then 2 else 1;
    var subH := if chroma == 1 then 2 else 1;
    var cropX := if chroma != 0 then subW else 1;
    var cropY := if chroma != 0 then subH * fields else fields;
    SpsInfo(h.profile, h.level,
            d.widthMbs * 16 - (c.left + c.right) * cropX,
            d.heightUnits * 16 * fields - (c.top + c.bottom) * cropY)
  }

  function ParseBits(s: bits): Result<SpsInfo> {
    var Parsed(head, s) :- PHead(s);
    var Parsed(chroma, s) :- PChroma(s, head.profile);
    var Parsed(_, s) :- PUe(s);
    var Parsed(_, s) :- PPoc(s);
    var Parsed(dims, s) :- PDims(s);
    var Parsed(crop, _) :- PCrop(s);
    Success(Finish(head, chroma, dims, crop))
  }

  function Payload(sps: bytes): bytes {
    Emulation.Strip(if sps == [] then [] else sps[1..])
  }

  lemma {:induction false} UeConsumes(s: bits, zeros: nat)
    requires UeFrom(s, zeros).Success?
    ensures |UeFrom(s, zeros).value.rest| < |s|
    decreases |s|
  {
    if s[0] == 0 { UeConsumes(s[1..], zeros + 1); }
  }

  /** How many rounds the loop over `n` offsets gets through before it is done or fails. */
  function Rounds(s: bits, n: nat): nat
    decreases n
  {
    if n == 0 || PSe(s).Failure? then 0 else 1 + Rounds(PSe(s).value.rest, n - 1)
  }

  /**
   The loop whose count comes from the data: whether it is completed or cut short by an error, it gets
   through no more rounds than there are bits, and it is completed exactly if it gets through all of them.
   */
  lemma {:induction false} CycleIsBounded(s: bits, n: nat)
    ensures Rounds(s, n) <= |s| && Rounds(s, n) <= n
    ensures PSes(s, n).Success? <==> Rounds(s, n) == n
    ensures PSes(s, n).Success? ==> n + |PSes(s, n).value.rest| <= |s|
    decreases n
  {
    hide UeFrom;
    if n > 0 && PSe(s).Success? {
      UeConsumes(s, 0);
      CycleIsBounded(PSe(s).value.rest, n - 1);
    }
  }

  // ---------- The imperative parser ----------

  method SkipScalingList(r: BitReader, size: nat) returns (o: Result<()>)
    requires r.Valid()
    modifies r
    ensures r.Reads(old(r.pos), PScalingList(old(r.Remaining()), size, 8, 8), o)
  {
    hide PSe, BitsOf;
    ghost var s := r.Remaining();
    var last, nxt := 8, 8;
    for j := 0 to size
      invariant r.Valid() && old(r.pos) <= r.pos
      invariant PScalingList(s, size, 8, 8) == PScalingList(r.Remaining(), size - j, last, nxt)
    {
      if nxt != 0 {
        var delta :- r.Se();
        nxt := (last + delta + 256) % 256;
      }
      last := if nxt != 0 then nxt else last;
    }
    return Success(());
  }

  method SkipScalingLists(r: BitReader, count: nat) returns (o: Result<()>)
    requires r.Valid()
    modifies r
    ensures r.Reads(old(r.pos), PScalingLists(old(r.Remaining()), 0, count), o)
  {
    ghost var s := r.Remaining();
    for i := 0 to count
      invariant r.Valid() && old(r.pos) <= r.pos
      invariant PScalingLists(s, 0, count) == PScalingLists(r.Remaining(), i, count)
    {
      var present :- r.Bit();
      if present == 1 {
        var _ :- SkipScalingList(r, ListSize(i));
      }
    }
    return Success(());
  }

  method ReadChroma(r: BitReader, profile: nat) returns (o: Result<nat>)
    requires r.Valid()
    modifies r
    ensures r.Reads(old(r.pos), PChroma(old(r.Remaining()), profile), o)
  {
    hide PUe, PBit, BitsOf, PScalingLists;
    var chroma := 1;
    if IsHighProfile(profile) {
      chroma :- r.Ue();
      if chroma == 3 {
        var _ :- r.Bit();
      }
      var _ :- r.Ue();
      var _ :- r.Ue();
      var _ :- r.Bit();
      var matrix :- r.Bit();
      if matrix == 1 {
        var _ :- SkipScalingLists(r, if chroma != 3 then 8 else 12);
      }
    }
    return Success(chroma);
  }

  method SkipPoc(r: BitReader) returns (o: Result<()>)
    requires r.Valid()
    modifies r
    ensures r.Reads(old(r.pos), PPoc(old(r.Remaining())), o)
  {
    hide PUe, PSe, PBit, PSes, BitsOf;
    var pocType :- r.Ue();
    if pocType == 0 {
      var _ :- r.Ue();
    } else if pocType == 1 {
      var _ :- r.Bit();
      var _ :- r.Se();
      var _ :- r.Se();
      var n :- r.Ue();
      var _ :- SkipSes(r, n);
    }
    return Success(());
  }

  method SkipSes(r: BitReader, n: nat) returns (o: Result<()>)
    requires r.Valid()
    modifies r
    ensures r.Reads(old(r.pos), PSes(old(r.Remaining()), n), o)
  {
    ghost var s := r.Remaining();
    for i := 0 to n
      invariant r.Valid() && old(r.pos) <= r.pos
      invariant PSes(s, n) == PSes(r.Remaining(), n - i)
    {
      var _ :- r.Se();
    }
    return Success(());
  }

  method ReadDims(r: BitReader) returns (o: Result<Dims>)
    requires r.Valid()
    modifies r
    ensures r.Reads(old(r.pos), PDims(old(r.Remaining())), o)
  {
    hide PUe, PBit, BitsOf;
    var _ :- r.Ue();
    var _ :- r.Bit();
    var w :- r.Ue();
    var h :- r.Ue();
    var frameMbsOnly :- r.Bit();
    if frameMbsOnly == 0 {
      var _ :- r.Bit();
    }
    var _ :- r.Bit();
    return Success(Dims(w + 1, h + 1, frameMbsOnly));
  }

  method ReadCrop(r: BitReader) returns (o: Result<Crop>)
    requires r.Valid()
    modifies r
    ensures r.Reads(old(r.pos), PCrop(old(r.Remaining())), o)
  {
    hide PUe, PBit, BitsOf;
    var cropping :- r.Bit();
    var left, right, top, bottom := 0, 0, 0, 0;
    if cropping == 1 {
      left :- r.Ue();
      right :- r.Ue();
      top :- r.Ue();
      bottom :- r.Ue();
    }
    return Success(Crop(left, right, top, bottom));
  }

  method ReadHead(r: BitReader) returns (o: Result<Head>)
    requires r.Valid()
    modifies r
    ensures r.Reads(old(r.pos), PHead(old(r.Remaining())), o)
  {
    var profile :- r.Bits(8);
    var _ :- r.Bits(8);
    var level :- r.Bits(8);
    var _ :- r.Ue();
    return Success(Head(profile, level));
  }

  method ParseSps(sps: bytes) returns (o: Result<SpsInfo>)
    ensures o == ParseBits(BitsOf(Payload(sps)))
  {
    var r := new BitReader(Payload(sps));
    var head :- ReadHead(r);
    var chroma :- ReadChroma(r, head.profile);
    var _ :- r.Ue();
    var _ :- SkipPoc(r);
    var dims :- ReadDims(r);
    var crop :- ReadCrop(r);
    return Success(Finish(head, chroma, dims, crop));
  }
}
