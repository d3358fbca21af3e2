/**
 The other direction of `parse_sps`: the syntax of section 7.3.2.1.1 of ITU-T Rec. H.264 written out
 as an encoder, and the proof that `parse_sps` reads back what it wrote.
 */
module SpsEncoding {
  import opened Bytes
  import opened Results
  import opened Bits
  import opened Sps
  import Emulation

  /**
   A scaling list as the encoder sends it: not at all, or an explicit prefix of entries. An entry that
   is never sent repeats the last one; an empty prefix asks for the default list.
   */
  datatype ScalingList = Absent | Explicit(entries: seq<int>)

  datatype High = High(
    chroma: nat, separatePlanes: bit, lumaDepth: nat, chromaDepth: nat, bypass: bit,
    matrix: Option<seq<ScalingList>>)

  datatype Poc =
    | PocLsb(log2MaxLsbMinus4: nat)
    | PocCycle(deltaAlwaysZero: bit, nonRef: int, topToBottom: int, offsets: seq<int>)
    | PocOutputOrder

  /** The fields of a sequence parameter set up to the cropping rectangle. */
  datatype Fields = Fields(
    profile: nat, constraints: nat, level: nat, id: nat, high: High, log2MaxFrameNumMinus4: nat,
    poc: Poc, maxRefFrames: nat, gapsAllowed: bit, widthMbsMinus1: nat, heightUnitsMinus1: nat,
    frameMbsOnly: bit, mbAdaptive: bit, direct8x8: bit, crop: Option<Crop>)

  // ---------- The standard's tables ----------

  /** The profiles for which section 7.3.2.1.1 has chroma, bit depth and scaling fields. */
  predicate HasHighFields(profile: nat) {
    || profile == 44 || profile == 83 || profile == 86 || profile == 100 || profile == 110 || profile == 118
    || profile == 122 || profile == 128 || profile == 134 || profile == 135 || profile == 138 || profile == 139
    || profile == 244
  }

  /** Six lists for 4x4 blocks, then those for 8x8 blocks. */
  function Entries(i: nat): nat {
    if i <= 5 then 4 * 4 else 8 * 8
  }

  /** The parser's tables are the standard's. */
  lemma TablesAgree(profile: nat)
    ensures IsHighProfile(profile) <==> HasHighFields(profile)
    ensures forall i: nat :: ListSize(i) == Entries(i)
  {
  }

  // ---------- Legality ----------

  predicate IsCode(v: nat) {
    v <= MAX_CODE
  }

  predicate IsSigned(v: int) {
    -0x7FFF_FFFF <= v <= 0x7FFF_FFFF
  }

  predicate LegalList(l: ScalingList, size: nat) {
    l.Explicit? ==> |l.entries| <= size && forall j :: 0 <= j < |l.entries| ==> 1 <= l.entries[j] <= 255
  }

  predicate LegalHigh(h: High) {
    && h.chroma <= 3 && IsCode(h.lumaDepth) && IsCode(h.chromaDepth)
    && (h.matrix.Some? ==>
          && |h.matrix.value| == (if h.chroma != 3 then 8 else 12)
          && forall i :: 0 <= i < |h.matrix.value| ==> LegalList(h.matrix.value[i], Entries(i)))
  }

  predicate LegalPoc(p: Poc) {
    match p
    case PocLsb(log2) => IsCode(log2)
    case PocCycle(_, a, b, offsets) =>
      IsSigned(a) && IsSigned(b) && IsCode(|offsets|) && forall j :: 0 <= j < |offsets| ==> IsSigned(offsets[j])
    case PocOutputOrder => true
  }

  predicate LegalCrop(c: Option<Crop>) {
    c.Some? ==> IsCode(c.value.left) && IsCode(c.value.right) && IsCode(c.value.top) && IsCode(c.value.bottom)
  }

  predicate Legal(f: Fields) {
    && f.profile < 256 && f.constraints < 256 && f.level < 256 && IsCode(f.id)
    && (HasHighFields(f.profile) ==> LegalHigh(f.high))
    && IsCode(f.log2MaxFrameNumMinus4) && LegalPoc(f.poc) && IsCode(f.maxRefFrames)
    && IsCode(f.widthMbsMinus1) && IsCode(f.heightUnitsMinus1) && LegalCrop(f.crop)
  }

  // ---------- The encoder: each stage writes its fields in front of what follows ----------

  function WriteHead(f: Fields, rest: bits): bits {
    ToBits(f.profile, 8) + (ToBits(f.constraints, 8) + (ToBits(f.level, 8) + (EncUe(f.id) + rest)))
  }

  /** The difference in -128..127 that takes `last` to `target` modulo 256. */
  function Delta(last: int, target: int): int {
    (target - last + 128) % 256 - 128
  }

  /** The differences of a list's entries; a step to 0 stops the list early. */
  function WriteEntries(entries: seq<int>, size: nat, last: int, rest: bits): bits
    decreases size
  {
    if size == 0 then rest
    else if entries == [] then EncSe(Delta(last, 0)) + rest
    else EncSe(Delta(last, entries[0])) + WriteEntries(entries[1..], size - 1, entries[0], rest)
  }

  function WriteLists(lists: seq<ScalingList>, i: nat, rest: bits): bits
    decreases |lists| - i
  {
    if i >= |lists| then rest
    else if lists[i].Absent? then [0] + WriteLists(lists, i + 1, rest)
    else [1] + WriteEntries(lists[i].entries, Entries(i), 8, WriteLists(lists, i + 1, rest))
  }

  function WriteMatrix(m: Option<seq<ScalingList>>, rest: bits): bits {
    if m.None? then [0] + rest else [1] + WriteLists(m.value, 0, rest)
  }

  function WriteHigh(h: High, rest: bits): bits {
    var tail := EncUe(h.lumaDepth) + (EncUe(h.chromaDepth) + ([h.bypass] + WriteMatrix(h.matrix, rest)));
    EncUe(h.chroma) + if h.chroma == 3 then [h.separatePlanes] + tail else tail
  }

  function WriteChroma(f: Fields, rest: bits): bits {
    if HasHighFields(f.profile) then WriteHigh(f.high, rest) else rest
  }

  function WriteSes(vs: seq<int>, rest: bits): bits {
    if vs == [] then rest else EncSe(vs[0]) + WriteSes(vs[1..], rest)
  }

  function WritePoc(p: Poc, rest: bits): bits {
    match p
    case PocLsb(log2) => EncUe(0) + (EncUe(log2) + rest)
    case PocCycle(zero, a, b, offsets) =>
      EncUe(1) + ([zero] + (EncSe(a) + (EncSe(b) + (EncUe(|offsets|) + WriteSes(offsets, rest)))))
    case PocOutputOrder => EncUe(2) + rest
  }

  function WriteDims(f: Fields, rest: bits): bits {
    var tail := [f.direct8x8] + rest;
    EncUe(f.maxRefFrames) + ([f.gapsAllowed] + (EncUe(f.widthMbsMinus1) + (EncUe(f.heightUnitsMinus1) +
    ([f.frameMbsOnly] + if f.frameMbsOnly == 0 then [f.mbAdaptive] + tail else tail))))
  }

  function WriteCrop(c: Option<Crop>, rest: bits): bits {
    if c.None? then [0] + rest
    else [1] + (EncUe(c.value.left) + (EncUe(c.value.right) + (EncUe(c.value.top) + (EncUe(c.value.bottom) + rest))))
  }

  /** All fields in order; `rest` is the VUI part and the trailing bits, which fill up the last byte. */
  function Write(f: Fields, rest: bits): bits {
    WriteHead(f, WriteChroma(f, EncUe(f.log2MaxFrameNumMinus4) +
    WritePoc(f.poc, WriteDims(f, WriteCrop(f.crop, rest)))))
  }

  // ---------- The standard's picture size ----------

  /** `ChromaArrayType`: 0 for separate planes, and 4:2:0 where the profile does not say. */
  function ChromaArrayType(f: Fields): nat {
    if !HasHighFields(f.profile) then 1
    else if f.high.chroma == 3 && f.high.separatePlanes == 1 then 0
    else f.high.chroma
  }

  /** `SubWidthC` and `SubHeightC`, Table 6-1. */
  function SubWidthC(chroma: nat): nat {
    if chroma == 3 then 1 else 2
  }

  function SubHeightC(chroma: nat): nat {
    if chroma == 1 then 2 else 1
  }

  function Width(f: Fields): int {
    var unit := if ChromaArrayType(f) == 0 then 1 else SubWidthC(ChromaArrayType(f));
    16 * (f.widthMbsMinus1 + 1) -
    if f.crop.None? then 0 else unit * (f.crop.value.left + f.crop.value.right)
  }

  function Height(f: Fields): int {
    var perUnit := 2 - f.frameMbsOnly as int;
    var unit := if ChromaArrayType(f) == 0 then perUnit else SubHeightC(ChromaArrayType(f)) * perUnit;
    16 * (perUnit * (f.heightUnitsMinus1 + 1)) -
    if f.crop.None? then 0 else unit * (f.crop.value.top + f.crop.value.bottom)
  }

  // ---------- Reading back, stage by stage ----------

  lemma HeadRoundTrip(f: Fields, rest: bits)
    requires f.profile < 256 && f.constraints < 256 && f.level < 256 && IsCode(f.id)
    ensures PHead(WriteHead(f, rest)) == Success(Parsed(Head(f.profile, f.level), rest))
  {
    hide PBits, PUe, EncUe, ToBits, Pow2;
    Pow2Of8();
    var s3 := EncUe(f.id) + rest;
    var s2 := ToBits(f.level, 8) + s3;
    var s1 := ToBits(f.constraints, 8) + s2;
    BitsOfToBits(f.profile, 8, s1);
    BitsOfToBits(f.constraints, 8, s2);
    BitsOfToBits(f.level, 8, s3);
    UeOfEncUe(f.id, rest);
  }

  lemma Pow2Of8()
    ensures Pow2(8) == 256
  {
    assert Pow2(4) == 16;
  }

  lemma {:induction false} StoppedList(s: bits, size: nat, last: int)
    ensures PScalingList(s, size, last, 0) == Success(Parsed((), s))
    decreases size
  {
    if size > 0 { StoppedList(s, size - 1, last); }
  }

  lemma {:induction false} EntriesRoundTrip(entries: seq<int>, size: nat, last: int, nxt: int, rest: bits)
    requires |entries| <= size && forall j :: 0 <= j < |entries| ==> 1 <= entries[j] <= 255
    requires 1 <= last <= 255 && nxt != 0
    ensures PScalingList(WriteEntries(entries, size, last, rest), size, last, nxt) == Success(Parsed((), rest))
    decreases size
  {
    hide PSe, EncSe;
    if size > 0 {
      if entries == [] {
        SeOfEncSe(Delta(last, 0), rest);
        StoppedList(rest, size - 1, last);
      } else {
        var v, tail := entries[0], WriteEntries(entries[1..], size - 1, entries[0], rest);
        SeOfEncSe(Delta(last, v), tail);
        EntriesRoundTrip(entries[1..], size - 1, v, v, rest);
      }
    }
  }

  lemma {:induction false} ListsRoundTrip(lists: seq<ScalingList>, i: nat, rest: bits)
    requires forall j :: 0 <= j < |lists| ==> LegalList(lists[j], Entries(j))
    ensures PScalingLists(WriteLists(lists, i, rest), i, |lists|) == Success(Parsed((), rest))
    decreases |lists| - i
  {
    hide PBit, PScalingList, WriteEntries, ListSize, Entries;
    if i < |lists| {
      TablesAgree(0);
      var tail := WriteLists(lists, i + 1, rest);
      ListsRoundTrip(lists, i + 1, rest);
      match lists[i]
      case Absent =>
        BitOfCons(0, tail);
      case Explicit(entries) =>
        BitOfCons(1, WriteEntries(entries, Entries(i), 8, tail));
        EntriesRoundTrip(entries, Entries(i), 8, 8, tail);
    }
  }

  lemma ChromaRoundTrip(f: Fields, rest: bits)
    requires HasHighFields(f.profile) ==> LegalHigh(f.high)
    ensures
      PChroma(WriteChroma(f, rest), f.profile) ==
      Success(Parsed(if HasHighFields(f.profile) then f.high.chroma else 1, rest))
  {
    hide PBit, PUe, EncUe, PScalingLists, WriteLists, IsHighProfile, HasHighFields;
    TablesAgree(f.profile);
    if HasHighFields(f.profile) {
      var h := f.high;
      var matrix := WriteMatrix(h.matrix, rest);
      var s2 := [h.bypass] + matrix;
      var s1 := EncUe(h.chromaDepth) + s2;
      var s0 := EncUe(h.lumaDepth) + s1;
      UeOfEncUe(h.chroma, if h.chroma == 3 then [h.separatePlanes] + s0 else s0);
      BitOfCons(h.separatePlanes, s0);
      UeOfEncUe(h.lumaDepth, s1);
      UeOfEncUe(h.chromaDepth, s2);
      BitOfCons(h.bypass, matrix);
      match h.matrix
      case None =>
        BitOfCons(0, rest);
      case Some(lists) =>
        BitOfCons(1, WriteLists(lists, 0, rest));
        ListsRoundTrip(lists, 0, rest);
    }
  }

  lemma {:induction false} SesRoundTrip(vs: seq<int>, rest: bits)
    requires forall j :: 0 <= j < |vs| ==> IsSigned(vs[j])
    ensures PSes(WriteSes(vs, rest), |vs|) == Success(Parsed((), rest))
  {
    hide PSe, EncSe;
    if vs != [] {
      SeOfEncSe(vs[0], WriteSes(vs[1..], rest));
      SesRoundTrip(vs[1..], rest);
    }
  }

  lemma PocRoundTrip(p: Poc, rest: bits)
    requires LegalPoc(p)
    ensures PPoc(WritePoc(p, rest)) == Success(Parsed((), rest))
  {
    hide PBit, PUe, EncUe, PSe, EncSe, PSes, WriteSes;
    match p
    case PocLsb(log2) =>
      UeOfEncUe(0, EncUe(log2) + rest);
      UeOfEncUe(log2, rest);
    case PocCycle(zero, a, b, offsets) =>
      var s4 := WriteSes(offsets, rest);
      var s3 := EncUe(|offsets|) + s4;
      var s2 := EncSe(b) + s3;
      var s1 := EncSe(a) + s2;
      UeOfEncUe(1, [zero] + s1);
      BitOfCons(zero, s1);
      SeOfEncSe(a, s2);
      SeOfEncSe(b, s3);
      UeOfEncUe(|offsets|, s4);
      SesRoundTrip(offsets, rest);
    case PocOutputOrder =>
      UeOfEncUe(2, rest);
  }

  lemma DimsRoundTrip(f: Fields, rest: bits)
    requires IsCode(f.maxRefFrames) && IsCode(f.widthMbsMinus1) && IsCode(f.heightUnitsMinus1)
    ensures
      PDims(WriteDims(f, rest)) ==
      Success(Parsed(Dims(f.widthMbsMinus1 + 1, f.heightUnitsMinus1 + 1, f.frameMbsOnly), rest))
  {
    hide PBit, PUe, EncUe;
    var s5 := [f.direct8x8] + rest;
    var s4 := if f.frameMbsOnly == 0 then [f.mbAdaptive] + s5 else s5;
    var s3 := [f.frameMbsOnly] + s4;
    var s2 := EncUe(f.heightUnitsMinus1) + s3;
    var s1 := EncUe(f.widthMbsMinus1) + s2;
    UeOfEncUe(f.maxRefFrames, [f.gapsAllowed] + s1);
    BitOfCons(f.gapsAllowed, s1);
    UeOfEncUe(f.widthMbsMinus1, s2);
    UeOfEncUe(f.heightUnitsMinus1, s3);
    BitOfCons(f.frameMbsOnly, s4);
    BitOfCons(f.mbAdaptive, s5);
    BitOfCons(f.direct8x8, rest);
  }

  lemma CropRoundTrip(c: Option<Crop>, rest: bits)
    requires LegalCrop(c)
    ensures PCrop(WriteCrop(c, rest)) == Success(Parsed(if c.Some? then c.value else Crop(0, 0, 0, 0), rest))
  {
    hide PBit, PUe, EncUe;
    match c
    case None =>
      BitOfCons(0, rest);
    case Some(Crop(l, r, t, b)) =>
      var s3 := EncUe(b) + rest;
      var s2 := EncUe(t) + s3;
      var s1 := EncUe(r) + s2;
      BitOfCons(1, EncUe(l) + s1);
      UeOfEncUe(l, s1);
      UeOfEncUe(r, s2);
      UeOfEncUe(t, s3);
      UeOfEncUe(b, rest);
  }

  /** On the level of bits: the fields come back, whatever VUI and trailing bits follow. */
  lemma BitsRoundTrip(f: Fields, rest: bits)
    requires Legal(f)
    ensures ParseBits(Write(f, rest)) == Success(SpsInfo(f.profile, f.level, Width(f), Height(f)))
  {
    hide PHead, PChroma, PPoc, PDims, PCrop, PUe;
    hide WriteHead, WriteChroma, WritePoc, WriteDims, WriteCrop, EncUe;
    var s4 := WriteCrop(f.crop, rest);
    var s3 := WriteDims(f, s4);
    var s2 := WritePoc(f.poc, s3);
    var s1 := EncUe(f.log2MaxFrameNumMinus4) + s2;
    HeadRoundTrip(f, WriteChroma(f, s1));
    ChromaRoundTrip(f, s1);
    UeOfEncUe(f.log2MaxFrameNumMinus4, s2);
    PocRoundTrip(f.poc, s3);
    DimsRoundTrip(f, s4);
    CropRoundTrip(f.crop, rest);
    SizesAgree(f);
  }

  lemma SizesAgree(f: Fields)
    requires Legal(f)
    ensures
      Finish(
        Head(f.profile, f.level), if HasHighFields(f.profile) then f.high.chroma else 1,
        Dims(f.widthMbsMinus1 + 1, f.heightUnitsMinus1 + 1, f.frameMbsOnly),
        if f.crop.Some? then f.crop.value else Crop(0, 0, 0, 0))
      == SpsInfo(f.profile, f.level, Width(f), Height(f))
  {
    hide HasHighFields;
  }

  /** The NAL unit: header byte, then the fields packed into bytes with emulation prevention. */
  function EncodeSps(header: byte, f: Fields, rest: bits): bytes
    requires |Write(f, rest)| % 8 == 0
  {
    [header] + Emulation.Insert(Pack(Write(f, rest)), 0)
  }

  /** What an encoder writes, `parse_sps` reads back, at the size the standard's equations give. */
  lemma SpsRoundTrip(header: byte, f: Fields, rest: bits)
    requires Legal(f) && |Write(f, rest)| % 8 == 0
    ensures
      ParseBits(BitsOf(Payload(EncodeSps(header, f, rest)))) ==
      Success(SpsInfo(f.profile, f.level, Width(f), Height(f)))
  {
    hide *;
    var packed := Pack(Write(f, rest));
    PayloadIs(header, Emulation.Insert(packed, 0));
    EncodeSpsIs(header, f, rest);
    Emulation.StripInsert(packed);
    BitsOfPack(Write(f, rest));
    BitsRoundTrip(f, rest);
  }

  lemma EncodeSpsIs(header: byte, f: Fields, rest: bits)
    requires |Write(f, rest)| % 8 == 0
    ensures EncodeSps(header, f, rest) == [header] + Emulation.Insert(Pack(Write(f, rest)), 0)
  {
  }

  lemma PayloadIs(header: byte, body: bytes)
    ensures Payload([header] + body) == Emulation.Strip(body)
  {
    hide Emulation.Strip;
    assert ([header] + body)[1..] == body;
  }
}
