/** The printers of `testing.py`: the frame header writer and the access-unit grouping of the simulator. */
module Simulator {
  import opened Bytes
  import opened AnnexB

  // ---------- Frame headers ----------

  /** The 24 bytes `frame_header` returns, field by field. */
  function HeaderBytes(seqNo: int, ts: int, keyframe: bool, payloadLen: int): (h: bytes)
    ensures |h| == 24
  {
    Le32(Word(seqNo)) + Le16(0x0063) + Le16(0x000c) + Le32(0) + Le32(Word(seqNo + 0x1000)) + Le32(Word(ts))
    + [if keyframe then 0x64 else 0x66] + [0] + Le16((payloadLen - 4) % 0x1_0000)
  }

  function Word(v: int): (w: int)
    ensures 0 <= w < 0x1_0000_0000
  {
    v % 0x1_0000_0000
  }

  function Zeros(n: nat): bytes {
    seq(n, i => 0)
  }

  /** `struct.pack_into` of one packed field. */
  method PackInto(hdr: array<byte>, offset: nat, field: bytes)
    requires offset + |field| <= hdr.Length
    modifies hdr
    ensures hdr[..] == old(hdr[..offset]) + field + old(hdr[offset + |field|..])
  {
    for k := 0 to |field|
      invariant hdr[..] == old(hdr[..offset]) + field[..k] + old(hdr[offset + k..])
    {
      hdr[offset + k] := field[k];
      assert field[..k + 1] == field[..k] + [field[k]];
    }
  }

  /** A field packed behind what is already there, into a buffer that is zero from there on. */
  method Append(hdr: array<byte>, ghost done: bytes, offset: nat, field: bytes)
    requires offset == |done| && offset + |field| <= hdr.Length
    requires hdr[..] == done + Zeros(hdr.Length - offset)
    modifies hdr
    ensures hdr[..] == (done + field) + Zeros(hdr.Length - offset - |field|)
  {
    PackInto(hdr, offset, field);
  }

  method FrameHeader(seqNo: int, ts: int, keyframe: bool, payloadLen: int) returns (h: bytes)
    ensures h == HeaderBytes(seqNo, ts, keyframe, payloadLen)
  {
    hide Le16, Le32, Zeros;
    var hdr := new byte[24](_ => 0);
    ghost var p: bytes := [];
    assert hdr[..] == p + Zeros(24) by { ZerosOf(hdr[..]); }
    Append(hdr, p, 0, Le32(Word(seqNo)));
    p := p + Le32(Word(seqNo));
    Append(hdr, p, 4, Le16(0x0063));
    p := p + Le16(0x0063);
    Append(hdr, p, 6, Le16(0x000c));
    p := p + Le16(0x000c);
    Append(hdr, p, 8, Le32(0));
    p := p + Le32(0);
    Append(hdr, p, 12, Le32(Word(seqNo + 0x1000)));
    p := p + Le32(Word(seqNo + 0x1000));
    Append(hdr, p, 16, Le32(Word(ts)));
    p := p + Le32(Word(ts));
    Append(hdr, p, 20, [if keyframe then 0x64 else 0x66]);
    p := p + [if keyframe then 0x64 else 0x66];
    ZerosStep(p, 2);
    p := p + [0];
    Append(hdr, p, 22, Le16((payloadLen - 4) % 0x1_0000));
    h := hdr[..];
    ZerosOf([]);
  }

  lemma ZerosStep(p: bytes, n: nat)
    ensures p + Zeros(n + 1) == (p + [0]) + Zeros(n)
  {
  }

  lemma ZerosOf(s: bytes)
    requires forall i :: 0 <= i < |s| ==> s[i] == 0
    ensures s == Zeros(|s|) && [] + s == s
  {
  }

  /** Where every field of the header is: little-endian, with the length short by 4 and cut to 16 bits. */
  lemma HeaderLayout(seqNo: int, ts: int, keyframe: bool, payloadLen: int)
    ensures
      var h := HeaderBytes(seqNo, ts, keyframe, payloadLen);
      && LittleEndian(h[0..4]) == seqNo % 0x1_0000_0000
      && h[4..8] == [0x63, 0, 0x0c, 0] && h[8..12] == [0, 0, 0, 0]
      && LittleEndian(h[12..16]) == (seqNo + 0x1000) % 0x1_0000_0000
      && LittleEndian(h[16..20]) == ts % 0x1_0000_0000
      && h[20..22] == [if keyframe then 0x64 else 0x66, 0]
      && LittleEndian(h[22..24]) == (payloadLen - 4) % 0x1_0000
  {
    hide LittleEndian, Word, Le16, Le32, HeaderBytes;
    ConstantFields();
    WordIs(seqNo);
    WordIs(seqNo + 0x1000);
    WordIs(ts);
    FieldsAreDigits(Word(seqNo));
    FieldsAreDigits(Word(seqNo + 0x1000));
    FieldsAreDigits(Word(ts));
    FieldsAreDigits((payloadLen - 4) % 0x1_0000);
    HeaderSlices(seqNo, ts, keyframe, payloadLen);
  }

  lemma ConstantFields()
    ensures Le16(0x0063) + Le16(0x000c) == [0x63, 0, 0x0c, 0] && Le32(0) == [0, 0, 0, 0]
  {
  }

  lemma HeaderSlices(seqNo: int, ts: int, keyframe: bool, payloadLen: int)
    ensures
      var h := HeaderBytes(seqNo, ts, keyframe, payloadLen);
      && h[0..4] == Le32(Word(seqNo)) && h[4..8] == Le16(0x0063) + Le16(0x000c) && h[8..12] == Le32(0)
      && h[12..16] == Le32(Word(seqNo + 0x1000)) && h[16..20] == Le32(Word(ts))
      && h[20..22] == [if keyframe then 0x64 else 0x66, 0] && h[22..24] == Le16((payloadLen - 4) % 0x1_0000)
  {
    hide Le16, Le32, Word;
  }

  lemma WordIs(v: int)
    ensures Word(v) == v % 0x1_0000_0000
  {
  }

  // ---------- Access units ----------

  datatype AccessUnit = AccessUnit(au: bytes, keyframe: bool)

  /** NALs grouped up to and including each VCL NAL; what follows the last one is dropped. */
  function Group(nals: seq<bytes>, pending: seq<bytes>): seq<seq<bytes>>
    decreases |nals|
  {
    if nals == [] then []
    else
      var group := pending + [nals[0]];
      if IsVcl(NalType(nals[0])) then [group] + Group(nals[1..], []) else Group(nals[1..], group)
  }

  function ToUnit(group: seq<bytes>): AccessUnit
    requires group != []
  {
    AccessUnit(Join(group), NalType(group[|group| - 1]) == NAL_IDR)
  }

  method SplitAccessUnits(annexb: bytes) returns (aus: seq<AccessUnit>)
    ensures
      var groups := Group(NalsOf(annexb), []);
      |aus| == |groups| && forall i :: 0 <= i < |aus| ==> groups[i] != [] && aus[i] == ToUnit(groups[i])
  {
    hide NalsOf, Join, NalType;
    aus := [];
    ghost var done: seq<seq<bytes>> := [];
    var pending: seq<bytes> := [];
    var nals := IterNals(annexb);
    Neutral(Group(nals, []));
    for i := 0 to |nals|
      invariant |aus| == |done| && forall k :: 0 <= k < |aus| ==> done[k] != [] && aus[k] == ToUnit(done[k])
      invariant done + Group(nals[i..], pending) == Group(nals, [])
    {
      assert nals[i..][1..] == nals[i + 1..];
      pending := pending + [nals[i]];
      var t := NalType(nals[i]);
      if IsVcl(t) {
        var au := Join(pending);
        Associative(done, [pending], Group(nals[i + 1..], []));
        aus := aus + [AccessUnit(au, t == NAL_IDR)];
        done := done + [pending];
        pending := [];
      }
    }
    Neutral(done);
  }

  // ---------- What a group is ----------

  /** Exactly one VCL NAL, in last place. */
  predicate OneVclLast(group: seq<bytes>) {
    && group != []
    && forall k :: 0 <= k < |group| ==> (IsVcl(NalType(group[k])) <==> k == |group| - 1)
  }

  /** The low five bits of the header byte say which kind of slice a NAL is: 1 to 5, and 5 for an IDR slice. */
  predicate SliceOf(nal: bytes, lo: int, hi: int) {
    nal != [] && lo <= nal[0] % 32 <= hi
  }

  /** The last NAL is a slice, and no other one is. */
  predicate OneSliceLast(group: seq<bytes>) {
    && group != []
    && forall k :: 0 <= k < |group| ==> (SliceOf(group[k], 1, 5) <==> k == |group| - 1)
  }

  lemma VclIsSlice(group: seq<bytes>)
    requires OneVclLast(group)
    ensures OneSliceLast(group)
  {
    forall k | 0 <= k < |group| ensures SliceOf(group[k], 1, 5) <==> IsVcl(NalType(group[k])) {
    }
  }

  function LastVcl(nals: seq<bytes>): (n: int)
    ensures -1 <= n < |nals|
    ensures n >= 0 ==> IsVcl(NalType(nals[n]))
    ensures forall k :: n < k < |nals| ==> !IsVcl(NalType(nals[k]))
  {
    if nals == [] then -1
    else if IsVcl(NalType(nals[|nals| - 1])) then |nals| - 1
    else LastVcl(nals[..|nals| - 1])
  }

  /** The last VCL NAL of a list is the last one of its tail, or else its head. */
  lemma LastVclStep(nals: seq<bytes>)
    requires nals != []
    ensures
      var m := LastVcl(nals[1..]);
      LastVcl(nals) == if m >= 0 then m + 1 else if IsVcl(NalType(nals[0])) then 0 else -1
  {
    hide NalType, IsVcl;
    var n, rest := LastVcl(nals), nals[1..];
    var m := LastVcl(rest);
    assert forall k :: 0 <= k < |rest| ==> nals[k + 1] == rest[k];
    if m >= 0 { assert nals[m + 1] == rest[m]; }
    if n > 0 { assert nals[n] == rest[n - 1]; }
  }

  lemma {:induction false} GroupsAreClosed(nals: seq<bytes>, pending: seq<bytes>)
    requires forall k :: 0 <= k < |pending| ==> !IsVcl(NalType(pending[k]))
    ensures forall i :: 0 <= i < |Group(nals, pending)| ==> OneVclLast(Group(nals, pending)[i])
    decreases |nals|
  {
    hide NalType, IsVcl;
    if nals != [] {
      var group, rest := pending + [nals[0]], nals[1..];
      if IsVcl(NalType(nals[0])) {
        GroupsAreClosed(rest, []);
        assert OneVclLast(group);
      } else {
        GroupsAreClosed(rest, group);
      }
    }
  }

  lemma {:induction false} GroupsPartition(nals: seq<bytes>, pending: seq<bytes>)
    ensures
      var n := LastVcl(nals);
      Flatten(Group(nals, pending)) == if n == -1 then [] else pending + nals[..n + 1]
    decreases |nals|
  {
    hide NalType, IsVcl, LastVcl, OneVclLast;
    if nals != [] {
      var group, rest := pending + [nals[0]], nals[1..];
      LastVclStep(nals);
      var n, m := LastVcl(nals), LastVcl(rest);
      if m >= 0 { SplitFront(nals, pending, m); } else if n == 0 { SplitFront(nals, pending, -1); }
      if IsVcl(NalType(nals[0])) {
        GroupsPartition(rest, []);
        FlattenCons(group, Group(rest, []));
        if m >= 0 { Neutral(rest[..m + 1]); } else { Neutral(group); }
      } else {
        GroupsPartition(rest, group);
      }
    } else {
      NoVcl(nals);
    }
  }

  lemma NoVcl(nals: seq<bytes>)
    requires nals == []
    ensures LastVcl(nals) == -1
  {
  }

  lemma SplitFront(nals: seq<bytes>, pending: seq<bytes>, m: int)
    requires nals != [] && -1 <= m < |nals| - 1
    ensures pending + nals[..m + 2] == (pending + [nals[0]]) + nals[1..][..m + 1]
    ensures m == -1 ==> pending + nals[..m + 2] == pending + [nals[0]]
  {
  }

  lemma FlattenCons(group: seq<bytes>, groups: seq<seq<bytes>>)
    ensures Flatten([group] + groups) == group + Flatten(groups)
  {
    SplitAppend([group], groups);
  }

  lemma {:induction false} GroupsFramable(nals: seq<bytes>, pending: seq<bytes>)
    requires Framable(pending + nals)
    ensures forall i :: 0 <= i < |Group(nals, pending)| ==> Framable(Group(nals, pending)[i])
    decreases |nals|
  {
    if nals != [] {
      var group, rest := pending + [nals[0]], nals[1..];
      var all := pending + nals;
      assert group + rest == all;
      FramablePart(all, 0, |group|);
      FramablePart(all, |group|, |all|);
      assert all[0..|group|] == group && all[|group|..|all|] == [] + rest;
      if IsVcl(NalType(nals[0])) {
        GroupsFramable(rest, []);
      } else {
        GroupsFramable(rest, group);
      }
    }
  }

  lemma FramablePart(nals: seq<bytes>, lo: nat, hi: nat)
    requires lo <= hi <= |nals| && Framable(nals)
    ensures Framable(nals[lo..hi])
  {
  }

  lemma KeyframeIsIdr(g: seq<bytes>)
    requires OneVclLast(g)
    ensures ToUnit(g).keyframe <==> SliceOf(g[|g| - 1], 5, 5)
    ensures ToUnit(g).keyframe <==> exists k :: 0 <= k < |g| && SliceOf(g[k], 5, 5)
  {
    VclIsSlice(g);
    if k :| 0 <= k < |g| && SliceOf(g[k], 5, 5) { assert SliceOf(g[k], 1, 5); }
  }

  lemma NoSliceBehind(nals: seq<bytes>)
    ensures forall k :: LastVcl(nals) < k < |nals| ==> !SliceOf(nals[k], 1, 5)
  {
    forall k | LastVcl(nals) < k < |nals| ensures !SliceOf(nals[k], 1, 5) {
      assert !IsVcl(NalType(nals[k]));
    }
  }

  /**
   The access units of any stream: they parse back to groups with exactly one slice, in last place; the groups
   together are the stream's NALs up to its last slice; and the keyframe flag says whether the unit holds an IDR
   slice at all.
   */
  lemma AccessUnitsReparse(s: bytes, groups: seq<seq<bytes>>)
    requires groups == Group(NalsOf(s), [])
    ensures Flatten(groups) <= NalsOf(s)
    ensures forall k :: |Flatten(groups)| <= k < |NalsOf(s)| ==> !SliceOf(NalsOf(s)[k], 1, 5)
    ensures forall i :: 0 <= i < |groups| ==>
      var g := groups[i];
      && OneSliceLast(g) && NalsOf(ToUnit(g).au) == g
      && (ToUnit(g).keyframe <==> SliceOf(g[|g| - 1], 5, 5))
      && (ToUnit(g).keyframe <==> exists k :: 0 <= k < |g| && SliceOf(g[k], 5, 5))
  {
    hide NalsOf, Join, NalType;
    var nals := NalsOf(s);
    NoSliceBehind(nals);
    NalsFramable(s);
    Neutral(nals);
    GroupsPartition(nals, []);
    GroupsAreClosed(nals, []);
    GroupsFramable(nals, []);
    Neutral(nals[..LastVcl(nals) + 1]);
    forall i | 0 <= i < |groups|
      ensures NalsOf(ToUnit(groups[i]).au) == groups[i]
      ensures OneSliceLast(groups[i])
      ensures ToUnit(groups[i]).keyframe <==> SliceOf(groups[i][|groups[i]| - 1], 5, 5)
      ensures ToUnit(groups[i]).keyframe <==> exists k :: 0 <= k < |groups[i]| && SliceOf(groups[i][k], 5, 5)
    {
      hide Group, Flatten;
      VclIsSlice(groups[i]);
      NalsOfJoin(groups[i]);
      KeyframeIsIdr(groups[i]);
    }
  }
}
