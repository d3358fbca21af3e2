/** What a receiver makes of the packetizer's output, and the laws of the packet stream. */
module RtpLaws {
  import opened Arithmetic
  import opened Bytes
  import opened AnnexB
  import opened Results
  import opened Rtp

  // ---------- The receiver ----------

  function Cons(nal: bytes, rest: Option<seq<bytes>>): Option<seq<bytes>> {
    if rest.None? then None else Some([nal] + rest.value)
  }

  /** `depacketize` on payloads, with the fragment unit under way; None is a failed assertion or index. */
  function Depacketize(payloads: seq<bytes>, fu: Option<bytes>): Option<seq<bytes>>
    decreases |payloads|
  {
    if payloads == [] then if fu == None then Some([]) else None
    else
      var p, rest := payloads[0], payloads[1..];
      if p == [] then None
      else if p[0] % 32 == FU_A then
        if |p| < 2 then None
        else
          var fu' := if p[1] >= 0x80 then Some([p[0] / 32 * 32 + p[1] % 32]) else fu;
          if fu' == None then None
          else
            var nal := fu'.value + p[2..];
            if p[1] / 64 % 2 == 1 then Cons(nal, Depacketize(rest, None)) else Depacketize(rest, Some(nal))
      else Cons(p, Depacketize(rest, fu))
  }

  function NonEmptyNals(nals: seq<bytes>): seq<bytes> {
    if nals == [] then [] else NonEmpty(nals[0]) + NonEmptyNals(nals[1..])
  }

  function Payloads(loads: seq<Load>): seq<bytes>
    decreases |loads|
  {
    if loads == [] then [] else [loads[0].payload] + Payloads(loads[1..])
  }

  function Prepend(nals: seq<bytes>, rest: Option<seq<bytes>>): Option<seq<bytes>> {
    if rest.None? then None else Some(nals + rest.value)
  }

  lemma DepacketizeStep(p: bytes, rest: seq<bytes>, fu: Option<bytes>)
    requires p != []
    ensures
      Depacketize([p] + rest, fu) ==
      if p[0] % 32 != FU_A then Cons(p, Depacketize(rest, fu))
      else if |p| < 2 then None
      else
        var fu' := if p[1] >= 0x80 then Some([p[0] / 32 * 32 + p[1] % 32]) else fu;
        if fu' == None then None
        else
          var nal := fu'.value + p[2..];
          if p[1] / 64 % 2 == 1 then Cons(nal, Depacketize(rest, None)) else Depacketize(rest, Some(nal))
  {
    SplitAppend([p], rest);
  }

  // ---------- Reassembly ----------

  /** The bits of the FU bytes, and the NAL header rebuilt from them. */
  lemma FuBits(header: byte, start: bool, end: bool)
    ensures Indicator(header) % 32 == FU_A
    ensures FuHeader(start, end, header) >= 0x80 <==> start
    ensures FuHeader(start, end, header) / 64 % 2 == 1 <==> end
    ensures Indicator(header) / 32 * 32 + FuHeader(start, end, header) % 32 == header
  {
  }

  lemma PieceStep(header: byte, start: bool, end: bool, data: bytes, rest: seq<bytes>, fu: Option<bytes>)
    requires start || fu.Some?
    ensures
      var nal := (if start then [header] else fu.value) + data;
      Depacketize([Piece(header, start, end, data)] + rest, fu) ==
      if end then Cons(nal, Depacketize(rest, None)) else Depacketize(rest, Some(nal))
  {
    hide Indicator, FuHeader, Depacketize, Cons;
    FuBits(header, start, end);
    var p := Piece(header, start, end, data);
    DepacketizeStep(p, rest, fu);
    assert p[2..] == data;
  }

  lemma {:induction false} FragmentsReassemble(
      header: byte, body: bytes, chunk: nat, start: bool, rest: seq<bytes>, fu: Option<bytes>)
    requires chunk > 0 && body != [] && (start || fu.Some?)
    ensures
      Depacketize(Fragments(header, body, chunk, start) + rest, fu) ==
      Cons((if start then [header] else fu.value) + body, Depacketize(rest, None))
    decreases |body|
  {
    hide Depacketize, Cons, Piece;
    var acc := if start then [header] else fu.value;
    if |body| <= chunk {
      PieceStep(header, start, true, body, rest, fu);
    } else {
      var data, more := body[..chunk], body[chunk..];
      var tail := Fragments(header, more, chunk, false);
      Associative([Piece(header, start, false, data)], tail, rest);
      PieceStep(header, start, false, data, tail + rest, fu);
      FragmentsReassemble(header, more, chunk, false, rest, Some(acc + data));
      Associative(acc, data, more);
      assert data + more == body;
    }
  }

  /** What the receiver can tell: nothing that fits looks like a fragment, and nothing long is cut by a step below 1. */
  predicate Carries(nal: bytes, mtu: int) {
    nal != [] ==> if |nal| <= mtu then nal[0] % 32 != FU_A else mtu >= 3
  }

  lemma NalReassembles(nal: bytes, mtu: int, rest: seq<bytes>)
    requires Carries(nal, mtu)
    ensures PayloadsOf(nal, mtu).Some?
    ensures
      Depacketize(PayloadsOf(nal, mtu).value + rest, None) == Prepend(NonEmpty(nal), Depacketize(rest, None))
  {
    hide Depacketize, Fragments;
    if nal == [] {
      Neutral(rest);
      if Depacketize(rest, None).Some? { Neutral(Depacketize(rest, None).value); }
    } else if |nal| <= mtu {
      DepacketizeStep(nal, rest, None);
    } else {
      FragmentsReassemble(nal[0], nal[1..], mtu - 2, true, rest, None);
      assert [nal[0]] + nal[1..] == nal;
    }
  }

  lemma {:induction false} PayloadsAppend(a: seq<Load>, b: seq<Load>)
    ensures Payloads(a + b) == Payloads(a) + Payloads(b)
    decreases |a|
  {
    if a == [] {
      Neutral(b);
      Neutral(Payloads(b));
    } else {
      SliceOfAppend(a, b, 1, 1);
      PayloadsAppend(a[1..], b);
      Associative([a[0].payload], Payloads(a[1..]), Payloads(b));
    }
  }

  lemma {:induction false} PayloadsOfMark(ps: seq<bytes>, last: bool)
    ensures Payloads(Mark(ps, last)) == ps
    decreases |ps|
  {
    if ps != [] {
      PayloadsOfMark(ps[1..], last);
      SplitAppend([Load(ps[0], last && |ps| == 1)], Mark(ps[1..], last));
    }
  }

  lemma LoadsOfCons(nals: seq<bytes>, mtu: int)
    requires nals != [] && PayloadsOf(nals[0], mtu).Some?
    ensures
      var rest := LoadsOf(nals[1..], mtu);
      && LoadsOf(nals, mtu).ok == rest.ok
      && Payloads(LoadsOf(nals, mtu).done) == PayloadsOf(nals[0], mtu).value + Payloads(rest.done)
  {
    hide PayloadsOf, Payloads, Mark;
    var ps, rest := PayloadsOf(nals[0], mtu).value, LoadsOf(nals[1..], mtu);
    PayloadsAppend(Mark(ps, |nals| == 1), rest.done);
    PayloadsOfMark(ps, |nals| == 1);
  }

  /** Depacketizing a call's payloads gives its NALs, and leaves the receiver ready for what follows. */
  lemma {:induction false} CallReassembles(nals: seq<bytes>, mtu: int, rest: seq<bytes>)
    requires forall k :: 0 <= k < |nals| ==> Carries(nals[k], mtu)
    ensures LoadsOf(nals, mtu).ok
    ensures
      Depacketize(Payloads(LoadsOf(nals, mtu).done) + rest, None) ==
      Prepend(NonEmptyNals(nals), Depacketize(rest, None))
    decreases |nals|
  {
    hide Depacketize, PayloadsOf, Carries, NonEmpty;
    if nals == [] {
      Neutral(rest);
      if Depacketize(rest, None).Some? { Neutral(Depacketize(rest, None).value); }
    } else {
      var tail := LoadsOf(nals[1..], mtu);
      NalReassembles(nals[0], mtu, Payloads(tail.done) + rest);
      LoadsOfCons(nals, mtu);
      Associative(PayloadsOf(nals[0], mtu).value, Payloads(tail.done), rest);
      CallReassembles(nals[1..], mtu, rest);
      if Depacketize(rest, None).Some? {
        Associative(NonEmpty(nals[0]), NonEmptyNals(nals[1..]), Depacketize(rest, None).value);
      }
    }
  }

  // ---------- The exact condition ----------

  function Size(nals: seq<bytes>): nat
    decreases |nals|
  {
    if nals == [] then 0 else |nals[0]| + Size(nals[1..])
  }

  /** How many bytes of NAL a payload can turn into. */
  function Weight(p: bytes): int {
    if p == [] || p[0] % 32 != FU_A then |p|
    else if |p| >= 2 && p[1] >= 0x80 then |p| - 1
    else |p| - 2
  }

  function Weights(ps: seq<bytes>): int
    decreases |ps|
  {
    if ps == [] then 0 else Weight(ps[0]) + Weights(ps[1..])
  }

  lemma SizeCons(nal: bytes, nals: seq<bytes>)
    ensures Size([nal] + nals) == |nal| + Size(nals)
  {
    SplitAppend([nal], nals);
  }

  lemma {:induction false} DepacketizeSize(ps: seq<bytes>, fu: Option<bytes>)
    requires Depacketize(ps, fu).Some?
    ensures Size(Depacketize(ps, fu).value) <= (if fu.Some? then |fu.value| else 0) + Weights(ps)
    decreases |ps|
  {
    if ps != [] {
      var p, rest := ps[0], ps[1..];
      assert [p] + rest == ps;
      DepacketizeStep(p, rest, fu);
      hide Depacketize;
      if p[0] % 32 != FU_A {
        DepacketizeSize(rest, fu);
        SizeCons(p, Depacketize(rest, fu).value);
      } else {
        var fu' := if p[1] >= 0x80 then Some([p[0] / 32 * 32 + p[1] % 32]) else fu;
        var nal := fu'.value + p[2..];
        if p[1] / 64 % 2 == 1 {
          DepacketizeSize(rest, None);
          SizeCons(nal, Depacketize(rest, None).value);
        } else {
          DepacketizeSize(rest, Some(nal));
        }
      }
    }
  }

  lemma {:induction false} WeightsAppend(a: seq<bytes>, b: seq<bytes>)
    ensures Weights(a + b) == Weights(a) + Weights(b)
    decreases |a|
  {
    if a == [] {
      Neutral(b);
    } else {
      hide Weight;
      SliceOfAppend(a, b, 1, 1);
      WeightsAppend(a[1..], b);
    }
  }

  lemma {:induction false} FragmentsWeigh(header: byte, body: bytes, chunk: nat, start: bool)
    requires chunk > 0 && body != []
    ensures Weights(Fragments(header, body, chunk, start)) == |body| + if start then 1 else 0
    decreases |body|
  {
    var end := |body| <= chunk;
    var data := if end then body else body[..chunk];
    FuBits(header, start, end);
    PieceWeighs(header, start, end, data);
    hide Weight, Piece;
    if !end {
      var tail := Fragments(header, body[chunk..], chunk, false);
      FragmentsWeigh(header, body[chunk..], chunk, false);
      SplitAppend([Piece(header, start, false, data)], tail);
    }
  }

  lemma PieceWeighs(header: byte, start: bool, end: bool, data: bytes)
    ensures Weight(Piece(header, start, end, data)) == |data| + if start then 1 else 0
  {
    hide Indicator, FuHeader;
    FuBits(header, start, end);
  }

  lemma NalWeighs(nal: bytes, mtu: int)
    requires PayloadsOf(nal, mtu).Some?
    ensures Weights(PayloadsOf(nal, mtu).value) <= |nal|
    ensures !Carries(nal, mtu) ==> Weights(PayloadsOf(nal, mtu).value) < |nal|
  {
    hide Fragments;
    if nal != [] {
      if |nal| <= mtu {
        assert [nal][1..] == [];
      } else if mtu >= 3 {
        FragmentsWeigh(nal[0], nal[1..], mtu - 2, true);
      }
    }
  }

  lemma {:induction false} CallWeighs(nals: seq<bytes>, mtu: int)
    requires LoadsOf(nals, mtu).ok
    ensures Weights(Payloads(LoadsOf(nals, mtu).done)) <= Size(nals)
    ensures (exists k :: 0 <= k < |nals| && !Carries(nals[k], mtu)) ==>
      Weights(Payloads(LoadsOf(nals, mtu).done)) < Size(nals)
    decreases |nals|
  {
    hide PayloadsOf, Carries, Weight;
    if nals != [] {
      NalWeighs(nals[0], mtu);
      LoadsOfCons(nals, mtu);
      WeightsAppend(PayloadsOf(nals[0], mtu).value, Payloads(LoadsOf(nals[1..], mtu).done));
      CallWeighs(nals[1..], mtu);
      if k :| 0 <= k < |nals| && !Carries(nals[k], mtu) {
        if k > 0 { assert nals[1..][k - 1] == nals[k]; }
      }
    }
  }

  lemma {:induction false} SizeOfNonEmpty(nals: seq<bytes>)
    ensures Size(NonEmptyNals(nals)) == Size(nals)
    decreases |nals|
  {
    if nals != [] {
      SizeOfNonEmpty(nals[1..]);
      if nals[0] != [] { SizeCons(nals[0], NonEmptyNals(nals[1..])); } else { Neutral(NonEmptyNals(nals[1..])); }
    }
  }

  /**
   A receiver gets back exactly the non-empty NALs of a call if and only if none that fits the MTU has
   type 28 and none longer than the MTU meets an MTU below 3.
   */
  lemma RoundTripIff(nals: seq<bytes>, mtu: int)
    ensures
      LoadsOf(nals, mtu).ok &&
      Depacketize(Payloads(LoadsOf(nals, mtu).done), None) == Some(NonEmptyNals(nals))
      <==> forall k :: 0 <= k < |nals| ==> Carries(nals[k], mtu)
  {
    hide LoadsOf, Carries, NonEmptyNals, Payloads;
    var ps := Payloads(LoadsOf(nals, mtu).done);
    if forall k :: 0 <= k < |nals| ==> Carries(nals[k], mtu) {
      CallReassembles(nals, mtu, []);
      Neutral(ps);
      Neutral(NonEmptyNals(nals));
    } else if LoadsOf(nals, mtu).ok && Depacketize(ps, None).Some? {
      CallWeighs(nals, mtu);
      DepacketizeSize(ps, None);
      SizeOfNonEmpty(nals);
    }
  }

  /** An input that fails: a NAL of type 28 that fits is sent as it is, and taken for a fragment. */
  lemma TypeFuAIsLost(nal: bytes, mtu: int)
    requires 0 < |nal| <= mtu && nal[0] % 32 == FU_A
    ensures LoadsOf([nal], mtu).ok && Payloads(LoadsOf([nal], mtu).done) == [nal]
    ensures Depacketize([nal], None) != Some([nal])
  {
    assert LoadsOf([], mtu) == Loads([], true);
    assert Mark([nal], true) == [Load(nal, true)];
    assert LoadsOf([nal], mtu).done == [Load(nal, true)];
    assert Payloads([Load(nal, true)]) == [nal] + Payloads([]);
    RoundTripIff([nal], mtu);
    assert !Carries([nal][0], mtu);
    assert NonEmptyNals([nal]) == [nal] + [];
  }

  /** Two more: with an MTU of 2 a longer NAL is an error, and with one of 1 or less it is sent as nothing. */
  lemma TinyMtu(nal: bytes, mtu: int)
    requires nal != [] && |nal| > mtu
    ensures mtu == 2 ==> !LoadsOf([nal], mtu).ok
    ensures mtu < 2 ==> LoadsOf([nal], mtu) == Loads([], true)
  {
    assert LoadsOf([], mtu) == Loads([], true);
  }

  // ---------- Packet-stream laws ----------

  function CeilDiv(n: nat, d: nat): nat
    requires d > 0
  {
    (n + d - 1) / d
  }

  lemma CeilDivStep(n: nat, d: nat)
    requires d > 0
    ensures 0 < n <= d ==> CeilDiv(n, d) == 1
    ensures n > d ==> CeilDiv(n, d) == 1 + CeilDiv(n - d, d)
  {
    if 0 < n <= d {
      DivUnique(n + d - 1, d, 1, n - 1);
    }
    if n > d {
      var q, r := Quotient(n - 1, d);
      assert d * (q + 1) == d * q + d;
      DivUnique(n + d - 1, d, q + 1, r);
    }
  }

  predicate StartBit(p: bytes) {
    |p| >= 2 && p[1] >= 0x80
  }

  predicate EndBit(p: bytes) {
    |p| >= 2 && p[1] / 64 % 2 == 1
  }

  /** Fragments: how many, how long, and where the start and end bits are. */
  lemma {:induction false} FragmentLaws(header: byte, body: bytes, chunk: nat, start: bool)
    requires chunk > 0 && body != []
    ensures
      var fs := Fragments(header, body, chunk, start);
      |fs| == CeilDiv(|body|, chunk) > 0 &&
      forall k :: 0 <= k < |fs| ==>
        && 2 < |fs[k]| <= chunk + 2
        && (StartBit(fs[k]) <==> start && k == 0)
        && (EndBit(fs[k]) <==> k == |fs| - 1)
    decreases |body|
  {
    hide Indicator, FuHeader, CeilDiv;
    CeilDivStep(|body|, chunk);
    FuBits(header, start, |body| <= chunk);
    if |body| > chunk {
      var tail := Fragments(header, body[chunk..], chunk, false);
      FragmentLaws(header, body[chunk..], chunk, false);
      var fs := Fragments(header, body, chunk, start);
      assert forall k :: 0 < k < |fs| ==> fs[k] == tail[k - 1];
    }
  }

  /** A NAL longer than the MTU: ceil((L-1)/(mtu-2)) fragments, at least two, so none has both bits. */
  lemma LongNalLaws(nal: bytes, mtu: int)
    requires mtu >= 3 && |nal| > mtu
    ensures PayloadsOf(nal, mtu).Some?
    ensures
      var fs := PayloadsOf(nal, mtu).value;
      && |fs| == CeilDiv(|nal| - 1, mtu - 2) >= 2
      && forall k :: 0 <= k < |fs| ==>
           && |fs[k]| <= mtu && (StartBit(fs[k]) <==> k == 0) && (EndBit(fs[k]) <==> k == |fs| - 1)
           && !(StartBit(fs[k]) && EndBit(fs[k]))
  {
    hide CeilDiv, StartBit, EndBit, Fragments;
    FragmentLaws(nal[0], nal[1..], mtu - 2, true);
    CeilDivStep(|nal| - 1, mtu - 2);
    CeilDivStep(|nal| - 1 - (mtu - 2), mtu - 2);
  }

  lemma {:induction false} MarkLaws(ps: seq<bytes>, last: bool)
    ensures
      var ls := Mark(ps, last);
      |ls| == |ps| && forall k :: 0 <= k < |ls| ==> ls[k] == Load(ps[k], last && k == |ps| - 1)
    decreases |ps|
  {
    if ps != [] {
      MarkLaws(ps[1..], last);
      var tail := Mark(ps[1..], last);
      assert forall k :: 0 < k < |ps| ==> Mark(ps, last)[k] == tail[k - 1];
    }
  }

  /** A NAL is there, and the last one is not empty. */
  predicate EndsInNal(nals: seq<bytes>) {
    nals != [] && nals[|nals| - 1] != []
  }

  /** Payloads within the MTU, and a marker on exactly the last one, if the list ends in a NAL. */
  predicate WellMarked(loads: seq<Load>, nals: seq<bytes>, mtu: int) {
    && (EndsInNal(nals) ==> loads != [])
    && forall k :: 0 <= k < |loads| ==>
         0 < |loads[k].payload| <= mtu && (loads[k].marker <==> EndsInNal(nals) && k == |loads| - 1)
  }

  lemma OneMoreNal(ps: seq<bytes>, rest: seq<Load>, nals: seq<bytes>, mtu: int)
    requires nals != [] && WellMarked(rest, nals[1..], mtu)
    requires (nals[0] == [] <==> ps == []) && forall k :: 0 <= k < |ps| ==> 0 < |ps[k]| <= mtu
    requires |nals| == 1 ==> rest == []
    ensures WellMarked(Mark(ps, |nals| == 1) + rest, nals, mtu)
  {
    hide Mark;
    MarkLaws(ps, |nals| == 1);
    if |nals| > 1 { assert nals[1..][|nals| - 2] == nals[|nals| - 1]; }
  }

  lemma PayloadSizes(nal: bytes, mtu: int)
    requires mtu >= 3
    ensures PayloadsOf(nal, mtu).Some? && (nal == [] <==> PayloadsOf(nal, mtu).value == [])
    ensures
      var ps := PayloadsOf(nal, mtu).value;
      forall k :: 0 <= k < |ps| ==> 0 < |ps[k]| <= mtu
  {
    hide Fragments, CeilDiv, StartBit, EndBit;
    if |nal| > mtu { FragmentLaws(nal[0], nal[1..], mtu - 2, true); }
  }

  /**
   Payloads stay within the MTU, and the marker is on exactly the last packet of the access unit; a list that ends in
   an empty NAL is sent without one.
   */
  lemma {:induction false} CallLaws(nals: seq<bytes>, mtu: int)
    requires mtu >= 3
    ensures LoadsOf(nals, mtu).ok && WellMarked(LoadsOf(nals, mtu).done, nals, mtu)
    decreases |nals|
  {
    hide PayloadsOf, Mark, WellMarked;
    if nals == [] {
      NothingMarked(mtu);
    } else {
      CallLaws(nals[1..], mtu);
      PayloadSizes(nals[0], mtu);
      OneMoreNal(PayloadsOf(nals[0], mtu).value, LoadsOf(nals[1..], mtu).done, nals, mtu);
    }
  }

  lemma NothingMarked(mtu: int)
    ensures WellMarked([], [], mtu)
  {
  }

  // ---------- Sequences of calls ----------

  datatype Call = Call(nals: seq<bytes>, ts: int)

  function SeqAfter(seqNo: nat, c: Call, mtu: int): nat {
    (seqNo + |LoadsOf(c.nals, mtu).done|) % 0x1_0000
  }

  /** The packets of successive calls, each starting from the number the one before left behind. */
  function Session(pt: int, ssrc: int, mtu: int, calls: seq<Call>, seqNo: nat): seq<Packet>
    decreases |calls|
  {
    if calls == [] then []
    else
      PacketsFrom(Stamp(pt, ssrc, calls[0].ts), LoadsOf(calls[0].nals, mtu).done, seqNo)
      + Session(pt, ssrc, mtu, calls[1..], SeqAfter(seqNo, calls[0], mtu))
  }

  /** Packet `k` carries the number `seqNo + k` modulo 2^16. */
  predicate Consecutive(ps: seq<Packet>, seqNo: nat) {
    forall k :: 0 <= k < |ps| ==> ps[k].seqNo == (seqNo + k) % 0x1_0000
  }

  /** Sequence numbers are consecutive modulo 2^16 across calls. */
  lemma {:induction false} SessionNumbers(pt: int, ssrc: int, mtu: int, calls: seq<Call>, seqNo: nat)
    ensures Consecutive(Session(pt, ssrc, mtu, calls, seqNo), seqNo)
    decreases |calls|
  {
    if calls != [] {
      var next := SeqAfter(seqNo, calls[0], mtu);
      SessionNumbers(pt, ssrc, mtu, calls[1..], next);
      var first := PacketsFrom(Stamp(pt, ssrc, calls[0].ts), LoadsOf(calls[0].nals, mtu).done, seqNo);
      AppendNumbers(first, Session(pt, ssrc, mtu, calls[1..], next), seqNo);
    }
  }

  lemma AppendNumbers(first: seq<Packet>, rest: seq<Packet>, seqNo: nat)
    requires Consecutive(first, seqNo) && Consecutive(rest, (seqNo + |first|) % 0x1_0000)
    ensures Consecutive(first + rest, seqNo)
  {
    forall k | |first| <= k < |first + rest|
      ensures (first + rest)[k].seqNo == (seqNo + k) % 0x1_0000
    {
      ModAdd(seqNo + |first|, k - |first|, 0x1_0000);
      assert (first + rest)[k] == rest[k - |first|];
    }
  }

  // ---------- Interleaved framing ----------

  /** `b"$" + ch + len(pkt).to_bytes(2) + pkt` for all packets; None is the OverflowError of a length. */
  function Interleave(ch: byte, pkts: seq<bytes>): Option<bytes>
    decreases |pkts|
  {
    if pkts == [] then Some([])
    else if |pkts[0]| >= 0x1_0000 then None
    else
      match Interleave(ch, pkts[1..])
      case None => None
      case Some(rest) => Some([0x24, ch] + (Be16(|pkts[0]|) + (pkts[0] + rest)))
  }

  /** The client's side: `$` frames one after the other; None is anything else, or a frame cut short. */
  function Demux(s: bytes): Option<seq<(byte, bytes)>>
    decreases |s|
  {
    if s == [] then Some([])
    else if |s| < 4 || s[0] != 0x24 then None
    else
      var n := ReadBe16(s[2..4]);
      if |s| < 4 + n then None
      else
        match Demux(s[4 + n..])
        case None => None
        case Some(rest) => Some([(s[1], s[4..4 + n])] + rest)
  }

  function OnChannel(ch: byte, pkts: seq<bytes>): seq<(byte, bytes)> {
    seq(|pkts|, k requires 0 <= k < |pkts| => (ch, pkts[k]))
  }

  /** Demultiplexing gives back the packets, and a blob is written if and only if every length fits 16 bits. */
  lemma {:induction false} DemuxOfInterleave(ch: byte, pkts: seq<bytes>)
    ensures Interleave(ch, pkts).Some? <==> forall k :: 0 <= k < |pkts| ==> |pkts[k]| < 0x1_0000
    ensures Interleave(ch, pkts).Some? ==> Demux(Interleave(ch, pkts).value) == Some(OnChannel(ch, pkts))
    decreases |pkts|
  {
    if pkts == [] {
      assert OnChannel(ch, pkts) == [];
    } else {
      DemuxOfInterleave(ch, pkts[1..]);
      if Interleave(ch, pkts).Some? {
        var rest := Interleave(ch, pkts[1..]).value;
        DemuxStep(ch, pkts[0], rest);
        assert OnChannel(ch, pkts) == [(ch, pkts[0])] + OnChannel(ch, pkts[1..]);
      }
    }
  }

  lemma DemuxStep(ch: byte, pkt: bytes, rest: bytes)
    requires |pkt| < 0x1_0000 && Demux(rest).Some?
    ensures Demux([0x24, ch] + (Be16(|pkt|) + (pkt + rest))) == Some([(ch, pkt)] + Demux(rest).value)
  {
    hide *;
    var s := [0x24, ch] + (Be16(|pkt|) + (pkt + rest));
    FieldsRoundTrip(|pkt|);
    FrameSlices(ch, Be16(|pkt|), pkt, rest);
    DemuxIs(s);
  }

  lemma FrameSlices(ch: byte, length: bytes, pkt: bytes, rest: bytes)
    requires |length| == 2
    ensures
      var s := [0x24, ch] + (length + (pkt + rest));
      && |s| == 4 + |pkt| + |rest| && s[0] == 0x24 && s[1] == ch && s[2..4] == length
      && s[4..4 + |pkt|] == pkt && s[4 + |pkt|..] == rest
  {
    var s := [0x24, ch] + (length + (pkt + rest));
    assert s == ([0x24, ch] + length) + (pkt + rest);
    SplitAppend([0x24, ch] + length, pkt + rest);
    SliceOfSuffix(s, 4, 0, |pkt|);
    SliceOfSuffix(s, 4, |pkt|, |pkt|);
    SplitAppend(pkt, rest);
  }

  lemma DemuxIs(s: bytes)
    requires |s| >= 4 && s[0] == 0x24 && |s| >= 4 + ReadBe16(s[2..4])
    ensures
      var n := ReadBe16(s[2..4]);
      Demux(s) ==
      match Demux(s[4 + n..])
      case None => None
      case Some(rest) => Some([(s[1], s[4..4 + n])] + rest)
  {
  }
}
