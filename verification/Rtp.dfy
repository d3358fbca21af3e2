/**
 RTP packetization of H.264: `H264Packetizer`, its inverse `depacketize`, and the interleaved framing
 of the RTSP connection. RFC 6184 sections 5.1, 5.6 and 5.8, RFC 3550 section 5.1, RFC 2326 section 10.12.
 */
module Rtp {
  import opened Bytes
  import opened AnnexB
  import opened Results

  const FU_A: int := 28

  // ---------- Payloads ----------

  /** FU indicator: the NAL header with its type replaced by 28. */
  function Indicator(header: byte): byte {
    header / 32 * 32 + FU_A
  }

  /** FU header: start bit, end bit, and the NAL type. */
  function FuHeader(start: bool, end: bool, header: byte): byte {
    (if start then 0x80 else 0) + (if end then 0x40 else 0) + header % 32
  }

  function Piece(header: byte, start: bool, end: bool, data: bytes): bytes {
    [Indicator(header), FuHeader(start, end, header)] + data
  }

  /** The fragments of a NAL body, `chunk` bytes each but the last. */
  function Fragments(header: byte, body: bytes, chunk: nat, start: bool): seq<bytes>
    requires chunk > 0
    decreases |body|
  {
    if body == [] then []
    else if |body| <= chunk then [Piece(header, start, true, body)]
    else [Piece(header, start, false, body[..chunk])] + Fragments(header, body[chunk..], chunk, false)
  }

  /**
   What becomes of one NAL; None is the ValueError of a fragment step of 0. With a negative step the
   fragment loop runs no round at all.
   */
  function PayloadsOf(nal: bytes, mtu: int): Option<seq<bytes>> {
    if nal == [] then Some([])
    else if |nal| <= mtu then Some([nal])
    else if mtu == 2 then None
    else if mtu < 2 then Some([])
    else Some(Fragments(nal[0], nal[1..], mtu - 2, true))
  }

  // ---------- Packets ----------

  datatype Packet = Packet(marker: bool, pt: int, seqNo: int, ts: int, ssrc: int, payload: bytes)

  predicate Valid(p: Packet) {
    0 <= p.pt < 128 && 0 <= p.seqNo < 0x1_0000 && 0 <= p.ts < 0x1_0000_0000 && 0 <= p.ssrc < 0x1_0000_0000
  }

  /** The wire form of a packet: version 2, no padding, no extension, no CSRC. */
  function Wire(p: Packet): (w: bytes)
    requires Valid(p)
    ensures |w| == 12 + |p.payload|
  {
    [0x80, (if p.marker then 0x80 else 0) + p.pt] + (Be16(p.seqNo) + (Be32(p.ts) + (Be32(p.ssrc) + p.payload)))
  }

  /** `parse_rtp`; None is a failed assertion on the first byte, or a packet too short to unpack. */
  function Parse(w: bytes): Option<Packet> {
    if |w| < 12 || w[0] / 64 != 2 || w[0] / 32 % 2 != 0 || w[0] % 16 != 0 then None
    else
      Some(Packet(w[1] >= 128, w[1] % 128, ReadBe16(w[2..4]), ReadBe32(w[4..8]), ReadBe32(w[8..12]), w[12..]))
  }

  lemma ParseOfWire(p: Packet)
    requires Valid(p)
    ensures Parse(Wire(p)) == Some(p)
  {
    hide Be16, Be32, ReadBe16, ReadBe32;
    var w := Wire(p);
    FieldsRoundTrip(p.seqNo);
    FieldsRoundTrip(p.ts);
    FieldsRoundTrip(p.ssrc);
    assert w[2..4] == Be16(p.seqNo);
    assert w[4..8] == Be32(p.ts);
    assert w[8..12] == Be32(p.ssrc);
    assert w[12..] == p.payload;
  }

  // ---------- One access unit ----------

  /** A payload with the marker bit of its packet. */
  datatype Load = Load(payload: bytes, marker: bool)

  /** Everything one call emits; `ok` is false if it ends in the ValueError. */
  datatype Loads = Loads(done: seq<Load>, ok: bool)

  /** The payloads of one NAL; only the last one of the last NAL is marked. */
  function Mark(payloads: seq<bytes>, last: bool): seq<Load>
    decreases |payloads|
  {
    if payloads == [] then []
    else [Load(payloads[0], last && |payloads| == 1)] + Mark(payloads[1..], last)
  }

  function LoadsOf(nals: seq<bytes>, mtu: int): Loads
    decreases |nals|
  {
    if nals == [] then Loads([], true)
    else
      match PayloadsOf(nals[0], mtu)
      case None => Loads([], false)
      case Some(ps) =>
        var rest := LoadsOf(nals[1..], mtu);
        Loads(Mark(ps, |nals| == 1) + rest.done, rest.ok)
  }

  /** The settings of a packetizer, and the time stamp of a call. */
  datatype Stamp = Stamp(pt: int, ssrc: int, ts: int)
  {
    predicate Ok() {
      0 <= pt < 128 && 0 <= ssrc < 0x1_0000_0000
    }

    function PacketOf(l: Load, seqNo: nat): Packet
    {
      Packet(l.marker, pt, seqNo % 0x1_0000, ts % 0x1_0000_0000, ssrc, l.payload)
    }
  }

  /** The packets of a list of loads, numbered from `seqNo`. */
  function PacketsFrom(s: Stamp, loads: seq<Load>, seqNo: nat): (ps: seq<Packet>)
    ensures |ps| == |loads|
  {
    seq(|loads|, k requires 0 <= k < |loads| => s.PacketOf(loads[k], seqNo + k))
  }

  function WireAll(ps: seq<Packet>): (ws: seq<bytes>)
    requires forall p :: p in ps ==> Valid(p)
    ensures |ws| == |ps|
  {
    seq(|ps|, k requires 0 <= k < |ps| => Wire(ps[k]))
  }

  lemma PacketsValid(s: Stamp, loads: seq<Load>, seqNo: nat)
    requires s.Ok()
    ensures forall p :: p in PacketsFrom(s, loads, seqNo) ==> Valid(p)
  {
  }

  function Octets(loads: seq<Load>): nat
    decreases |loads|
  {
    if loads == [] then 0 else |loads[0].payload| + Octets(loads[1..])
  }

  lemma {:induction false} OctetsAppend(a: seq<Load>, b: seq<Load>)
    ensures Octets(a + b) == Octets(a) + Octets(b)
    decreases |a|
  {
    if a == [] {
      Neutral(b);
    } else {
      SliceOfAppend(a, b, 1, 1);
      OctetsAppend(a[1..], b);
    }
  }

  /** The bytes of all packets, headers included. */
  function Total(pkts: seq<bytes>): nat
    decreases |pkts|
  {
    if pkts == [] then 0 else |pkts[0]| + Total(pkts[1..])
  }

  lemma {:induction false} TotalOfWire(s: Stamp, loads: seq<Load>, seqNo: nat)
    requires forall p :: p in PacketsFrom(s, loads, seqNo) ==> Valid(p)
    ensures Total(WireAll(PacketsFrom(s, loads, seqNo))) == Octets(loads) + 12 * |loads|
    decreases |loads|
  {
    hide Wire;
    if loads != [] {
      var ps := PacketsFrom(s, loads, seqNo);
      assert PacketsFrom(s, loads[1..], seqNo + 1) == ps[1..];
      assert WireAll(ps)[1..] == WireAll(ps[1..]);
      TotalOfWire(s, loads[1..], seqNo + 1);
    }
  }

  class H264Packetizer {
    const ssrc: int
    const pt: int
    const mtu: int
    var seqNo: nat
    var packetsSent: nat
    var octetsSent: nat

    constructor (ssrc: int, payloadType: int, mtu: int)
      requires 0 <= payloadType < 128
      ensures this.ssrc == ssrc % 0x1_0000_0000 && pt == payloadType && this.mtu == mtu
      ensures seqNo == packetsSent == octetsSent == 0 && Ready()
    {
      this.ssrc, pt, this.mtu := ssrc % 0x1_0000_0000, payloadType, mtu;
      seqNo, packetsSent, octetsSent := 0, 0, 0;
    }

    ghost predicate Ready()
      reads this
    {
      0 <= pt < 128 && 0 <= ssrc < 0x1_0000_0000 && seqNo < 0x1_0000
    }

    function StampAt(ts: int): Stamp {
      Stamp(pt, ssrc, ts)
    }

    method Header(marker: bool, ts: int) returns (hdr: bytes)
      requires Ready()
      modifies this`seqNo
      ensures Ready() && seqNo == (old(seqNo) + 1) % 0x1_0000
      ensures hdr ==
        [0x80, (if marker then 0x80 else 0) + pt]
        + (Be16(old(seqNo)) + (Be32(ts % 0x1_0000_0000) + Be32(ssrc)))
    {
      hdr :=
        [0x80, (if marker then 0x80 else 0) + pt]
        + (Be16(seqNo) + (Be32(ts % 0x1_0000_0000) + Be32(ssrc)));
      seqNo := (seqNo + 1) % 0x1_0000;
    }

    method Emit(payload: bytes, marker: bool, ts: int) returns (pkt: bytes)
      requires Ready()
      modifies this
      ensures Ready() && seqNo == (old(seqNo) + 1) % 0x1_0000
      ensures Valid(StampAt(ts).PacketOf(Load(payload, marker), old(seqNo)))
      ensures pkt == Wire(StampAt(ts).PacketOf(Load(payload, marker), old(seqNo)))
      ensures packetsSent == old(packetsSent) + 1 && octetsSent == old(octetsSent) + |payload|
    {
      hide Be16, Be32;
      var hdr := Header(marker, ts);
      pkt := hdr + payload;
      packetsSent := packetsSent + 1;
      octetsSent := octetsSent + (|pkt| - 12);
    }

    /** The state after sending `loads` from the state (n, sent, octets). */
    ghost predicate Counted(loads: seq<Load>, n: nat, sent: nat, octets: nat)
      reads this
    {
      && Ready() && seqNo == (n + |loads|) % 0x1_0000
      && packetsSent == sent + |loads| && octetsSent == octets + Octets(loads)
    }

    /** The same, with the packets sent: the loads under consecutive numbers from `n`. */
    ghost predicate HasSent(loads: seq<Load>, out: seq<bytes>, ts: int, n: nat, sent: nat, octets: nat)
      reads this
    {
      var ps := PacketsFrom(StampAt(ts), loads, n);
      Counted(loads, n, sent, octets) && (forall p :: p in ps ==> Valid(p)) && out == WireAll(ps)
    }

    /** The counters in terms of the packets themselves: a number and a count each, and their bytes less 12 each. */
    ghost predicate Tallied(out: seq<bytes>, n: nat, sent: nat, octets: nat)
      reads this
    {
      && seqNo == (n + |out|) % 0x1_0000 && packetsSent == sent + |out|
      && octetsSent + 12 * |out| == octets + Total(out)
    }

    /** `_emit`, appending to what the call has sent so far. */
    method EmitTo(
        out: seq<bytes>, payload: bytes, marker: bool, ts: int,
        ghost loads: seq<Load>, ghost n: nat, ghost sent: nat, ghost octets: nat)
      returns (out': seq<bytes>)
      requires HasSent(loads, out, ts, n, sent, octets)
      modifies this
      ensures HasSent(loads + [Load(payload, marker)], out', ts, n, sent, octets)
    {
      var pkt := Emit(payload, marker, ts);
      out' := out + [pkt];
      OctetsAppend(loads, [Load(payload, marker)]);
      OctetsOfOne(Load(payload, marker));
      PacketsAppend(StampAt(ts), loads, Load(payload, marker), n);
    }

    /** `packetize`; None is the ValueError, with the counters as they stand. */
    method Packetize(nals: seq<bytes>, ts: int) returns (result: Option<seq<bytes>>)
      requires Ready()
      modifies this
      ensures result.Some? == LoadsOf(nals, mtu).ok
      ensures Counted(LoadsOf(nals, mtu).done, old(seqNo), old(packetsSent), old(octetsSent))
      ensures result.Some? ==>
        HasSent(LoadsOf(nals, mtu).done, result.value, ts, old(seqNo), old(packetsSent), old(octetsSent))
      ensures result.Some? ==>
        Tallied(result.value, old(seqNo), old(packetsSent), old(octetsSent))
    {
      hide LoadsOf, Fragments, Mark, WireAll, PacketsFrom, Octets, Tallied;
      ghost var n, sent, octets := seqNo, packetsSent, octetsSent;
      ghost var loads: seq<Load> := [];
      var out: seq<bytes> := [];
      NothingSent(ts);
      Neutral(LoadsOf(nals, mtu).done);
      assert nals[0..] == nals;
      for i := 0 to |nals|
        invariant HasSent(loads, out, ts, n, sent, octets)
        invariant
          LoadsOf(nals, mtu) == Loads(loads + LoadsOf(nals[i..], mtu).done, LoadsOf(nals[i..], mtu).ok)
      {
        var nal := nals[i];
        LoadsStep(nals, i, mtu);
        Neutral(loads);
        var lastNal := i == |nals| - 1;
        if nal != [] {
          if |nal| <= mtu {
            out := EmitTo(out, nal, lastNal, ts, loads, n, sent, octets);
            MarkOne(nal, lastNal);
            Associative(loads, [Load(nal, lastNal)], LoadsOf(nals[i + 1..], mtu).done);
            loads := loads + [Load(nal, lastNal)];
          } else {
            var chunk := mtu - 2;
            if chunk == 0 {
              return None;
            }
            ghost var frags := if chunk > 0 then Mark(Fragments(nal[0], nal[1..], chunk, true), lastNal) else [];
            MarkNothing(lastNal);
            Associative(loads, frags, LoadsOf(nals[i + 1..], mtu).done);
            out := EmitFragments(nal, chunk, lastNal, out, ts, loads, n, sent, octets);
            loads := loads + frags;
          }
        } else {
          MarkNothing(lastNal);
        }
      }
      LoadsOfNothing(nals[|nals|..], mtu);
      Neutral(loads);
      Totals(loads, out, ts, n, sent, octets);
      return Some(out);
    }

    lemma Totals(loads: seq<Load>, out: seq<bytes>, ts: int, n: nat, sent: nat, octets: nat)
      requires HasSent(loads, out, ts, n, sent, octets)
      ensures Tallied(out, n, sent, octets)
    {
      hide Wire, Octets;
      TotalOfWire(StampAt(ts), loads, n);
    }

    /** The fragment loop of `packetize`. */
    method EmitFragments(
        nal: bytes, chunk: int, lastNal: bool, out0: seq<bytes>, ts: int,
        ghost loads: seq<Load>, ghost n: nat, ghost sent: nat, ghost octets: nat)
      returns (out: seq<bytes>)
      requires nal != [] && chunk != 0 && HasSent(loads, out0, ts, n, sent, octets)
      modifies this
      ensures
        HasSent(
          loads + if chunk > 0 then Mark(Fragments(nal[0], nal[1..], chunk, true), lastNal) else [],
          out, ts, n, sent, octets)
    {
      hide HasSent, Fragments, Mark, Piece;
      out := out0;
      var body := nal[1..];
      ghost var done := loads;
      Neutral(loads);
      var off := 0;
      ghost var all := if chunk > 0 then loads + Mark(Fragments(nal[0], body, chunk, true), lastNal) else loads;
      assert body[0..] == body;
      while chunk > 0 && off < |body|
        invariant 0 <= off && (chunk < 0 ==> done == loads)
        invariant HasSent(done, out, ts, n, sent, octets)
        invariant chunk > 0 ==>
          var rest := if off < |body| then body[off..] else [];
          all == done + Mark(Fragments(nal[0], rest, chunk, off == 0), lastNal)
        decreases |body| - off
      {
        FragmentStep(nal[0], body[off..], chunk, off == 0, lastNal);
        var piece := body[off..if off + chunk < |body| then off + chunk else |body|];
        var start := off == 0;
        var end := off + chunk >= |body|;
        var payload := [Indicator(nal[0]), FuHeader(start, end, nal[0])] + piece;
        PieceIs(nal[0], start, end, piece);
        assert !end ==> body[off..][..chunk] == piece && body[off..][chunk..] == body[off + chunk..];
        assert end ==> body[off..] == piece;
        ghost var load := Load(payload, lastNal && end);
        ghost var rest := if end then [] else body[off + chunk..];
        Associative(done, [load], Mark(Fragments(nal[0], rest, chunk, false), lastNal));
        out := EmitTo(out, payload, lastNal && end, ts, done, n, sent, octets);
        done := done + [load];
        off := off + chunk;
      }
      if chunk > 0 {
        NoFragments(nal[0], chunk, off == 0, lastNal);
        Neutral(done);
      }
    }

    lemma NothingSent(ts: int)
      requires Ready()
      ensures HasSent([], [], ts, seqNo, packetsSent, octetsSent)
    {
    }
  }

  lemma OctetsOfOne(l: Load)
    ensures Octets([l]) == |l.payload|
  {
    assert [l][1..] == [];
  }

  lemma PacketsAppend(s: Stamp, loads: seq<Load>, l: Load, n: nat)
    ensures PacketsFrom(s, loads + [l], n) == PacketsFrom(s, loads, n) + [s.PacketOf(l, n + |loads|)]
  {
  }

  lemma MarkNothing(last: bool)
    ensures Mark([], last) == []
  {
  }

  lemma MarkOne(payload: bytes, last: bool)
    ensures Mark([payload], last) == [Load(payload, last)]
  {
    assert [payload][1..] == [];
  }

  lemma LoadsOfNothing(nals: seq<bytes>, mtu: int)
    requires nals == []
    ensures LoadsOf(nals, mtu) == Loads([], true)
  {
  }

  lemma LoadsStep(nals: seq<bytes>, i: nat, mtu: int)
    requires i < |nals|
    ensures
      LoadsOf(nals[i..], mtu) ==
      match PayloadsOf(nals[i], mtu)
      case None => Loads([], false)
      case Some(ps) =>
        Loads(Mark(ps, i == |nals| - 1) + LoadsOf(nals[i + 1..], mtu).done, LoadsOf(nals[i + 1..], mtu).ok)
  {
    assert nals[i..][1..] == nals[i + 1..];
  }

  lemma PieceIs(header: byte, start: bool, end: bool, data: bytes)
    ensures Piece(header, start, end, data) == [Indicator(header), FuHeader(start, end, header)] + data
  {
  }

  lemma NoFragments(header: byte, chunk: nat, start: bool, last: bool)
    requires chunk > 0
    ensures Mark(Fragments(header, [], chunk, start), last) == []
  {
  }

  lemma FragmentStep(header: byte, body: bytes, chunk: nat, start: bool, last: bool)
    requires chunk > 0 && body != []
    ensures
      Mark(Fragments(header, body, chunk, start), last) ==
      if |body| <= chunk then
        [Load(Piece(header, start, true, body), last)] + Mark(Fragments(header, [], chunk, false), last)
      else
        [Load(Piece(header, start, false, body[..chunk]), false)]
        + Mark(Fragments(header, body[chunk..], chunk, false), last)
  {
    hide Piece;
    var fs := Fragments(header, body, chunk, start);
    if |body| <= chunk {
      MarkOne(Piece(header, start, true, body), last);
      Neutral([Load(Piece(header, start, true, body), last)]);
    } else {
      var rest := Fragments(header, body[chunk..], chunk, false);
      assert fs[1..] == rest && rest != [];
    }
  }
}
