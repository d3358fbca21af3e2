/** The media pump of an interleaved session, and what its client receives. */
module Pump {
  import opened Arithmetic
  import opened Bytes
  import opened AnnexB
  import opened Results
  import opened Rtp
  import opened RtpLaws
  import Hub

  /** One round of `_pump`: a frame's packets, each behind `$`, channel and length; None if an error ends the pump. */
  method PumpFrame(pk: H264Packetizer, frame: Hub.HubFrame, ch: byte) returns (blob: Option<bytes>)
    requires pk.Ready()
    modifies pk
    ensures pk.Counted(LoadsOf(frame.nals, pk.mtu).done, old(pk.seqNo), old(pk.packetsSent), old(pk.octetsSent))
    ensures
      blob == FrameBlob(pk.pt, pk.ssrc, pk.mtu, ch, Call(frame.nals, frame.ts90k), old(pk.seqNo))
  {
    hide LoadsOf, Interleave, Octets, PacketsFrom, WireAll;
    blob := None;
    var pkts := pk.Packetize(frame.nals, frame.ts90k);
    PacketsValid(pk.StampAt(frame.ts90k), LoadsOf(frame.nals, pk.mtu).done, old(pk.seqNo));
    if pkts.Some? {
      blob := Interleave(ch, pkts.value);
    }
  }

  /** What one frame puts on the connection. */
  function FrameBlob(pt: int, ssrc: int, mtu: int, ch: byte, c: Call, seqNo: nat): Option<bytes>
    requires Stamp(pt, ssrc, 0).Ok()
  {
    var loads := LoadsOf(c.nals, mtu);
    PacketsValid(Stamp(pt, ssrc, c.ts), loads.done, seqNo);
    if loads.ok then Interleave(ch, WireAll(PacketsFrom(Stamp(pt, ssrc, c.ts), loads.done, seqNo))) else None
  }

  /** What successive frames put on the connection. */
  function Pumped(pt: int, ssrc: int, mtu: int, ch: byte, calls: seq<Call>, seqNo: nat): Option<bytes>
    requires Stamp(pt, ssrc, 0).Ok()
    decreases |calls|
  {
    if calls == [] then Some([])
    else
      var first := FrameBlob(pt, ssrc, mtu, ch, calls[0], seqNo);
      var rest := Pumped(pt, ssrc, mtu, ch, calls[1..], SeqAfter(seqNo, calls[0], mtu));
      if first.None? || rest.None? then None else Some(first.value + rest.value)
  }

  // ---------- The client ----------

  /** The RTP payloads of demultiplexed packets. */
  function ParseAll(frames: seq<(byte, bytes)>): Option<seq<bytes>>
    decreases |frames|
  {
    if frames == [] then Some([])
    else
      var p, rest := Parse(frames[0].1), ParseAll(frames[1..]);
      if p.None? || rest.None? then None else Some([p.value.payload] + rest.value)
  }

  /** Everything a client does with the connection: demultiplex, parse, depacketize. */
  function ClientNals(stream: bytes): Option<seq<bytes>> {
    var frames := Demux(stream);
    if frames.None? then None
    else
      var payloads := ParseAll(frames.value);
      if payloads.None? then None else Depacketize(payloads.value, None)
  }

  // ---------- From packets to payloads ----------

  lemma {:induction false} DemuxAppend(a: bytes, b: bytes)
    requires Demux(a).Some? && Demux(b).Some?
    ensures Demux(a + b) == Some(Demux(a).value + Demux(b).value)
    decreases |a|
  {
    if a == [] {
      Neutral(b);
      Neutral(Demux(b).value);
    } else {
      hide ReadBe16;
      var n := ReadBe16(a[2..4]);
      var rest := a[4 + n..];
      SliceOfAppend(a, b, 2, 4);
      SliceOfAppend(a, b, 4, 4 + n);
      SliceOfAppend(a, b, 4 + n, 4 + n);
      DemuxAppend(rest, b);
      Associative([(a[1], a[4..4 + n])], Demux(rest).value, Demux(b).value);
    }
  }

  lemma {:induction false} ParseAllAppend(a: seq<(byte, bytes)>, b: seq<(byte, bytes)>)
    requires ParseAll(a).Some? && ParseAll(b).Some?
    ensures ParseAll(a + b) == Some(ParseAll(a).value + ParseAll(b).value)
    decreases |a|
  {
    hide Parse;
    if a == [] {
      Neutral(b);
      Neutral(ParseAll(b).value);
    } else {
      SliceOfAppend(a, b, 1, 1);
      ParseAllAppend(a[1..], b);
      Associative([Parse(a[0].1).value.payload], ParseAll(a[1..]).value, ParseAll(b).value);
    }
  }

  lemma {:induction false} ParseAllOfWire(s: Stamp, loads: seq<Load>, seqNo: nat, ch: byte)
    requires s.Ok()
    requires forall p :: p in PacketsFrom(s, loads, seqNo) ==> Valid(p)
    ensures ParseAll(OnChannel(ch, WireAll(PacketsFrom(s, loads, seqNo)))) == Some(Payloads(loads))
    decreases |loads|
  {
    hide Parse, Wire;
    var ps := PacketsFrom(s, loads, seqNo);
    var frames := OnChannel(ch, WireAll(ps));
    if loads != [] {
      ParseOfWire(ps[0]);
      PacketsValid(s, loads[1..], seqNo + 1);
      ParseAllOfWire(s, loads[1..], seqNo + 1, ch);
      assert PacketsFrom(s, loads[1..], seqNo + 1) == ps[1..];
      assert frames[1..] == OnChannel(ch, WireAll(ps[1..]));
    }
  }

  /** All NALs of the calls carry, and none is empty. */
  predicate Sound(calls: seq<Call>, mtu: int) {
    forall i, k :: 0 <= i < |calls| && 0 <= k < |calls[i].nals| ==>
      calls[i].nals[k] != [] && Carries(calls[i].nals[k], mtu)
  }

  function AllNals(calls: seq<Call>): seq<bytes>
    decreases |calls|
  {
    if calls == [] then [] else calls[0].nals + AllNals(calls[1..])
  }

  function AllPayloads(calls: seq<Call>, mtu: int): seq<bytes>
    decreases |calls|
  {
    if calls == [] then [] else Payloads(LoadsOf(calls[0].nals, mtu).done) + AllPayloads(calls[1..], mtu)
  }

  lemma {:induction false} NonEmptyIsAll(nals: seq<bytes>)
    requires forall k :: 0 <= k < |nals| ==> nals[k] != []
    ensures NonEmptyNals(nals) == nals
  {
    if nals != [] {
      NonEmptyIsAll(nals[1..]);
      assert [nals[0]] + nals[1..] == nals;
    }
  }

  lemma {:induction false} CallsReassemble(calls: seq<Call>, mtu: int)
    requires Sound(calls, mtu)
    ensures Depacketize(AllPayloads(calls, mtu), None) == Some(AllNals(calls))
    decreases |calls|
  {
    hide LoadsOf, Payloads, Carries;
    if calls != [] {
      var nals := calls[0].nals;
      SoundRest(calls, mtu);
      CallsReassemble(calls[1..], mtu);
      CallReassembles(nals, mtu, AllPayloads(calls[1..], mtu));
      NonEmptyIsAll(nals);
    }
  }

  lemma SoundRest(calls: seq<Call>, mtu: int)
    requires calls != [] && Sound(calls, mtu)
    ensures Sound(calls[1..], mtu)
    ensures forall k :: 0 <= k < |calls[0].nals| ==> calls[0].nals[k] != [] && Carries(calls[0].nals[k], mtu)
  {
    hide Carries;
    var rest := calls[1..];
    forall i, k | 0 <= i < |rest| && 0 <= k < |rest[i].nals|
      ensures rest[i].nals[k] != [] && Carries(rest[i].nals[k], mtu)
    {
      assert calls[i + 1].nals[k] == rest[i].nals[k];
    }
  }

  /** One frame's blob exists, and demultiplexes to its payloads. */
  lemma FrameBlobParses(pt: int, ssrc: int, mtu: int, ch: byte, c: Call, seqNo: nat)
    requires Stamp(pt, ssrc, 0).Ok() && 3 <= mtu <= 0xFFFF - 12
    requires forall k :: 0 <= k < |c.nals| ==> c.nals[k] != [] && Carries(c.nals[k], mtu)
    ensures
      var b := FrameBlob(pt, ssrc, mtu, ch, c, seqNo);
      && b.Some? && Demux(b.value).Some?
      && ParseAll(Demux(b.value).value) == Some(Payloads(LoadsOf(c.nals, mtu).done))
  {
    hide LoadsOf, Carries, Interleave, Demux, ParseAll, Payloads, Wire;
    var s, loads := Stamp(pt, ssrc, c.ts), LoadsOf(c.nals, mtu).done;
    CallLaws(c.nals, mtu);
    PacketsValid(s, loads, seqNo);
    var ws := WireAll(PacketsFrom(s, loads, seqNo));
    assert forall k :: 0 <= k < |ws| ==> |ws[k]| == 12 + |loads[k].payload|;
    DemuxOfInterleave(ch, ws);
    ParseAllOfWire(s, loads, seqNo, ch);
  }

  // ---------- What the client sees of every packet ----------

  /** All entries are on the channel, and parse to packets with these loads and time stamps, numbered from `seqNo`. */
  predicate Carried(
      frames: seq<(byte, bytes)>, pt: int, ssrc: int, ch: byte, loads: seq<Load>, times: seq<int>, seqNo: nat)
  {
    && |frames| == |loads| == |times|
    && forall k :: 0 <= k < |frames| ==>
         && frames[k].0 == ch
         && Parse(frames[k].1) ==
            Some(Packet(
              loads[k].marker, pt, (seqNo + k) % 0x1_0000, times[k] % 0x1_0000_0000, ssrc, loads[k].payload))
  }

  function Repeat(ts: int, n: nat): seq<int> {
    seq(n, k => ts)
  }

  /** Whatever a frame's blob is, its packets are all on the session's channel, with the frame's time stamp. */
  lemma FrameBlobPackets(pt: int, ssrc: int, mtu: int, ch: byte, c: Call, seqNo: nat)
    requires Stamp(pt, ssrc, 0).Ok() && FrameBlob(pt, ssrc, mtu, ch, c, seqNo).Some?
    ensures
      var frames, loads := Demux(FrameBlob(pt, ssrc, mtu, ch, c, seqNo).value), LoadsOf(c.nals, mtu).done;
      frames.Some? && Carried(frames.value, pt, ssrc, ch, loads, Repeat(c.ts, |loads|), seqNo)
  {
    hide LoadsOf, Interleave, Demux, Parse, Wire;
    var s, loads := Stamp(pt, ssrc, c.ts), LoadsOf(c.nals, mtu).done;
    PacketsValid(s, loads, seqNo);
    var ps := PacketsFrom(s, loads, seqNo);
    DemuxOfInterleave(ch, WireAll(ps));
    forall k | 0 <= k < |ps| ensures Parse(Wire(ps[k])) == Some(ps[k]) {
      ParseOfWire(ps[k]);
    }
  }

  function AllLoads(calls: seq<Call>, mtu: int): seq<Load>
    decreases |calls|
  {
    if calls == [] then [] else LoadsOf(calls[0].nals, mtu).done + AllLoads(calls[1..], mtu)
  }

  /** For each of these loads, the time stamp of its call. */
  function AllTimes(calls: seq<Call>, mtu: int): seq<int>
    decreases |calls|
  {
    if calls == [] then []
    else Repeat(calls[0].ts, |LoadsOf(calls[0].nals, mtu).done|) + AllTimes(calls[1..], mtu)
  }

  lemma CarriedAppend(
      a: seq<(byte, bytes)>, b: seq<(byte, bytes)>, pt: int, ssrc: int, ch: byte,
      la: seq<Load>, lb: seq<Load>, ta: seq<int>, tb: seq<int>, seqNo: nat)
    requires Carried(a, pt, ssrc, ch, la, ta, seqNo)
    requires Carried(b, pt, ssrc, ch, lb, tb, (seqNo + |la|) % 0x1_0000)
    ensures Carried(a + b, pt, ssrc, ch, la + lb, ta + tb, seqNo)
  {
    hide Parse;
    forall k | |a| <= k < |a + b|
      ensures
        && (a + b)[k].0 == ch
        && Parse((a + b)[k].1) ==
           Some(Packet(
             (la + lb)[k].marker, pt, (seqNo + k) % 0x1_0000, (ta + tb)[k] % 0x1_0000_0000, ssrc,
             (la + lb)[k].payload))
    {
      var i := k - |a|;
      assert (a + b)[k] == b[i] && (la + lb)[k] == lb[i] && (ta + tb)[k] == tb[i];
      ModAdd(seqNo + |la|, i, 0x1_0000);
    }
  }

  /**
   Over any number of frames: every packet the client gets is on the session's channel, with the payload type and
   source of the session, consecutive numbers modulo 2^16, the marker of its load and the time stamp of its frame.
   */
  lemma {:induction false} PumpedPackets(
      pt: int, ssrc: int, mtu: int, ch: byte, calls: seq<Call>, seqNo: nat)
    requires Stamp(pt, ssrc, 0).Ok() && Pumped(pt, ssrc, mtu, ch, calls, seqNo).Some?
    ensures
      var frames := Demux(Pumped(pt, ssrc, mtu, ch, calls, seqNo).value);
      && frames.Some?
      && Carried(frames.value, pt, ssrc, ch, AllLoads(calls, mtu), AllTimes(calls, mtu), seqNo)
    decreases |calls|
  {
    hide LoadsOf, FrameBlob, Carried, Stamp.Ok, Repeat;
    if calls == [] {
      NothingCarried(pt, ssrc, ch, seqNo);
    } else {
      var c := calls[0];
      var next := SeqAfter(seqNo, c, mtu);
      FrameBlobPackets(pt, ssrc, mtu, ch, c, seqNo);
      PumpedPackets(pt, ssrc, mtu, ch, calls[1..], next);
      var first := FrameBlob(pt, ssrc, mtu, ch, c, seqNo).value;
      var rest := Pumped(pt, ssrc, mtu, ch, calls[1..], next).value;
      hide Demux, Pumped;
      DemuxAppend(first, rest);
      var loads := LoadsOf(c.nals, mtu).done;
      CarriedAppend(
        Demux(first).value, Demux(rest).value, pt, ssrc, ch,
        loads, AllLoads(calls[1..], mtu), Repeat(c.ts, |loads|), AllTimes(calls[1..], mtu), seqNo);
    }
  }

  lemma NothingCarried(pt: int, ssrc: int, ch: byte, seqNo: nat)
    ensures Carried([], pt, ssrc, ch, [], [], seqNo)
  {
  }

  lemma {:induction false} PumpedParses(pt: int, ssrc: int, mtu: int, ch: byte, calls: seq<Call>, seqNo: nat)
    requires Stamp(pt, ssrc, 0).Ok() && 3 <= mtu <= 0xFFFF - 12 && Sound(calls, mtu)
    ensures
      var b := Pumped(pt, ssrc, mtu, ch, calls, seqNo);
      && b.Some? && Demux(b.value).Some? && ParseAll(Demux(b.value).value) == Some(AllPayloads(calls, mtu))
    decreases |calls|
  {
    hide LoadsOf, Carries, FrameBlob, Payloads, Sound, SeqAfter, Stamp.Ok;
    if calls != [] {
      var next := SeqAfter(seqNo, calls[0], mtu);
      SoundRest(calls, mtu);
      FrameBlobParses(pt, ssrc, mtu, ch, calls[0], seqNo);
      PumpedParses(pt, ssrc, mtu, ch, calls[1..], next);
      var first := FrameBlob(pt, ssrc, mtu, ch, calls[0], seqNo).value;
      var rest := Pumped(pt, ssrc, mtu, ch, calls[1..], next).value;
      DemuxAppend(first, rest);
      ParseAllAppend(Demux(first).value, Demux(rest).value);
    }
  }

  /** The client gets back the NALs of all frames pumped, byte for byte and in order. */
  lemma PumpRoundTrip(pt: int, ssrc: int, mtu: int, ch: byte, calls: seq<Call>, seqNo: nat)
    requires Stamp(pt, ssrc, 0).Ok() && 3 <= mtu <= 0xFFFF - 12 && Sound(calls, mtu)
    ensures Pumped(pt, ssrc, mtu, ch, calls, seqNo).Some?
    ensures ClientNals(Pumped(pt, ssrc, mtu, ch, calls, seqNo).value) == Some(AllNals(calls))
  {
    hide Pumped, Demux, ParseAll, Depacketize, Sound, AllPayloads, AllNals, Stamp.Ok;
    PumpedParses(pt, ssrc, mtu, ch, calls, seqNo);
    CallsReassemble(calls, mtu);
  }
}
