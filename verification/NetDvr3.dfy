/**
 The NetDvrV3 driver: a byte stream of preamble, 24-byte headers and access units, parsed out of a
 buffer that is refilled and cut. The device is the finite string of bytes that arrive before the
 connection closes or a read times out.
 */
module NetDvr3 {
  import opened Bytes
  import opened AnnexB
  import opened Results

  const MAGIC: pattern := [0x63, 0x00, 0x0c, 0x00]
  const HEADER_LEN: nat := 24
  const FRAME_I: byte := 0x64
  const MAX_PREAMBLE: nat := 64 * 1024
  const MAX_FRAME: nat := 4 * 1024 * 1024

  datatype VideoFrame = VideoFrame(payload: bytes, ts: nat, keyframe: bool)

  datatype Header = Header(seqNo: nat, ts: nat, ftype: byte, payloadLen: nat)

  /** `parse_frame_header`; None is the "bad frame header magic" error. */
  function ParseFrameHeader(hdr: bytes): Option<Header>
    requires |hdr| == HEADER_LEN
  {
    if ReadLe16(hdr[4..6]) != 0x0063 || ReadLe16(hdr[6..8]) != 0x000c then None
    else Some(Header(ReadLe32(hdr[0..4]), ReadLe32(hdr[16..20]), hdr[20], ReadLe16(hdr[22..24]) + 4))
  }

  predicate HasIdr(nals: seq<bytes>) {
    exists k :: 0 <= k < |nals| && NalType(nals[k]) == NAL_IDR
  }

  // ---------- The parser on stream positions ----------

  /** A frame header may start at `p`: its magic is there. */
  predicate HeaderAt(dev: bytes, p: nat) {
    At(dev, MAGIC, p + 4)
  }

  /** Header and payload length, as the 16-bit field of the header at `p` predicts it. */
  function Need(dev: bytes, p: nat): (n: nat)
    requires p + HEADER_LEN <= |dev|
    ensures 28 <= n <= 28 + 0xFFFF
  {
    HEADER_LEN + (ReadLe16(dev[p + 22..p + 24]) + 4)
  }

  /** The prediction holds: the payload begins with a start code and the next header's magic follows it. */
  predicate Corroborated(dev: bytes, p: nat)
    requires p + HEADER_LEN <= |dev|
  {
    At(dev, START4, p + HEADER_LEN) && At(dev, MAGIC, p + Need(dev, p) + 4)
  }

  function FrameAt(dev: bytes, p: nat): VideoFrame
    requires p + HEADER_LEN <= |dev| && p + Need(dev, p) <= |dev|
  {
    var payload := dev[p + HEADER_LEN..p + Need(dev, p)];
    VideoFrame(payload, ReadLe32(dev[p + 16..p + 20]), dev[p + 20] == FRAME_I || HasIdr(NalsOf(payload)))
  }

  /** Where scanning from `q` finds the next header, -1 if nowhere: a magic closer than 4 bytes is skipped. */
  function NextHeader(dev: bytes, q: nat): (h: int)
    ensures h == -1 || (q <= h && h + 8 <= |dev| && HeaderAt(dev, h))
    decreases |dev| - q
  {
    var m := Find(dev, MAGIC, q);
    if m == -1 then -1 else if m - q >= 4 then m - 4 else NextHeader(dev, m + 4)
  }

  /** The frames of the whole stream from the header at `p` on, without limits on buffers or scanning. */
  function PureFrames(dev: bytes, p: nat): seq<VideoFrame>
    requires HeaderAt(dev, p)
    decreases |dev| - p
  {
    if p + HEADER_LEN > |dev| || p + Need(dev, p) + 8 > |dev| then []
    else if Corroborated(dev, p) then [FrameAt(dev, p)] + PureFrames(dev, p + Need(dev, p))
    else
      var h := NextHeader(dev, p + 4);
      if h == -1 then [] else PureFrames(dev, h)
  }

  // ---------- The driver on stream positions: what is read ahead matters ----------

  /** Outcome of a rescan: a header and the new end of the buffer, too few bytes, or too many scanned. */
  datatype Rescan = Found(header: nat, end: nat) | Starved | Lost

  /** The first magic at or after `q`, if all of it is among the bytes before `e`; otherwise -1. */
  function Buffered(dev: bytes, q: nat, e: nat): (m: int)
    ensures m == -1 || (q <= m && m + 4 <= e && At(dev, MAGIC, m))
  {
    var f := Find(dev, MAGIC, q);
    if f == -1 || f + 4 > e then -1 else f
  }

  /** What a round of the scan discards: an unusable magic with all before it, or all but a tail of 7 bytes. */
  function Discarded(q: nat, e: nat, m: int): (n: nat)
    requires q <= e && (m == -1 || (q <= m && m + 4 <= e))
    ensures q + n <= e
  {
    if m != -1 then m + 4 - q else if e - q > 7 then e - q - 7 else 0
  }

  lemma DiscardedIs(q: nat, e: nat, m: int)
    requires q <= e && (m == -1 || (q <= m && m + 4 <= e))
    ensures Discarded(q, e, m) == if m != -1 then m + 4 - q else if e - q > 7 then e - q - 7 else 0
  {
  }

  /** `_resync`, with the bytes from `q` to `e` buffered. */
  function Rescanned(dev: bytes, q: nat, e: nat, scanned: nat): (r: Rescan)
    requires q <= e <= |dev|
    ensures r.Found? ==>
      q <= r.header && r.header + 8 <= r.end && e <= r.end <= |dev| && HeaderAt(dev, r.header)
    decreases |dev| - e
  {
    var m := Buffered(dev, q, e);
    if m - q >= 4 then Found(m - 4, e)
    else
      var drop := Discarded(q, e, m);
      var scanned' := if m == -1 then scanned + drop else scanned;
      if scanned' > MAX_FRAME then Lost
      else if e + 4096 > |dev| then Starved
      else Rescanned(dev, q + drop, e + 4096, scanned')
  }

  /** One round of the scan. */
  lemma RescanStep(dev: bytes, q: nat, e: nat, scanned: nat)
    requires q <= e <= |dev|
    ensures
      var m := Buffered(dev, q, e);
      if m - q >= 4 then Rescanned(dev, q, e, scanned) == Found(m - 4, e)
      else
        var drop := Discarded(q, e, m);
        var scanned' := if m == -1 then scanned + drop else scanned;
        Rescanned(dev, q, e, scanned) ==
        if scanned' > MAX_FRAME then Lost
        else if e + 4096 > |dev| then Starved
        else Rescanned(dev, q + drop, e + 4096, scanned')
  {
  }

  /** How a run ends. The first two and the last two raise the same errors in pairs, at different reads. */
  datatype Ending = NoHeader | ClosedInPreamble | ClosedInFrame | ClosedInResync | CouldNotResync

  datatype Run = Run(frames: seq<VideoFrame>, resyncs: nat, end: Ending)
  {
    /** This run as the rest of one that has already emitted `out` after `n` resyncs. */
    function After(out: seq<VideoFrame>, n: nat): Run {
      Run(out + frames, n + resyncs, end)
    }
  }

  function Max(a: nat, b: nat): nat {
    if a > b then a else b
  }

  lemma AfterAfter(r: Run, a: seq<VideoFrame>, n: nat, b: seq<VideoFrame>, m: nat)
    ensures r.After(b, m).After(a, n) == r.After(a + b, n + m)
  {
    Associative(a, b, r.frames);
  }

  /** The frame loop, with a header at `p` and the bytes up to `e` buffered. */
  function FrameLoop(dev: bytes, p: nat, e: nat): (r: Run)
    requires HeaderAt(dev, p) && p + 8 <= e <= |dev|
    ensures !r.end.NoHeader? && !r.end.ClosedInPreamble?
    decreases |dev| - p
  {
    if p + HEADER_LEN > |dev| then Run([], 0, ClosedInFrame)
    else
      var next := p + Need(dev, p);
      if next + 8 > |dev| then Run([], 0, ClosedInFrame)
      else
        var e' := Max(e, next + 8);
        if Corroborated(dev, p) then FrameLoop(dev, next, e').After([FrameAt(dev, p)], 0)
        else
          match Rescanned(dev, p + 4, e', 0)
          case Found(h, e'') => FrameLoop(dev, h, e'').After([], 1)
          case Starved => Run([], 1, ClosedInResync)
          case Lost => Run([], 1, CouldNotResync)
  }

  /**
   What `frames` may do on a stream: fail in the preamble, or run the frame loop from the first magic with some
   amount `ahead` already read, less than one read more than needed and at most one beyond the 64 KiB limit.
   */
  predicate IsRun(dev: bytes, ahead: nat, r: Run) {
    var m := Find(dev, MAGIC, 0);
    if r.end == NoHeader then
      r == Run([], 0, NoHeader) && |dev| > MAX_PREAMBLE && (m < 4 || m + 4 > MAX_PREAMBLE + 1)
    else if r.end == ClosedInPreamble then
      r == Run([], 0, ClosedInPreamble) && |dev| <= MAX_PREAMBLE && m < 4
    else
      && m >= 4 && m + 4 <= ahead <= |dev| && ahead < m + 4 + 4096 && ahead <= MAX_PREAMBLE + 4096
      && r == FrameLoop(dev, m - 4, ahead)
  }

  /** One round of the loop. */
  lemma FrameLoopStep(dev: bytes, p: nat, e: nat)
    requires HeaderAt(dev, p) && p + 8 <= e <= |dev|
    ensures p + HEADER_LEN > |dev| ==> FrameLoop(dev, p, e) == Run([], 0, ClosedInFrame)
    ensures p + HEADER_LEN <= |dev| ==>
      var next := p + Need(dev, p);
      var e' := Max(e, next + 8);
      if next + 8 > |dev| then FrameLoop(dev, p, e) == Run([], 0, ClosedInFrame)
      else if Corroborated(dev, p) then
        FrameLoop(dev, p, e) == FrameLoop(dev, next, e').After([FrameAt(dev, p)], 0)
      else
        FrameLoop(dev, p, e) ==
        match Rescanned(dev, p + 4, e', 0)
        case Found(h, e'') => FrameLoop(dev, h, e'').After([], 1)
        case Starved => Run([], 1, ClosedInResync)
        case Lost => Run([], 1, CouldNotResync)
  {
  }

  /** A header that has its magic always parses, and its length is below the frame limit. */
  lemma HeaderOfBuffer(dev: bytes, p: nat)
    requires HeaderAt(dev, p) && p + HEADER_LEN <= |dev|
    ensures
      var h := ParseFrameHeader(dev[p..p + HEADER_LEN]);
      && h.Some? && HEADER_LEN + h.value.payloadLen == Need(dev, p) && h.value.payloadLen <= MAX_FRAME
      && h.value.ts == ReadLe32(dev[p + 16..p + 20]) && h.value.ftype == dev[p + 20]
  {
    var hdr := dev[p..p + HEADER_LEN];
    assert hdr[16..20] == dev[p + 16..p + 20];
    assert hdr[22..24] == dev[p + 22..p + 24];
  }

  // ---------- The imperative driver ----------

  /** What the loop sees of a frame in a buffer that starts at `p` and reaches behind the next magic. */
  lemma BufferedFrame(dev: bytes, p: nat, e: nat)
    requires HeaderAt(dev, p) && p + HEADER_LEN <= |dev| && p + Need(dev, p) + 8 <= e <= |dev|
    ensures
      var buf, need := dev[p..e], Need(dev, p);
      && buf[HEADER_LEN..need] == dev[p + HEADER_LEN..p + need]
      && (Corroborated(dev, p) <==> START4 <= buf[HEADER_LEN..need] && buf[need..need + 8][4..8] == MAGIC)
      && (Corroborated(dev, p) ==> HeaderAt(dev, p + need))
  {
    hide At;
    var need := Need(dev, p);
    SliceOfSlice(dev, p, e, HEADER_LEN, need);
    SliceOfSlice(dev, p, e, need, need + 8);
    SliceOfSlice(dev, p + need, p + need + 8, 4, 8);
    SliceOfSlice(dev, p + HEADER_LEN, p + need, 0, 4);
    AtIsSlice(dev, START4, p + HEADER_LEN);
    AtIsSlice(dev, MAGIC, p + need + 4);
  }

  /** The socket: `readexactly` and `read`, on the bytes the device delivers. */
  class StreamReader {
    const dev: bytes
    var pos: nat

    constructor (dev: bytes)
      ensures this.dev == dev && pos == 0
    {
      this.dev, pos := dev, 0;
    }

    method ReadExactly(n: nat) returns (chunk: Option<bytes>)
      requires pos <= |dev|
      modifies this
      ensures old(pos) + n > |dev| ==> chunk.None? && pos == old(pos)
      ensures old(pos) + n <= |dev| ==> chunk == Some(dev[old(pos)..old(pos) + n]) && pos == old(pos) + n
    {
      if pos + n > |dev| {
        return None;
      }
      pos := pos + n;
      return Some(dev[pos - n..pos]);
    }

    /** Any non-empty piece of what is left, up to `limit` bytes; empty only at the end. */
    method Read(limit: nat) returns (chunk: bytes)
      requires pos <= |dev| && limit > 0
      modifies this
      ensures old(pos) <= pos <= old(pos) + limit && pos <= |dev|
      ensures chunk == dev[old(pos)..pos]
      ensures chunk == [] <==> old(pos) == |dev|
    {
      if pos == |dev| {
        return [];
      }
      var n: nat :| 1 <= n <= limit && pos + n <= |dev|;
      pos := pos + n;
      return dev[pos - n..pos];
    }
  }

  class NetDvr3Driver {
    const reader: StreamReader
    var buf: bytes
    var resyncs: nat

    constructor (reader: StreamReader)
      ensures this.reader == reader && buf == [] && resyncs == 0
    {
      this.reader, buf, resyncs := reader, [], 0;
    }

    /** The buffer holds the bytes of the stream from `q` to the read position. */
    ghost predicate Holds(q: nat)
      reads `buf, reader
      ensures Holds(q) ==> q <= reader.pos <= |reader.dev| && |buf| == reader.pos - q
    {
      q <= reader.pos <= |reader.dev| && buf == reader.dev[q..reader.pos]
    }

    /** `buf += await self._read(reader, n)`; false is the "device closed the connection" error. */
    method Extend(n: nat, ghost q: nat) returns (ok: bool)
      requires Holds(q)
      modifies this`buf, reader
      ensures ok == (old(reader.pos) + n <= |reader.dev|)
      ensures reader.pos == if ok then old(reader.pos) + n else old(reader.pos)
      ensures Holds(q)
    {
      var chunk := reader.ReadExactly(n);
      if chunk.None? {
        return false;
      }
      buf := buf + chunk.value;
      return true;
    }

    /** `del buf[:n]` */
    method Cut(n: nat, ghost q: nat)
      requires Holds(q) && n <= |buf|
      modifies this`buf
      ensures Holds(q + n)
    {
      buf := buf[n..];
    }

    /** `buf.find(MAGIC)` */
    method FindMagic(ghost q: nat) returns (i: int)
      requires Holds(q)
      ensures
        var m := Buffered(reader.dev, q, reader.pos);
        i == if m == -1 then -1 else m - q
    {
      FindSlice(reader.dev, MAGIC, q, reader.pos);
      i := Find(buf, MAGIC, 0);
    }

    /** `_resync`: None on success, with a header at the start of the buffer, or the error raised. */
    method Resync(ghost p: nat) returns (error: Option<Ending>)
      requires Holds(p) && |buf| >= 4
      modifies this, reader
      ensures
        match Rescanned(reader.dev, p + 4, old(reader.pos), 0)
        case Found(h, e) => error == None && Holds(h) && reader.pos == e
        case Starved => error == Some(ClosedInResync)
        case Lost => error == Some(CouldNotResync)
      ensures resyncs == old(resyncs) + 1
    {
      hide *;
      resyncs := resyncs + 1;
      Cut(4, p);
      ghost var q: nat := p + 4;
      ghost var goal := Rescanned(reader.dev, q, reader.pos, 0);
      var scanned: nat := 0;
      while true
        invariant Holds(q) && resyncs == old(resyncs) + 1
        invariant goal == Rescanned(reader.dev, q, reader.pos, scanned)
        decreases |reader.dev| - reader.pos
      {
        RescanStep(reader.dev, q, reader.pos, scanned);
        ghost var m := Buffered(reader.dev, q, reader.pos);
        ghost var drop := Discarded(q, reader.pos, m);
        ghost var q' := q + drop;
        DiscardedIs(q, reader.pos, m);
        var i := FindMagic(q);
        if i >= 4 {
          Cut(i - 4, q);
          return None;
        }
        if i != -1 {
          Cut(i + 4, q);
        } else if |buf| > 7 {
          var drop := |buf| - 7;
          Cut(drop, q);
          scanned := scanned + drop;
        }
        q := q';
        if scanned > MAX_FRAME {
          return Some(CouldNotResync);
        }
        var ok := Extend(4096, q);
        if !ok {
          return Some(ClosedInResync);
        }
      }
    }

    /**
     `frames`: preamble and frame loop, with the yielded frames collected. Whatever the sizes of the
     preamble reads, the run is `FrameLoop` from the first magic, for some amount read ahead.
     */
    method Frames() returns (out: seq<VideoFrame>, end: Ending, ghost ahead: nat)
      requires reader.pos == 0 && buf == []
      modifies this, reader
      ensures resyncs >= old(resyncs)
      ensures IsRun(reader.dev, ahead, Run(out, resyncs - old(resyncs), end))
    {
      hide Find, At, FrameLoop;
      out, ahead := [], 0;
      var error, headerStart := Preamble();
      if error.Some? {
        end := error.value;
        return;
      }
      ahead := reader.pos;
      Cut(headerStart, 0);
      out, end := Loop(headerStart);
    }

    /** The preamble: buffer until the first magic with room for the 4 bytes before it. */
    method Preamble() returns (error: Option<Ending>, headerStart: nat)
      requires reader.pos == 0 && buf == []
      modifies this`buf, reader
      ensures Holds(0)
      ensures
        var m := Find(reader.dev, MAGIC, 0);
        if error == None then
          && m >= 4 && headerStart == m - 4 && HeaderAt(reader.dev, headerStart)
          && m + 4 <= reader.pos < m + 4 + 4096 && reader.pos <= MAX_PREAMBLE + 4096
        else if error == Some(NoHeader) then
          |reader.dev| > MAX_PREAMBLE && (m < 4 || m + 4 > MAX_PREAMBLE + 1)
        else error == Some(ClosedInPreamble) && |reader.dev| <= MAX_PREAMBLE && m < 4
    {
      hide Find, At;
      headerStart := 0;
      var i := FindMagic(0);
      while i < 4
        invariant Holds(0)
        invariant i == Buffered(reader.dev, 0, reader.pos)
        invariant i >= 4 ==> reader.pos < i + 4 + 4096
        invariant reader.pos <= MAX_PREAMBLE + 4096
        decreases |reader.dev| - reader.pos, 4 - i
      {
        if |buf| > MAX_PREAMBLE {
          return Some(NoHeader), 0;
        }
        var chunk := reader.Read(4096);
        if chunk == [] {
          return Some(ClosedInPreamble), 0;
        }
        buf := buf + chunk;
        i := FindMagic(0);
      }
      return None, i - 4;
    }

    /** `while len(buf) < n: buf += await self._read(reader, n - len(buf))` */
    method FillTo(n: nat, ghost q: nat) returns (ok: bool)
      requires Holds(q)
      modifies this`buf, reader
      ensures Holds(q) && ok == (q + n <= |reader.dev|)
      ensures ok ==> reader.pos == Max(old(reader.pos), q + n)
    {
      while |buf| < n
        invariant Holds(q)
        invariant reader.pos == old(reader.pos) || reader.pos == q + n
        decreases n - |buf|
      {
        ok := Extend(n - |buf|, q);
        if !ok {
          return;
        }
      }
      return true;
    }

    /** The frame loop, with the buffer cut to the header at `p0`. */
    method Loop(ghost p0: nat) returns (out: seq<VideoFrame>, end: Ending)
      requires Holds(p0) && HeaderAt(reader.dev, p0) && p0 + 8 <= reader.pos
      modifies this, reader
      ensures resyncs >= old(resyncs)
      ensures FrameLoop(reader.dev, p0, old(reader.pos)) == Run(out, resyncs - old(resyncs), end)
    {
      hide At, FrameLoop;
      out := [];
      ghost var p := p0;
      Neutral(FrameLoop(reader.dev, p, reader.pos).frames);
      while true
        invariant Holds(p) && HeaderAt(reader.dev, p) && p + 8 <= reader.pos
        invariant resyncs >= old(resyncs)
        invariant
          FrameLoop(reader.dev, p0, old(reader.pos)) ==
          FrameLoop(reader.dev, p, reader.pos).After(out, resyncs - old(resyncs))
        decreases |reader.dev| - p
      {
        ghost var n := resyncs - old(resyncs);
        var frame, error, next := Pass(p);
        Neutral(out);
        if error.Some? {
          return out, error.value;
        }
        p := next;
        AfterAfter(FrameLoop(reader.dev, p, reader.pos), out, n, Emitted(frame), resyncs - old(resyncs) - n);
        if frame.Some? {
          out := out + [frame.value];
        }
      }
    }

    /** One pass of the frame loop: a frame, a resync, or an error that ends the run. */
    method Pass(ghost p: nat) returns (frame: Option<VideoFrame>, error: Option<Ending>, ghost next: nat)
      requires Holds(p) && HeaderAt(reader.dev, p) && p + 8 <= reader.pos
      modifies this, reader
      ensures resyncs >= old(resyncs)
      ensures error == None ==>
        && p < next && Holds(next) && HeaderAt(reader.dev, next) && next + 8 <= reader.pos
        && FrameLoop(reader.dev, p, old(reader.pos)) ==
           FrameLoop(reader.dev, next, reader.pos).After(Emitted(frame), resyncs - old(resyncs))
      ensures error.Some? ==>
        FrameLoop(reader.dev, p, old(reader.pos)) == Run([], resyncs - old(resyncs), error.value)
    {
      hide Find, At, Rescanned, NalsOf, FrameLoop, Need, Corroborated, ParseFrameHeader, HasIdr, HeaderAt, Holds;
      frame, error, next := None, None, p;
      FrameLoopStep(reader.dev, p, reader.pos);
      var ok := FillTo(HEADER_LEN, p);
      if !ok {
        error := Some(ClosedInFrame);
        return;
      }
      HeaderOfBuffer(reader.dev, p);
      SliceOfSlice(reader.dev, p, reader.pos, 0, HEADER_LEN);
      var header := ParseFrameHeader(buf[..HEADER_LEN]);
      if header.None? || header.value.payloadLen > MAX_FRAME {
        // both guards of `frames` are dead here: every header that gets this far has its magic
        assert false;
      }
      var need := HEADER_LEN + header.value.payloadLen;
      ok := FillTo(need + 8, p);
      if !ok {
        error := Some(ClosedInFrame);
        return;
      }
      BufferedFrame(reader.dev, p, reader.pos);
      var payload := buf[HEADER_LEN..need];
      var nxt := buf[need..need + 8];
      if !(START4 <= payload) || nxt[4..8] != MAGIC {
        ghost var scan := Rescanned(reader.dev, p + 4, reader.pos, 0);
        error := Resync(p);
        next := if scan.Found? then scan.header else p;
        return;
      }
      Cut(need, p);
      next := p + need;
      var nals := IterNals(payload);
      var keyframe := header.value.ftype == FRAME_I || HasIdr(nals);
      frame := Some(VideoFrame(payload, header.value.ts, keyframe));
    }
  }

  function Emitted(frame: Option<VideoFrame>): seq<VideoFrame> {
    if frame.Some? then [frame.value] else []
  }
}
