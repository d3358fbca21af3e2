/**
 The Annex-B byte stream of ITU-T Rec. H.264: the batch splitter `iter_nals` and the
 incremental `AnnexBSplitter`.
 */
module AnnexB {
  import opened Bytes

  const START3: pattern := [0, 0, 1]
  const START4: pattern := [0, 0, 0, 1]

  const NAL_IDR := 5
  const NAL_SPS := 7
  const NAL_PPS := 8

  /** `nal_type`: the low five bits of the header byte, -1 for an empty NAL. */
  function NalType(nal: bytes): int {
    if nal == [] then -1 else nal[0] % 32
  }

  predicate IsVcl(t: int) {
    1 <= t <= 5
  }

  // ---------- The specification of the batch splitter ----------

  function TrimZeros(s: bytes): (r: bytes)
    ensures r <= s
    ensures r != [] ==> r[|r| - 1] != 0
    ensures forall k :: |r| <= k < |s| ==> s[k] == 0
  {
    if s != [] && s[|s| - 1] == 0 then TrimZeros(s[..|s| - 1]) else s
  }

  function NonEmpty(nal: bytes): seq<bytes> {
    if nal == [] then [] else [nal]
  }

  /** The NALs of `s`, the text that follows a start code. */
  function Units(s: bytes): seq<bytes>
    decreases |s|
  {
    var j := Find(s, START3, 0);
    if j == -1 then NonEmpty(s) else NonEmpty(TrimZeros(s[..j])) + Units(s[j + 3..])
  }

  /** The NALs of a complete buffer. */
  function NalsOf(s: bytes): seq<bytes> {
    var i := Find(s, START3, 0);
    if i == -1 then [] else Units(s[i + 3..])
  }

  lemma UnitsStep(s: bytes)
    ensures
      var j := Find(s, START3, 0);
      if j == -1 then Units(s) == NonEmpty(s)
      else j + 3 <= |s| && Units(s) == NonEmpty(TrimZeros(s[..j])) + Units(s[j + 3..])
  {
  }

  /** One step of `Units`, in absolute positions. */
  lemma UnitsAt(s: bytes, start: nat)
    requires start <= |s|
    ensures
      var j := Find(s, START3, start);
      if j == -1 then Units(s[start..]) == NonEmpty(s[start..])
      else
        && j + 3 <= |s|
        && Units(s[start..]) == NonEmpty(TrimZeros(s[start..j])) + Units(s[j + 3..])
  {
    hide *;
    FindSuffix(s, START3, start);
    UnitsStep(s[start..]);
    var j := Find(s[start..], START3, 0);
    if j != -1 {
      SliceOfSuffix(s, start, 0, j);
      SliceOfSuffix(s, start, j + 3, j + 3);
    }
  }

  /** `iter_nals`, with the yielded payloads collected. */
  method IterNals(buf: bytes) returns (out: seq<bytes>)
    ensures out == NalsOf(buf)
  {
    hide Find, At, Units, TrimZeros;
    out := [];
    Neutral(NalsOf(buf));
    var i := Find(buf, START3, 0);
    while i != -1
      invariant i == -1 || (0 <= i && i + 3 <= |buf|)
      invariant i != -1 ==> NalsOf(buf) == out + Units(buf[i + 3..])
      invariant i == -1 ==> NalsOf(buf) == out
      decreases |buf| - i
    {
      var start := i + 3;
      var j := Find(buf, START3, start);
      UnitsAt(buf, start);
      if j == -1 {
        var nal := buf[start..];
        if nal != [] {
          out := out + [nal];
        }
        break;
      }
      var end := TrimEnd(buf, start, j);
      ghost var before := out;
      if end > start {
        out := out + [buf[start..end]];
      }
      Neutral(before);
      assert out == before + NonEmpty(buf[start..end]);
      Associative(before, NonEmpty(buf[start..end]), Units(buf[j + 3..]));
      i := j;
    }
  }

  /** The inner loop of both splitters: step back over zeros that belong to the next start code. */
  method TrimEnd(buf: bytes, start: nat, j: nat) returns (end: nat)
    requires start <= j <= |buf|
    ensures start <= end <= j
    ensures buf[start..end] == TrimZeros(buf[start..j])
  {
    end := j;
    while end > start && buf[end - 1] == 0
      invariant start <= end <= j
      invariant TrimZeros(buf[start..end]) == TrimZeros(buf[start..j])
    {
      assert buf[start..end][..end - start - 1] == buf[start..end - 1];
      end := end - 1;
    }
  }

  // ---------- Joining and re-parsing ----------

  /** Every NAL behind a 4-byte start code. */
  function Join(nals: seq<bytes>): bytes {
    if nals == [] then [] else START4 + nals[0] + Join(nals[1..])
  }

  predicate Clean(nal: bytes) {
    Find(nal, START3, 0) == -1
  }

  /**
   What a list of NALs must satisfy to survive framing: none is empty, none holds a start code,
   and only the last may end in a zero byte.
   */
  predicate Framable(nals: seq<bytes>) {
    forall k :: 0 <= k < |nals| ==>
      nals[k] != [] && Clean(nals[k]) && (k < |nals| - 1 ==> nals[k][|nals[k]| - 1] != 0)
  }

  lemma {:induction false} UnitsFramable(s: bytes)
    ensures Framable(Units(s))
    decreases |s|
  {
    var j := Find(s, START3, 0);
    if j != -1 {
      var nal := TrimZeros(s[..j]);
      assert nal == s[0..|nal|];
      FindSlice(s, START3, 0, |nal|);
      UnitsFramable(s[j + 3..]);
    }
  }

  /** Whatever the input, the splitter returns a framable list. */
  lemma NalsFramable(s: bytes)
    ensures Framable(NalsOf(s))
  {
    var i := Find(s, START3, 0);
    if i != -1 { UnitsFramable(s[i + 3..]); }
  }

  /** The first start code behind a clean NAL that ends in a non-zero byte. */
  lemma FindBehindNal(nal: bytes, rest: bytes)
    requires nal != [] && Clean(nal) && nal[|nal| - 1] != 0
    ensures Find(nal + (START4 + rest), START3, 0) == |nal| + 1
    ensures TrimZeros((nal + (START4 + rest))[..|nal| + 1]) == nal
  {
    var s := nal + (START4 + rest);
    FindAppend(nal, START3, START4 + rest);
    assert At(s, START3, |nal| + 1);
    assert s[..|nal| + 1] == nal + [0];
    assert (nal + [0])[..|nal|] == nal;
  }

  lemma {:induction false} UnitsJoin(nals: seq<bytes>)
    requires nals != [] && Framable(nals)
    ensures Units(nals[0] + Join(nals[1..])) == nals
  {
    var nal, rest := nals[0], nals[1..];
    if rest == [] {
      assert nal + Join(rest) == nal;
    } else {
      var s := nal + Join(rest);
      assert s == nal + (START4 + (rest[0] + Join(rest[1..])));
      FindBehindNal(nal, rest[0] + Join(rest[1..]));
      assert s[|nal| + 4..] == rest[0] + Join(rest[1..]);
      UnitsJoin(rest);
    }
  }

  lemma FindStart4(body: bytes)
    ensures Find(START4 + body, START3, 0) == 1
    ensures (START4 + body)[4..] == body
  {
    assert At(START4 + body, START3, 1) && !At(START4 + body, START3, 0);
  }

  /** Parsing undoes joining on every framable list. */
  lemma NalsOfJoin(nals: seq<bytes>)
    requires Framable(nals)
    ensures NalsOf(Join(nals)) == nals
  {
    if nals != [] {
      var body := nals[0] + Join(nals[1..]);
      Associative(START4, nals[0], Join(nals[1..]));
      FindStart4(body);
      UnitsJoin(nals);
    }
  }

  /** Framable lists are exactly the ones that survive joining and parsing. */
  lemma RoundTripIffFramable(nals: seq<bytes>)
    ensures NalsOf(Join(nals)) == nals <==> Framable(nals)
  {
    NalsFramable(Join(nals));
    if Framable(nals) { NalsOfJoin(nals); }
  }

  /** Re-normalisation: parse, re-join with 4-byte start codes, parse again; nothing changes. */
  lemma Renormalise(s: bytes)
    ensures NalsOf(Join(NalsOf(s))) == NalsOf(s)
  {
    NalsFramable(s);
    NalsOfJoin(NalsOf(s));
  }

  // ---------- The incremental splitter ----------

  /** The last two bytes: a tail that could hold the start of a start code. */
  function Tail2(b: bytes): bytes {
    if |b| > 2 then b[|b| - 2..] else b
  }

  /** Delivered NALs, and the buffer left behind. */
  datatype Drained = Drained(nals: seq<bytes>, rest: bytes)

  /** Everything `feed` can deliver from a buffer, and what it must keep, ignoring the size cap. */
  function Drain(b: bytes): (r: Drained)
    ensures |r.rest| <= |b|
    decreases |b|
  {
    var i := Find(b, START3, 0);
    if i == -1 then Drained([], Tail2(b))
    else
      var j := Find(b, START3, i + 3);
      if j == -1 then Drained([], b[i..])
      else
        var d := Drain(b[j..]);
        Drained(NonEmpty(TrimZeros(b[i + 3..j])) + d.nals, d.rest)
  }

  /** The size cap: a start code followed by more than `max` bytes without a second one is dropped. */
  function Capped(rest: bytes, max: nat): bytes {
    if At(rest, START3, 0) && |rest| > max then [] else rest
  }

  /** The payload still open behind the buffered start code. */
  function Open(rest: bytes): seq<bytes> {
    if At(rest, START3, 0) then NonEmpty(rest[3..]) else []
  }

  /** The three ways one round of `feed` can go. */
  lemma DrainStep(b: bytes)
    ensures
      var i := Find(b, START3, 0);
      if i == -1 then Drain(b) == Drained([], Tail2(b))
      else
        && i + 3 <= |b|
        && var j := Find(b, START3, i + 3);
        if j == -1 then Drain(b) == Drained([], b[i..])
        else
          && i + 3 <= j && j + 3 <= |b|
          && var d := Drain(b[j..]);
          Drain(b) == Drained(NonEmpty(TrimZeros(b[i + 3..j])) + d.nals, d.rest)
  {
  }

  lemma DrainShifted(s: bytes, d: nat, i: nat, j: nat)
    requires d <= |s|
    requires Find(s[d..], START3, 0) == i && Find(s[d..], START3, i + 3) == j
    requires Find(s, START3, 0) == d + i && Find(s, START3, d + i + 3) == d + j
    ensures Drain(s[d..]) == Drain(s)
  {
    hide *;
    var t := s[d..];
    DrainStep(t);
    DrainStep(s);
    SliceOfSuffix(s, d, i + 3, j);
    SliceOfSuffix(s, d, j, j);
    assert t[i + 3..j] == s[d + i + 3..d + j];
    assert t[j..] == s[d + j..];
  }

  lemma SameTail(s: bytes, d: nat)
    requires d == 0 || d + 2 <= |s|
    ensures Tail2(s[d..]) == Tail2(s)
  {
  }

  /** Bytes before the first start code never matter, as long as two of the bytes before it stay. */
  lemma DrainSuffix(s: bytes, d: nat)
    requires d == 0 || d + 2 <= |s|
    requires forall k :: 0 <= k < d ==> !At(s, START3, k)
    ensures Drain(s[d..]) == Drain(s)
  {
    hide *;
    var t := s[d..];
    FindSuffix(s, START3, d);
    DrainStep(t);
    DrainStep(s);
    var i := Find(t, START3, 0);
    if i == -1 {
      SameTail(s, d);
    } else {
      assert Find(s, START3, 0) == d + i;
      FindShift(s, START3, d, i + 3);
      var j := Find(t, START3, i + 3);
      if j == -1 {
        assert t[i..] == s[d + i..];
      } else {
        DrainShifted(s, d, i, j);
      }
    }
  }

  /** Draining early and going on with the rest is draining everything at once. */
  lemma {:induction false} DrainResumes(s: bytes, t: bytes)
    ensures
      var early, late := Drain(s), Drain(Drain(s).rest + t);
      Drain(s + t) == Drained(early.nals + late.nals, late.rest)
    decreases |s|
  {
    hide *;
    FindAppend(s, START3, t);
    DrainStep(s);
    var late := Drain(Drain(s).rest + t);
    Neutral(late.nals);
    var i := Find(s, START3, 0);
    if i == -1 {
      var d := if |s| > 2 then |s| - 2 else 0;
      assert |START3| == 3 by { PatternLengths(); }
      DrainSuffix(s + t, d);
      Tail2Is(s);
      SliceOfAppend(s, t, d, d);
    } else {
      var j := Find(s, START3, i + 3);
      if j == -1 {
        DrainSuffix(s + t, i);
        SliceOfAppend(s, t, i, i);
      } else {
        FindAppendFrom(s, START3, t, i + 3);
        DrainResumes(s[j..], t);
        SliceOfAppend(s, t, j, j);
        SliceOfAppend(s, t, i + 3, j);
        DrainStep(s + t);
        Associative(NonEmpty(TrimZeros(s[i + 3..j])), Drain(s[j..]).nals, late.nals);
      }
    }
  }

  lemma PatternLengths()
    ensures |START3| == 3 && |START4| == 4
  {
  }

  lemma Tail2Is(s: bytes)
    ensures Tail2(s) == s[if |s| > 2 then |s| - 2 else 0..]
  {
  }

  /** The drained NALs and the open one are what the batch splitter finds. */
  lemma {:induction false} DrainIsNalsOf(s: bytes)
    ensures Drain(s).nals + Open(Drain(s).rest) == NalsOf(s)
    decreases |s|
  {
    hide Drain, Find, TrimZeros, NalsOf, Units, NonEmpty, Open, At;
    DrainStep(s);
    NalsStep(s);
    Tail2Is(s);
    var i := Find(s, START3, 0);
    if i == -1 {
      OpenIs(Drain(s).rest);
    } else {
      UnitsAt(s, i + 3);
      var j := Find(s, START3, i + 3);
      if j == -1 {
        assert s[i..][3..] == s[i + 3..];
        FindSuffix(s, START3, i);
        OpenIs(s[i..]);
      } else {
        var rest := s[j..];
        DrainIsNalsOf(rest);
        FindSuffix(s, START3, j);
        NalsStep(rest);
        assert rest[3..] == s[j + 3..];
        Associative(NonEmpty(TrimZeros(s[i + 3..j])), Drain(rest).nals, Open(Drain(rest).rest));
      }
    }
  }

  lemma NalsStep(s: bytes)
    ensures
      var i := Find(s, START3, 0);
      if i == -1 then NalsOf(s) == []
      else i + 3 <= |s| && NalsOf(s) == Units(s[i + 3..])
  {
  }

  lemma OpenIs(rest: bytes)
    ensures At(rest, START3, 0) ==> |rest| >= 3 && Open(rest) == NonEmpty(rest[3..])
    ensures |rest| <= 2 ==> Open(rest) == []
  {
  }

  /** All `feed` calls of one splitter in a row: the concatenated results and the final buffer. */
  function FeedAll(buf: bytes, chunks: seq<bytes>, max: nat): Drained
    decreases |chunks|
  {
    if chunks == [] then Drained([], buf)
    else
      var d := Drain(buf + chunks[0]);
      var later := FeedAll(Capped(d.rest, max), chunks[1..], max);
      Drained(d.nals + later.nals, later.rest)
  }

  /** What is kept is more than a tail, and longer than allowed. */
  predicate TooLong(rest: bytes, max: nat) {
    |rest| > 2 && |rest| > max
  }

  /** Exactly then it is dropped. */
  lemma CappedIff(rest: bytes, max: nat)
    requires |rest| <= 2 || At(rest, START3, 0)
    ensures Capped(rest, max) == if TooLong(rest, max) then [] else rest
  {
  }

  /** The first `n` chunks leave a residue that the cap lets pass. */
  predicate NoDropAt(chunks: seq<bytes>, n: nat, max: nat)
    requires n <= |chunks|
  {
    !TooLong(Drain(Flatten(chunks[..n])).rest, max)
  }

  /** No prefix of the chunks leaves a residue that the size cap drops. */
  predicate NeverRunsAway(chunks: seq<bytes>, max: nat) {
    forall n :: 0 <= n <= |chunks| ==> NoDropAt(chunks, n, max)
  }

  lemma {:induction false} FeedAllIsDrain(seen: seq<bytes>, chunks: seq<bytes>, max: nat)
    requires NeverRunsAway(seen + chunks, max)
    ensures
      var before, whole := Drain(Flatten(seen)), Drain(Flatten(seen + chunks));
      var fed := FeedAll(before.rest, chunks, max);
      Drained(before.nals + fed.nals, fed.rest) == whole
    decreases |chunks|
  {
    if chunks == [] {
      assert seen + chunks == seen;
      assert Drain(Flatten(seen)).nals + [] == Drain(Flatten(seen)).nals;
    } else {
      var seen', c := seen + [chunks[0]], chunks[0];
      assert seen' + chunks[1..] == seen + chunks;
      assert (seen + chunks)[..|seen'|] == seen';
      assert NoDropAt(seen + chunks, |seen'|, max);
      FlattenAppend(seen, [c]);
      assert Flatten([c]) == c;
      DrainResumes(Flatten(seen), c);
      DrainKeeps(Flatten(seen'));
      CappedIff(Drain(Flatten(seen')).rest, max);
      FeedAllIsDrain(seen', chunks[1..], max);
      var before := Drain(Flatten(seen));
      var d := Drain(before.rest + c);
      Associative(before.nals, d.nals, FeedAll(d.rest, chunks[1..], max).nals);
    }
  }

  /**
   Chunking invariance: however a byte string is cut into chunks, feeding them delivers, together
   with the payload left open behind the buffered start code, exactly the batch splitter's NALs.
   */
  lemma ChunkingInvariance(chunks: seq<bytes>, max: nat)
    requires NeverRunsAway(chunks, max)
    ensures
      var fed := FeedAll([], chunks, max);
      fed.nals + Open(fed.rest) == NalsOf(Flatten(chunks))
  {
    hide *;
    Neutral(chunks);
    Neutral(FeedAll([], chunks, max).nals);
    DrainNothing();
    FeedAllIsDrain([], chunks, max);
    DrainIsNalsOf(Flatten(chunks));
  }

  lemma DrainNothing()
    ensures Flatten<byte>([]) == [] && Drain([]) == Drained([], [])
  {
  }

  /** What `Drain` keeps is two bytes at most or begins with a start code; so the cap bounds it. */
  lemma {:induction false} DrainKeeps(b: bytes)
    ensures |Drain(b).rest| <= 2 || At(Drain(b).rest, START3, 0)
    decreases |b|
  {
    var i := Find(b, START3, 0);
    if i != -1 {
      var j := Find(b, START3, i + 3);
      if j != -1 { DrainKeeps(b[j..]); }
    }
  }

  class AnnexBSplitter {
    var buf: bytes
    const max: nat

    constructor (maxNal: nat)
      ensures buf == [] && max == maxNal
    {
      buf, max := [], maxNal;
    }

    method Feed(data: bytes) returns (out: seq<bytes>)
      modifies this
      ensures out == Drain(old(buf) + data).nals
      ensures buf == Capped(Drain(old(buf) + data).rest, max)
      ensures |buf| <= if max > 2 then max else 2
    {
      buf := buf + data;
      out := [];
      hide Drain, Find, TrimZeros;
      ghost var whole := Drain(buf);
      DrainKeeps(buf);
      assert out + whole.nals == whole.nals;
      while true
        invariant whole == Drained(out + Drain(buf).nals, Drain(buf).rest)
        decreases |buf|
      {
        DrainStep(buf);
        var i := Find(buf, START3, 0);
        if i == -1 {
          if |buf| > 2 {
            buf := buf[|buf| - 2..];
          }
          return;
        }
        var j := Find(buf, START3, i + 3);
        if j == -1 {
          if i != 0 {
            buf := buf[i..];
          }
          if |buf| > max {
            buf := [];
          }
          return;
        }
        var end := TrimEnd(buf, i + 3, j);
        var nal := buf[i + 3..end];
        Associative(out, NonEmpty(nal), Drain(buf[j..]).nals);
        ghost var before := out;
        if nal != [] {
          out := out + [nal];
        }
        assert out == before + NonEmpty(nal);
        buf := buf[j..];
      }
    }
  }
}
