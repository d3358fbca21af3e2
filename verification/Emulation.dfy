/** Emulation prevention, section 7.4.1 of ITU-T Rec. H.264, and its survival through Annex-B framing. */
module Emulation {
  import opened Bytes
  import opened AnnexB

  /** `rbsp.replace(00 00 03, 00 00)`: left to right, without overlaps. */
  function Strip(s: bytes): bytes {
    if |s| >= 3 && s[0] == 0 && s[1] == 0 && s[2] == 3 then [0, 0] + Strip(s[3..])
    else if s != [] then [s[0]] + Strip(s[1..])
    else []
  }

  /** The standard's decoder: it counts zero bytes, up to two, and discards a 03 that follows two. */
  function Decode(s: bytes, zeros: nat): bytes
    requires zeros <= 2
  {
    if s == [] then []
    else if zeros == 2 && s[0] == 3 then Decode(s[1..], 0)
    else [s[0]] + Decode(s[1..], NextZeros(s[0], zeros))
  }

  function NextZeros(b: byte, zeros: nat): (n: nat)
    ensures n <= 2
  {
    if b != 0 then 0 else if zeros >= 1 then 2 else 1
  }

  /** The standard's encoder: a 03 goes before a byte up to 03 that follows two zeros, and behind two final zeros. */
  function Insert(rbsp: bytes, zeros: nat): bytes
    requires zeros <= 2
  {
    if rbsp == [] then if zeros == 2 then [3] else []
    else if zeros == 2 && rbsp[0] <= 3 then [3, rbsp[0]] + Insert(rbsp[1..], NextZeros(rbsp[0], 0))
    else [rbsp[0]] + Insert(rbsp[1..], NextZeros(rbsp[0], zeros))
  }

  lemma StripStep(s: bytes)
    ensures
      Strip(s) ==
      if |s| >= 3 && s[0] == 0 && s[1] == 0 && s[2] == 3 then [0, 0] + Strip(s[3..])
      else if s != [] then [s[0]] + Strip(s[1..])
      else []
  {
  }

  lemma StripCons(b: byte, t: bytes)
    ensures !(b == 0 && |t| >= 2 && t[0] == 0 && t[1] == 3) ==> Strip([b] + t) == [b] + Strip(t)
    ensures Strip([0, 0, 3] + t) == [0, 0] + Strip(t)
  {
    hide Strip;
    StripStep([b] + t);
    StripStep([0, 0, 3] + t);
    SplitAppend([b], t);
    SplitAppend([0, 0, 3], t);
  }

  lemma DecodeCons(b: byte, t: bytes)
    ensures
      forall zeros: nat :: zeros <= 2 ==>
        Decode([b] + t, zeros) ==
        if zeros == 2 && b == 3 then Decode(t, 0) else [b] + Decode(t, NextZeros(b, zeros))
  {
    SplitAppend([b], t);
  }

  /** The replace and the decoder agree from each of the decoder's three states. */
  lemma {:induction false} StripFromState(s: bytes)
    ensures Strip(s) == Decode(s, 0)
    ensures Strip([0] + s) == [0] + Decode(s, 1)
    ensures Strip([0] + ([0] + s)) == [0] + ([0] + Decode(s, 2))
    decreases |s|
  {
    if s != [] {
      var b, t := s[0], s[1..];
      assert s == [b] + t;
      StripFromState(t);
      DecodeCons(b, t);
      hide Strip, Decode;
      StripCons(b, t);
      StripCons(0, s);
      StripCons(0, [0] + s);
      if b == 3 { assert [0] + ([0] + s) == [0, 0, 3] + t; }
      Associative([0], [0], Strip(t));
    }
  }

  /** On every input, the search-and-replace is the zero-counting decoder. */
  lemma StripIsDecode(s: bytes)
    ensures Strip(s) == Decode(s, 0)
  {
    StripFromState(s);
  }

  lemma {:induction false} DecodeInsert(rbsp: bytes, zeros: nat)
    requires zeros <= 2
    ensures Decode(Insert(rbsp, zeros), zeros) == rbsp
    decreases |rbsp|
  {
    if rbsp != [] {
      var b, rest := rbsp[0], rbsp[1..];
      if zeros == 2 && b <= 3 {
        var t := Insert(rest, NextZeros(b, 0));
        DecodeInsert(rest, NextZeros(b, 0));
        assert Insert(rbsp, zeros)[1..] == [b] + t;
        assert ([b] + t)[1..] == t;
      } else {
        DecodeInsert(rest, NextZeros(b, zeros));
      }
    }
  }

  /** Stripping undoes insertion on every RBSP. */
  lemma StripInsert(rbsp: bytes)
    ensures Strip(Insert(rbsp, 0)) == rbsp
  {
    StripIsDecode(Insert(rbsp, 0));
    DecodeInsert(rbsp, 0);
  }

  /** 00 00 followed by a byte below 03: the patterns section 7.4.1 forbids inside a NAL unit. */
  predicate ForbiddenAt(s: bytes, k: nat) {
    k + 2 < |s| && s[k] == 0 && s[k + 1] == 0 && s[k + 2] <= 2
  }

  /** The same as a scan that has seen `zeros` zero bytes. */
  predicate Safe(s: bytes, zeros: nat)
    requires zeros <= 2
  {
    s == [] || ((zeros == 2 ==> s[0] > 2) && Safe(s[1..], NextZeros(s[0], zeros)))
  }

  lemma {:induction false} SafeHasNoForbidden(s: bytes, zeros: nat, k: nat)
    requires zeros <= 2 && Safe(s, zeros)
    ensures !ForbiddenAt(s, k)
    decreases |s|
  {
    if s != [] {
      if k > 0 {
        SafeHasNoForbidden(s[1..], NextZeros(s[0], zeros), k - 1);
      } else if |s| >= 3 && s[0] == 0 && s[1] == 0 {
        assert s[1..][1..] == s[2..];
        assert Safe(s[2..], 2);
      }
    }
  }

  lemma {:induction false} InsertIsSafe(rbsp: bytes, zeros: nat)
    requires zeros <= 2
    ensures Safe(Insert(rbsp, zeros), zeros)
    decreases |rbsp|
  {
    if rbsp != [] {
      var b, rest := rbsp[0], rbsp[1..];
      if zeros == 2 && b <= 3 {
        var t := Insert(rest, NextZeros(b, 0));
        InsertIsSafe(rest, NextZeros(b, 0));
        assert Insert(rbsp, zeros)[1..] == [b] + t;
        assert ([b] + t)[1..] == t;
      } else {
        InsertIsSafe(rest, NextZeros(b, zeros));
      }
    }
  }

  lemma {:induction false} InsertKeepsLast(rbsp: bytes, zeros: nat)
    requires zeros <= 2 && rbsp != [] && rbsp[|rbsp| - 1] != 0
    ensures Insert(rbsp, zeros) != [] && Insert(rbsp, zeros)[|Insert(rbsp, zeros)| - 1] != 0
    decreases |rbsp|
  {
    if |rbsp| > 1 {
      InsertKeepsLast(rbsp[1..], NextZeros(rbsp[0], if zeros == 2 && rbsp[0] <= 3 then 0 else zeros));
    }
  }

  /** A NAL unit: header byte and RBSP. */
  datatype Unit = Unit(header: byte, rbsp: bytes)
  {
    function Nal(): bytes {
      [header] + Insert(rbsp, 0)
    }

    predicate Regular() {
      header != 0 && rbsp != [] && rbsp[|rbsp| - 1] != 0
    }
  }

  function Nals(units: seq<Unit>): seq<bytes> {
    seq(|units|, i requires 0 <= i < |units| => units[i].Nal())
  }

  lemma NalIsFramable(u: Unit)
    requires u.Regular()
    ensures Clean(u.Nal()) && u.Nal()[|u.Nal()| - 1] != 0
  {
    var t := Insert(u.rbsp, 0);
    InsertIsSafe(u.rbsp, 0);
    InsertKeepsLast(u.rbsp, 0);
    hide Find;
    var nal := [u.header] + t;
    var i := Find(nal, START3, 0);
    if i > 0 {
      SafeHasNoForbidden(t, 0, i - 1);
    }
  }

  /** RBSPs survive insertion, start-code framing, `iter_nals` and stripping. */
  lemma RbspsSurviveFraming(units: seq<Unit>)
    requires forall u :: u in units ==> u.Regular()
    ensures
      var parsed := NalsOf(Join(Nals(units)));
      |parsed| == |units| &&
      forall i :: 0 <= i < |units| ==>
        parsed[i] != [] && parsed[i][0] == units[i].header && Strip(parsed[i][1..]) == units[i].rbsp
  {
    forall i | 0 <= i < |units|
      ensures Clean(units[i].Nal()) && units[i].Nal()[|units[i].Nal()| - 1] != 0
      ensures units[i].Nal()[1..] == Insert(units[i].rbsp, 0) && Strip(Insert(units[i].rbsp, 0)) == units[i].rbsp
    {
      NalIsFramable(units[i]);
      StripInsert(units[i].rbsp);
    }
    NalsOfJoin(Nals(units));
  }
}
