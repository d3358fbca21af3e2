/** Byte strings, and the Python `bytes` operations the whole program relies on. */
module Bytes {

  type byte = b: int | 0 <= b < 256

  type bytes = seq<byte>

  /** What the program searches for: the 3-byte start code and the 4-byte frame magic. */
  type pattern = p: bytes | 0 < |p| <= 4 witness [0]

  /** The pattern `p` occurs in `s` at index `i`. */
  predicate At(s: bytes, p: pattern, i: int): (r: bool)
    ensures r ==> 0 <= i && i + |p| <= |s|
  {
    && 0 <= i && i + |p| <= |s|
    && s[i] == p[0]
    && (|p| > 1 ==> s[i + 1] == p[1])
    && (|p| > 2 ==> s[i + 2] == p[2])
    && (|p| > 3 ==> s[i + 3] == p[3])
  }

  lemma AtIsSlice(s: bytes, p: pattern, i: nat)
    requires i + |p| <= |s|
    ensures At(s, p, i) <==> s[i..i + |p|] == p
  {
    var t := s[i..i + |p|];
    assert forall k :: 0 <= k < |p| ==> t[k] == s[i + k];
  }

  /** `s.find(p, from)`: the first occurrence of `p` at or after `from`, or -1. */
  function Find(s: bytes, p: pattern, from: nat): (r: int)
    ensures r == -1 || (from <= r && r + |p| <= |s| && At(s, p, r))
    ensures forall k {:trigger At(s, p, k)} :: from <= k && (r == -1 || k < r) ==> !At(s, p, k)
    decreases |s| - from
  {
    if from + |p| > |s| then -1
    else if At(s, p, from) then from
    else Find(s, p, from + 1)
  }

  lemma AtSlice(s: bytes, p: pattern, lo: nat, hi: nat, k: nat)
    requires lo <= hi <= |s| && k + |p| <= hi - lo
    ensures At(s[lo..hi], p, k) <==> At(s, p, lo + k)
  {
  }

  lemma AtSuffix(s: bytes, p: pattern, d: nat, k: nat)
    requires d <= |s|
    ensures At(s[d..], p, k) <==> At(s, p, d + k)
  {
  }

  /** Searching a slice is searching the whole from `lo`, as long as the match fits the slice. */
  lemma FindSlice(s: bytes, p: pattern, lo: nat, hi: nat)
    requires lo <= hi <= |s|
    ensures
      var f := Find(s, p, lo);
      Find(s[lo..hi], p, 0) == if f == -1 || f + |p| > hi then -1 else f - lo
  {
    hide Find, At;
    var f, g := Find(s, p, lo), Find(s[lo..hi], p, 0);
    if f != -1 && f + |p| <= hi { AtSlice(s, p, lo, hi, f - lo); }
    if g != -1 { AtSlice(s, p, lo, hi, g); }
  }

  /** Searching from `d` is searching the suffix at `d`. */
  lemma FindSuffix(s: bytes, p: pattern, d: nat)
    requires d <= |s|
    ensures Find(s, p, d) == if Find(s[d..], p, 0) == -1 then -1 else d + Find(s[d..], p, 0)
  {
    FindSlice(s, p, d, |s|);
    assert s[d..|s|] == s[d..];
  }

  /** Searching a suffix from `from` is searching the whole from `d + from`. */
  lemma FindShift(s: bytes, p: pattern, d: nat, from: nat)
    requires d + from <= |s|
    ensures
      var f := Find(s, p, d + from);
      Find(s[d..], p, from) == if f == -1 then -1 else f - d
  {
    var f, g := Find(s, p, d + from), Find(s[d..], p, from);
    if f != -1 { assert At(s[d..], p, f - d); }
    if g != -1 { assert At(s, p, d + g); }
  }

  /** Text appended behind an occurrence leaves it the first one. */
  lemma FindAppend(s: bytes, p: pattern, t: bytes)
    ensures
      var f := Find(s + t, p, 0);
      Find(s, p, 0) == if f + |p| <= |s| then f else -1
  {
    FindSlice(s + t, p, 0, |s|);
    assert (s + t)[0..|s|] == s;
  }

  lemma FindAppendFrom(s: bytes, p: pattern, t: bytes, from: nat)
    requires from <= |s| && Find(s, p, from) != -1
    ensures Find(s + t, p, from) == Find(s, p, from)
  {
    FindSlice(s + t, p, from, |s|);
    FindSuffix(s, p, from);
    assert (s + t)[from..|s|] == s[from..];
  }

  // ---------- Sequence algebra, one fact a lemma so that proofs can pick ----------

  lemma SliceOfSuffix<T>(s: seq<T>, d: nat, lo: nat, hi: nat)
    requires d + lo <= d + hi <= |s|
    ensures s[d..][lo..hi] == s[d + lo..d + hi]
    ensures s[d..][lo..] == s[d + lo..]
  {
  }

  lemma SliceOfSlice<T>(s: seq<T>, lo: nat, hi: nat, a: nat, b: nat)
    requires a <= b && lo + b <= hi <= |s|
    ensures s[lo..hi][a..b] == s[lo + a..lo + b]
  {
    var t := s[lo..hi];
    forall k | 0 <= k < b - a
      ensures t[a..b][k] == s[lo + a..lo + b][k]
    {
      assert t[a..b][k] == t[a + k];
      assert t[a + k] == s[lo + (a + k)];
    }
  }

  lemma Associative<T>(a: seq<T>, b: seq<T>, c: seq<T>)
    ensures (a + b) + c == a + (b + c)
  {
  }

  lemma Neutral<T>(a: seq<T>)
    ensures [] + a == a && a + [] == a
  {
  }

  lemma SliceOfAppend<T>(a: seq<T>, b: seq<T>, lo: nat, hi: nat)
    requires lo <= hi <= |a|
    ensures (a + b)[lo..hi] == a[lo..hi]
    ensures (a + b)[lo..] == a[lo..] + b
  {
  }

  lemma SplitAppend<T>(a: seq<T>, b: seq<T>)
    ensures (a + b)[..|a|] == a && (a + b)[|a|..] == b
  {
  }

  function Flatten<T>(xs: seq<seq<T>>): seq<T> {
    if xs == [] then [] else xs[0] + Flatten(xs[1..])
  }

  lemma {:induction false} FlattenAppend<T>(xs: seq<seq<T>>, ys: seq<seq<T>>)
    ensures Flatten(xs + ys) == Flatten(xs) + Flatten(ys)
  {
    if xs == [] {
      Neutral(ys);
      Neutral(Flatten(ys));
    } else {
      FlattenAppend(xs[1..], ys);
      SliceOfAppend(xs, ys, 1, 1);
      Associative(xs[0], Flatten(xs[1..]), Flatten(ys));
    }
  }

  /** Unsigned little-endian and big-endian fields, as `struct` packs them. */
  function Le16(v: int): (r: bytes)
    requires 0 <= v < 0x1_0000
    ensures |r| == 2
  {
    [v % 256, v / 256]
  }

  function Le32(v: int): (r: bytes)
    requires 0 <= v < 0x1_0000_0000
    ensures |r| == 4
  {
    [v % 256, v / 256 % 256, v / 0x1_0000 % 256, v / 0x100_0000]
  }

  function Be16(v: int): (r: bytes)
    requires 0 <= v < 0x1_0000
    ensures |r| == 2
  {
    [v / 256, v % 256]
  }

  function Be32(v: int): (r: bytes)
    requires 0 <= v < 0x1_0000_0000
    ensures |r| == 4
  {
    [v / 0x100_0000, v / 0x1_0000 % 256, v / 256 % 256, v % 256]
  }

  function ReadLe16(s: bytes): (v: int)
    requires |s| == 2
    ensures 0 <= v < 0x1_0000
  {
    s[0] as int + 256 * s[1] as int
  }

  function ReadLe32(s: bytes): (v: int)
    requires |s| == 4
    ensures 0 <= v < 0x1_0000_0000
  {
    s[0] as int + 256 * s[1] as int + 0x1_0000 * s[2] as int + 0x100_0000 * s[3] as int
  }

  function ReadBe16(s: bytes): (v: int)
    requires |s| == 2
    ensures 0 <= v < 0x1_0000
  {
    256 * s[0] as int + s[1] as int
  }

  function ReadBe32(s: bytes): (v: int)
    requires |s| == 4
    ensures 0 <= v < 0x1_0000_0000
  {
    0x100_0000 * s[0] as int + 0x1_0000 * s[1] as int + 256 * s[2] as int + s[3] as int
  }

  /** The value of a string of bytes, the first one worth least. */
  function LittleEndian(s: bytes): int {
    if s == [] then 0 else s[0] as int + 0x100 * LittleEndian(s[1..])
  }

  /** The same with the last one worth least. */
  function BigEndian(s: bytes): int {
    if s == [] then 0 else 0x100 * BigEndian(s[..|s| - 1]) + s[|s| - 1] as int
  }

  lemma TwoDigits(a: byte, b: byte)
    ensures LittleEndian([a, b]) == a as int + 0x100 * b as int
    ensures BigEndian([a, b]) == 0x100 * a as int + b as int
  {
    assert [a, b][1..] == [b] && [b][1..] == [];
    assert LittleEndian([b]) == b as int;
    assert [a, b][..1] == [a] && [a][..0] == [];
    assert BigEndian([a]) == a as int;
  }

  lemma FourDigits(s: bytes)
    requires |s| == 4
    ensures LittleEndian(s) == LittleEndian(s[..2]) + 0x1_0000 * LittleEndian(s[2..])
    ensures BigEndian(s) == 0x1_0000 * BigEndian(s[..2]) + BigEndian(s[2..])
  {
    var lo, hi := s[..2], s[2..];
    assert lo == [s[0], s[1]] && hi == [s[2], s[3]];
    TwoDigits(s[0], s[1]);
    TwoDigits(s[2], s[3]);
    assert s[1..][1..] == hi && s[..3][..2] == lo;
  }

  /** The fields are the byte orders they are named for. */
  lemma FieldsAreDigits(v: int)
    ensures 0 <= v < 0x1_0000 ==> LittleEndian(Le16(v)) == BigEndian(Be16(v)) == v
    ensures 0 <= v < 0x1_0000_0000 ==> LittleEndian(Le32(v)) == BigEndian(Be32(v)) == v
  {
    hide LittleEndian, BigEndian;
    if 0 <= v < 0x1_0000 {
      TwoDigits(v % 0x100, v / 0x100);
      TwoDigits(v / 0x100, v % 0x100);
    }
    if 0 <= v < 0x1_0000_0000 {
      hide Le32, Be32;
      LittleIsDigits(v);
      BigIsDigits(v);
      SplitDigits(v);
    }
  }

  lemma SplitDigits(v: int)
    ensures
      v ==
      v % 0x100 + 0x100 * (v / 0x100 % 0x100) + 0x1_0000 * (v / 0x1_0000 % 0x100) + 0x100_0000 * (v / 0x100_0000)
  {
  }

  lemma LittleIsDigits(v: int)
    requires 0 <= v < 0x1_0000_0000
    ensures
      LittleEndian(Le32(v)) ==
      v % 0x100 + 0x100 * (v / 0x100 % 0x100) + 0x1_0000 * (v / 0x1_0000 % 0x100) + 0x100_0000 * (v / 0x100_0000)
  {
    hide LittleEndian, BigEndian;
    var s := Le32(v);
    FourDigits(s);
    assert s[..2] == [s[0], s[1]] && s[2..] == [s[2], s[3]];
    TwoDigits(s[0], s[1]);
    TwoDigits(s[2], s[3]);
  }

  lemma BigIsDigits(v: int)
    requires 0 <= v < 0x1_0000_0000
    ensures
      BigEndian(Be32(v)) ==
      v % 0x100 + 0x100 * (v / 0x100 % 0x100) + 0x1_0000 * (v / 0x1_0000 % 0x100) + 0x100_0000 * (v / 0x100_0000)
  {
    hide LittleEndian, BigEndian;
    var s := Be32(v);
    FourDigits(s);
    assert s[..2] == [s[0], s[1]] && s[2..] == [s[2], s[3]];
    TwoDigits(s[0], s[1]);
    TwoDigits(s[2], s[3]);
  }

  lemma FieldsRoundTrip(v: int)
    ensures 0 <= v < 0x1_0000 ==> ReadLe16(Le16(v)) == v && ReadBe16(Be16(v)) == v
    ensures 0 <= v < 0x1_0000_0000 ==> ReadLe32(Le32(v)) == v && ReadBe32(Be32(v)) == v
  {
  }
}
