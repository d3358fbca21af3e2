/** Bit strings, the Exp-Golomb codes of section 9.1 of ITU-T Rec. H.264, and `_BitReader`. */
module Bits {
  import opened Arithmetic
  import opened Bytes
  import opened Results

  type bit = b: int | 0 <= b < 2

  type bits = seq<bit>

  // ---------- Binary numbers ----------

  function Pow2(n: nat): (p: nat)
    ensures p > 0
  {
    if n == 0 then 1 else 2 * Pow2(n - 1)
  }

  /** The big-endian value of a bit string. */
  function Value(b: bits): nat {
    if b == [] then 0 else 2 * Value(b[..|b| - 1]) + b[|b| - 1]
  }

  /** `v` in `n` bits, most significant first. */
  function ToBits(v: nat, n: nat): (b: bits)
    ensures |b| == n
  {
    if n == 0 then [] else ToBits(v / 2, n - 1) + [v % 2]
  }

  lemma {:induction false} ValueOfToBits(v: nat, n: nat)
    requires v < Pow2(n)
    ensures Value(ToBits(v, n)) == v
  {
    if n > 0 {
      ValueOfToBits(v / 2, n - 1);
      assert ToBits(v, n)[..n - 1] == ToBits(v / 2, n - 1);
    }
  }

  lemma {:induction false} ToBitsOfValue(b: bits)
    ensures Value(b) < Pow2(|b|) && ToBits(Value(b), |b|) == b
  {
    if b != [] { ToBitsOfValue(b[..|b| - 1]); }
  }

  function Zeros(n: nat): bits {
    seq(n, i => 0)
  }

  // ---------- Bytes as bits ----------

  function BitsOf(data: bytes): (b: bits)
    ensures |b| == 8 * |data|
  {
    if data == [] then [] else ToBits(data[0], 8) + BitsOf(data[1..])
  }

  lemma {:induction false} ToBitsAt(v: nat, n: nat, k: nat)
    requires k < n
    ensures ToBits(v, n)[k] == v / Pow2(n - 1 - k) % 2
  {
    if k < n - 1 {
      ToBitsAt(v / 2, n - 1, k);
      DivDiv(v, Pow2(n - 2 - k));
    }
  }

  lemma DivDiv(v: nat, p: nat)
    requires p > 0
    ensures v / 2 / p == v / (2 * p)
  {
    var q, r := Quotient(v, 2 * p);
    TwiceProduct(p, q);
    HalfSum(v, p * q, r);
    DivUnique(v / 2, p, q, r / 2);
  }

  lemma HalfSum(v: nat, m: nat, r: nat)
    requires v == 2 * m + r
    ensures v / 2 == m + r / 2
  {
  }

  /** Bit `i` of the string is what `_BitReader.bit` extracts with shifts and masks. */
  lemma {:induction false} BitsOfAt(data: bytes, i: nat)
    requires i < 8 * |data|
    ensures BitsOf(data)[i] == data[i / 8] / Pow2(7 - i % 8) % 2
    decreases |data|
  {
    if i < 8 {
      ToBitsAt(data[0], 8, i);
    } else {
      BitsOfAt(data[1..], i - 8);
      hide ToBits, BitsOf, Pow2;
      assert i / 8 == (i - 8) / 8 + 1 && i % 8 == (i - 8) % 8;
    }
  }

  /** Whole bytes of bits, packed. */
  function Pack(b: bits): bytes
    requires |b| % 8 == 0
    decreases |b|
  {
    if b == [] then [] else [ByteOf(b[..8])] + Pack(b[8..])
  }

  function ByteOf(b: bits): (v: byte)
    requires |b| == 8
    ensures ToBits(v, 8) == b
  {
    ToBitsOfValue(b);
    assert Pow2(8) == 256 by { assert Pow2(4) == 16; }
    Value(b)
  }

  lemma {:induction false} BitsOfPack(b: bits)
    requires |b| % 8 == 0
    ensures BitsOf(Pack(b)) == b
    decreases |b|
  {
    if b != [] {
      BitsOfPack(b[8..]);
      var v, rest := ByteOf(b[..8]), Pack(b[8..]);
      assert ([v] + rest)[1..] == rest;
      assert b[..8] + b[8..] == b;
    }
  }

  // ---------- Parsers on the bits that remain ----------

  datatype Parsed<+T> = Parsed(value: T, rest: bits)

  function PBit(s: bits): Result<Parsed<bit>> {
    if s == [] then Failure(OutOfData) else Success(Parsed(s[0], s[1..]))
  }

  function PBits(s: bits, n: nat): Result<Parsed<nat>> {
    if |s| < n then Failure(OutOfData) else Success(Parsed(Value(s[..n]), s[n..]))
  }

  /** The largest code number that 31 leading zeros can announce. */
  const MAX_CODE: nat := 0xFFFF_FFFE

  /** `ue`, after `zeros` leading zero bits. */
  function UeFrom(s: bits, zeros: nat): Result<Parsed<nat>>
    decreases |s|
  {
    var Parsed(b, s1) :- PBit(s);
    if b == 0 then
      if zeros + 1 > 31 then Failure(InvalidCode) else UeFrom(s1, zeros + 1)
    else
      var Parsed(v, s2) :- PBits(s1, zeros);
      Success(Parsed(Pow2(zeros) - 1 + v, s2))
  }

  function PUe(s: bits): Result<Parsed<nat>> {
    UeFrom(s, 0)
  }

  function SeOf(code: nat): int {
    if code % 2 == 1 then (code + 1) / 2 else -(code / 2)
  }

  function PSe(s: bits): Result<Parsed<int>> {
    var Parsed(code, s1) :- PUe(s);
    Success(Parsed(SeOf(code), s1))
  }

  // ---------- The encodings of section 9.1 ----------

  /** The integer logarithm: the number of leading zeros in the code of `w - 1`. */
  function Log2(w: nat): (k: nat)
    requires w > 0
    ensures Pow2(k) <= w < Pow2(k + 1)
  {
    if w == 1 then 0 else Log2(w / 2) + 1
  }

  function EncUe(code: nat): bits {
    var k := Log2(code + 1);
    Zeros(k) + ([1] + ToBits(code + 1 - Pow2(k), k))
  }

  /** Section 9.1.1: positive values take the odd codes, the others the even ones. */
  function CodeOf(v: int): nat {
    if v > 0 then 2 * v - 1 else -2 * v
  }

  function EncSe(v: int): bits {
    EncUe(CodeOf(v))
  }

  lemma {:induction false} PowMonotone(a: nat, b: nat)
    requires a <= b
    ensures Pow2(a) <= Pow2(b)
    decreases b
  {
    if a < b { PowMonotone(a, b - 1); }
  }

  lemma Pow2Step(n: nat)
    ensures Pow2(n + 1) == 2 * Pow2(n)
  {
  }

  lemma Log2Unique(w: nat, k: nat)
    requires Pow2(k) <= w < Pow2(k + 1)
    ensures w > 0 && Log2(w) == k
  {
    if Log2(w) < k { PowMonotone(Log2(w) + 1, k); }
    if k < Log2(w) { PowMonotone(k + 1, Log2(w)); }
  }

  lemma Pow2Of32()
    ensures Pow2(32) == 0x1_0000_0000
  {
    assert Pow2(4) == 16;
    assert Pow2(8) == 256;
    assert Pow2(12) == 0x1000;
    assert Pow2(16) == 0x1_0000;
    assert Pow2(20) == 0x10_0000;
    assert Pow2(24) == 0x100_0000;
    assert Pow2(28) == 0x1000_0000;
  }

  lemma {:induction false} UeBehindZeros(n: nat, t: bits, zeros: nat)
    requires n + zeros <= 31
    ensures UeFrom(Zeros(n) + t, zeros) == UeFrom(t, zeros + n)
    decreases n
  {
    if n == 0 {
      assert Zeros(0) + t == t;
    } else {
      var s := Zeros(n) + t;
      assert s[1..] == Zeros(n - 1) + t;
      UeBehindZeros(n - 1, t, zeros + 1);
    }
  }

  /** Decoding undoes encoding, whatever follows, and takes exactly twice the zeros and one more bit. */
  lemma UeOfEncUe(code: nat, rest: bits)
    requires code <= MAX_CODE
    ensures PUe(EncUe(code) + rest) == Success(Parsed(code, rest))
    ensures |EncUe(code)| == 2 * Log2(code + 1) + 1
  {
    hide Value, ToBits, Pow2, Log2, UeFrom;
    var k := Log2(code + 1);
    if k > 31 { PowMonotone(32, k); Pow2Of32(); }
    Pow2Step(k);
    var tail := ToBits(code + 1 - Pow2(k), k);
    ValueOfToBits(code + 1 - Pow2(k), k);
    Associative(Zeros(k), [1] + tail, rest);
    Associative([1], tail, rest);
    UeBehindZeros(k, [1] + (tail + rest), 0);
    UeStep(1, tail + rest, k);
    SplitAppend(tail, rest);
  }

  lemma CodeOfTail(tail: bits, code: nat)
    requires |tail| <= 31 && code + 1 == Pow2(|tail|) + Value(tail)
    ensures code <= MAX_CODE && EncUe(code) == Zeros(|tail|) + ([1] + tail)
  {
    hide Value, ToBits, Pow2, Log2, Zeros;
    var k := |tail|;
    ToBitsOfValue(tail);
    Pow2Step(k);
    Log2Unique(code + 1, k);
    PowMonotone(k + 1, 32);
    Pow2Of32();
  }

  lemma UeStep(b: bit, s: bits, zeros: nat)
    ensures
      UeFrom([b] + s, zeros) ==
      if b == 0 then if zeros + 1 > 31 then Failure(InvalidCode) else UeFrom(s, zeros + 1)
      else if |s| < zeros then Failure(OutOfData)
      else Success(Parsed(Pow2(zeros) - 1 + Value(s[..zeros]), s[zeros..]))
  {
    hide Value, Pow2;
    assert ([b] + s)[1..] == s;
  }

  lemma UeOfNothing(zeros: nat)
    ensures UeFrom([], zeros) == Failure(OutOfData)
  {
  }

  lemma ZerosShift(n: nat, t: bits)
    ensures Zeros(n) + ([0] + t) == Zeros(n + 1) + t
  {
  }

  /** A run of the decoder that succeeds has read the one code of its result. */
  lemma {:induction false} UeReadsCode(s: bits, zeros: nat)
    requires zeros <= 31 && UeFrom(s, zeros).Success?
    ensures
      var Parsed(code, rest) := UeFrom(s, zeros).value;
      code <= MAX_CODE && Zeros(zeros) + s == EncUe(code) + rest
    decreases |s|
  {
    hide UeFrom, EncUe, Zeros, Value;
    UeOfNothing(zeros);
    var b, t := s[0], s[1..];
    assert s == [b] + t;
    UeStep(b, t, zeros);
    if b == 0 {
      UeReadsCode(t, zeros + 1);
      ZerosShift(zeros, t);
    } else {
      CodeOfTail(t[..zeros], UeFrom(s, zeros).value.value);
      hide *;
      assert t[..zeros] + t[zeros..] == t;
      Associative(Zeros(zeros), [1] + t[..zeros], t[zeros..]);
      Associative([1], t[..zeros], t[zeros..]);
    }
  }

  /** `ue` accepts exactly the section 9.1 codes of the numbers up to 2^32 - 2. */
  lemma UeIffCode(s: bits, code: nat, rest: bits)
    ensures PUe(s) == Success(Parsed(code, rest)) <==> code <= MAX_CODE && s == EncUe(code) + rest
  {
    if PUe(s) == Success(Parsed(code, rest)) {
      UeReadsCode(s, 0);
      assert Zeros(0) + s == s;
    }
    if code <= MAX_CODE { UeOfEncUe(code, rest); }
  }

  /** How many zero bits a string begins with. */
  function LeadingZeros(s: bits): nat {
    if s == [] || s[0] == 1 then 0 else 1 + LeadingZeros(s[1..])
  }

  lemma {:induction false} InvalidFrom(s: bits, zeros: nat)
    requires zeros <= 31
    ensures UeFrom(s, zeros) == Failure(InvalidCode) <==> zeros + LeadingZeros(s) > 31
    decreases |s|
  {
    if s != [] && s[0] == 0 && zeros < 31 { InvalidFrom(s[1..], zeros + 1); }
  }

  /** `ue` calls a code invalid exactly behind 32 zero bits; every other failure is the end of the data. */
  lemma InvalidIff(s: bits)
    ensures PUe(s) == Failure(InvalidCode) <==> LeadingZeros(s) >= 32
  {
    InvalidFrom(s, 0);
  }

  /** The signed mapping is a bijection. */
  lemma SeBijection(v: int, code: nat)
    ensures SeOf(CodeOf(v)) == v && CodeOf(SeOf(code)) == code
  {
  }

  lemma SeOfEncSe(v: int, rest: bits)
    requires -0x7FFF_FFFF <= v <= 0x7FFF_FFFF
    ensures PSe(EncSe(v) + rest) == Success(Parsed(v, rest))
  {
    hide PUe, EncUe;
    SeBijection(v, 0);
    UeOfEncUe(CodeOf(v), rest);
  }

  lemma BitsOfToBits(v: nat, n: nat, rest: bits)
    requires v < Pow2(n)
    ensures PBits(ToBits(v, n) + rest, n) == Success(Parsed(v, rest))
  {
    ValueOfToBits(v, n);
    SplitAppend(ToBits(v, n), rest);
  }

  lemma BitOfCons(b: bit, rest: bits)
    ensures PBit([b] + rest) == Success(Parsed(b, rest))
  {
  }

  // ---------- The reader ----------

  class BitReader {
    const data: bytes
    var pos: nat

    constructor (bytes: bytes)
      ensures data == bytes && pos == 0
      ensures Valid() && Remaining() == BitsOf(bytes)
    {
      data, pos := bytes, 0;
    }

    ghost predicate Valid()
      reads this
    {
      pos <= 8 * |data|
    }

    ghost function Remaining(): bits
      requires Valid()
      reads this
    {
      BitsOf(data)[pos..]
    }

    /** What a read begun at `start` promises: it has done what the parser outcome `p` says. */
    ghost predicate Reads<T>(start: nat, p: Result<Parsed<T>>, r: Result<T>)
      reads this
    {
      && Valid() && start <= pos
      && match p
         case Success(q) => r == Success(q.value) && Remaining() == q.rest
         case Failure(e) => r == Failure(e)
    }

    method Bit() returns (r: Result<bit>)
      requires Valid()
      modifies this
      ensures Reads(old(pos), PBit(old(Remaining())), r)
      ensures r.Success? ==> pos == old(pos) + 1
    {
      if pos / 8 >= |data| {
        return Failure(OutOfData);
      }
      BitsOfAt(data, pos);
      var b := data[pos / 8] / Pow2(7 - pos % 8) % 2;
      pos := pos + 1;
      return Success(b);
    }

    method Bits(n: nat) returns (r: Result<nat>)
      requires Valid()
      modifies this
      ensures Reads(old(pos), PBits(old(Remaining()), n), r)
    {
      ghost var s := Remaining();
      var v: nat := 0;
      for i := 0 to n
        invariant Valid() && old(pos) <= pos
        invariant i <= |s| && v == Value(s[..i]) && Remaining() == s[i..]
      {
        var b :- Bit();
        assert s[..i + 1][..i] == s[..i];
        v := 2 * v + b as int;
      }
      return Success(v);
    }

    method Ue() returns (r: Result<nat>)
      requires Valid()
      modifies this
      ensures Reads(old(pos), PUe(old(Remaining())), r)
    {
      hide UeFrom, BitsOf, Value;
      ghost var s := Remaining();
      UeOfNothing(0);
      var zeros := 0;
      var b :- Bit();
      assert s == [b] + Remaining();
      while b == 0
        invariant Valid() && old(pos) < pos && zeros <= 31
        invariant UeFrom(s, 0) == UeFrom([b] + Remaining(), zeros)
        decreases |Remaining()|
      {
        UeStep(b, Remaining(), zeros);
        zeros := zeros + 1;
        if zeros > 31 {
          return Failure(InvalidCode);
        }
        ghost var t := Remaining();
        UeOfNothing(zeros);
        b :- Bit();
        assert t == [b] + Remaining();
      }
      UeStep(b, Remaining(), zeros);
      var v :- Bits(zeros);
      return Success(Pow2(zeros) - 1 + v);
    }

    method Se() returns (r: Result<int>)
      requires Valid()
      modifies this
      ensures Reads(old(pos), PSe(old(Remaining())), r)
    {
      var k :- Ue();
      var v: int := if k % 2 == 1 then (k + 1) / 2 else -(k as int / 2);
      return Success(v);
    }
  }
}
