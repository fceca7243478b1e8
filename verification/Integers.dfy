/** What numbers are on the wire, and which of them a field takes, in terms of arithmetic alone. */
module Integers {
  import opened Basics
  import opened Varint
  import opened Descriptors
  import opened Scalars

  predicate IntegerField(f: Field) {
    f.ltype.LVarint? || f.ltype.LUvarint? || f.ltype.LSvarint?
  }

  /** The number a 64-bit varint stands for, given the type of the field. */
  function Spelled(f: Field, u: nat): int {
    if f.ltype.LUvarint? then u
    else if f.ltype.LSvarint? then
      if u % 2 == 0 then u / 2 else -(u / 2) - 1
    else if f.dataSize == 8 then
      if u < 0x8000_0000_0000_0000 then u else u - 0x1_0000_0000_0000_0000
    else
      if u % 0x1_0000_0000 < 0x8000_0000 then u % 0x1_0000_0000 else u % 0x1_0000_0000 - 0x1_0000_0000
  }

  /** The number is one the variable can take. */
  predicate InRange(f: Field, n: int) {
    if f.ltype.LUvarint? then FitsUnsigned(n, f.dataSize) else FitsSigned(n, f.dataSize)
  }

  /** An integer of k bytes takes 256^k values. */
  lemma {:induction false} ModulusIs(width: nat)
    requires IntegerSize(width)
    ensures Modulus(width) == Pow2(8 * width)
  {
    assert Pow2(8) == 0x100 && Pow2(16) == 0x1_0000;
    hide Pow2;
    Pow2Values();
  }

  lemma {:induction false} FitsWhenKept(n: int, width: nat)
    requires IntegerSize(width)
    ensures ToSigned(n, width) == n <==> FitsSigned(n, width)
    ensures n >= 0 ==> (n % Modulus(width) == n <==> FitsUnsigned(n, width))
  {
    hide ToSigned;
    ToSignedValue(n, width);
  }

  /** The low 32 bits, as two's complement. */
  lemma {:induction false} LowHalf(u: nat)
    ensures ToSigned(u, 4) ==
            if u % 0x1_0000_0000 < 0x8000_0000 then u % 0x1_0000_0000 else u % 0x1_0000_0000 - 0x1_0000_0000
  {
  }

  lemma {:induction false} WholeWord(u: nat)
    requires u < TWO_64
    ensures ToSigned(u, 8) == if u < 0x8000_0000_0000_0000 then u else u - 0x1_0000_0000_0000_0000
  {
    hide ToSigned;
    ToSignedValue(u, 8);
  }

  lemma {:induction false} IntegerSpelled(f: Field, u: nat)
    requires IntegerField(f) && u < TWO_64
    ensures DecInteger(f, u) == if InRange(f, Spelled(f, u)) then Some(Spelled(f, u)) else None
  {
    hide ToSigned, UnZigZag;
    LowHalf(u);
    WholeWord(u);
    UnZigZagValue(u);
    if IntegerSize(f.dataSize) {
      FitsWhenKept(Spelled(f, u), f.dataSize);
    }
  }

  /**
   * An integer field takes a varint if and only if the number it stands for fits the variable, and
   * then holds that number; nothing is cut off silently, except that a signed field of less than
   * 64 bits reads the low 32 bits.
   */
  lemma {:induction false} IntegerRead(f: Field, s: seq<Byte>)
    requires IntegerField(f)
    ensures DecScalar(f, s).Read? <==> DecVarint(s).Read? && InRange(f, Spelled(f, DecVarint(s).val))
    ensures DecScalar(f, s).Read? ==> DecScalar(f, s) == Read(VInt(Spelled(f, DecVarint(s).val)), DecVarint(s).used)
  {
    hide DecVarint, DecInteger, Spelled, InRange;
    if DecVarint(s).Read? {
      IntegerSpelled(f, DecVarint(s).val);
    }
  }

  /** Negative numbers are sent as 64-bit two's complement, whatever the width of the field. */
  lemma {:induction false} IntegerSent(f: Field, n: int)
    requires IntegerField(f) && InRange(f, n)
    ensures EncScalar(f, VInt(n)) ==
            Some(VarintBytes(
              if f.ltype.LSvarint? then if n < 0 then -2 * n - 1 else 2 * n
              else if n < 0 then n + 0x1_0000_0000_0000_0000 else n))
  {
    hide VarintBytes, ZigZag;
    if f.ltype.LSvarint? {
      ZigZagValue(n);
    }
  }

  /** So int32 and int64 are the same on the wire: any width that can hold the number reads it. */
  lemma {:induction false} WidthsInterchange(f: Field, g: Field, n: int, t: seq<Byte>)
    requires IntegerField(f) && g.ltype == f.ltype && InRange(f, n) && InRange(g, n)
    ensures EncScalar(f, VInt(n)).Some? && EncScalar(f, VInt(n)) == EncScalar(g, VInt(n))
    ensures var b := EncScalar(f, VInt(n)).value; DecScalar(g, b + t) == Read(VInt(n), |b|)
  {
    hide VarintBytes, EncScalar, DecScalar;
    IntegerSent(f, n);
    IntegerSent(g, n);
    IntegerFieldRoundTrip(g, n, t);
  }

  /** A negative number takes ten bytes, unless the field is a zigzag one. */
  lemma {:induction false} NegativeTakesTen(f: Field, n: int)
    requires f.ltype.LVarint? && FitsSigned(n, f.dataSize) && n < 0
    ensures EncScalar(f, VInt(n)).Some? && |EncScalar(f, VInt(n)).value| == 10
  {
    hide VarintBytes, EncScalar;
    IntegerSent(f, n);
    hide Pow2;
    Pow2Values();
    Pow2Add(64, 6);
    VarintBytesMinimal(n + TWO_64, 9);
    VarintBytesMinimal(n + TWO_64, 8);
  }

  /** A varint is read if and only if it ends within ten bytes, as the number its groups spell modulo 2^64. */
  lemma {:induction false} VarintExact(s: seq<Byte>, n: nat)
    requires 0 < n <= |s| && AllContinue(s[..n - 1]) && s[n - 1] < 128
    ensures DecVarint(s) == if n <= 10 then Read(VarintVal(s[..n]) % 0x1_0000_0000_0000_0000, n) else Fail
  {
    VarintLenAt(s, n - 1);
  }

  /** A varint that does not end is not read by either decoder. */
  lemma {:induction false} VarintUnended(s: seq<Byte>)
    requires AllContinue(s)
    ensures DecVarint(s).Fail? && DecVarint32(s).Fail?
  {
    assert s[..|s|] == s;
    VarintLenNot(s, |s|);
    if s != [] {
      RestUnended(s[1..], 7, s[0] % 128);
    }
  }

  lemma {:induction false} RestUnended(s: seq<Byte>, bitpos: nat, result: nat)
    requires AllContinue(s)
    ensures DecVarint32Rest(s, bitpos, result).Fail?
    decreases |s|
  {
    hide Accumulate32;
    if s != [] {
      RestUnended(s[1..], (bitpos + 7) % 256, Accumulate32(result, s[0], bitpos));
    }
  }

  // ------------------------------------------------------------- bytes of a number

  /** The groups of a varint: byte i has bits 7i to 7i + 6, and its top bit says that more follow. */
  lemma {:induction false} VarintGroup(n: nat, i: nat)
    requires i < |VarintBytes(n)|
    ensures VarintBytes(n)[i] == n / Pow2(7 * i) % 128 + if i < |VarintBytes(n)| - 1 then 128 else 0
    decreases i
  {
    if i > 0 {
      VarintGroup(n / 128, i - 1);
      assert Pow2(7) == 128;
      Pow2Add(7, 7 * (i - 1));
      DivideTwice(n, 128, Pow2(7 * (i - 1)));
    } else if n < 128 {
      assert n / 1 % 128 == n;
    }
  }

  lemma {:induction false} DivideTwice(n: nat, p: nat, q: nat)
    requires p > 0 && q > 0
    ensures p * q > 0 && n / p / q == n / (p * q)
  {
    var a, r := n / p, n % p;
    TimesMono(1, p, q);
    Division(n, p);
    Division(a, q);
    TimesMono(a % q + 1, q, p);
    Regroup(a / q, p, q, a % q, r);
    QuotientIs(a / q, p * q, p * (a % q) + r);
  }

  lemma {:induction false} Regroup(b: nat, p: nat, q: nat, low: nat, r: nat)
    requires r < p && (low + 1) * p <= q * p
    ensures (b * q + low) * p + r == b * (p * q) + (p * low + r)
    ensures p * low + r < p * q
  {
    assert (low + 1) * p == p * low + p && q * p == p * q;
    assert (b * q + low) * p == b * q * p + low * p;
    assert b * q * p == b * (p * q);
  }

  /** Fixed-width numbers go least significant byte first. */
  lemma {:induction false} LittleEndianByte(n: nat, k: nat, i: nat)
    requires i < k
    ensures LittleEndian(n, k)[i] == n / Pow2(8 * i) % 256
    decreases i
  {
    if i > 0 {
      LittleEndianByte(n / 256, k - 1, i - 1);
      assert Pow2(8) == 256;
      Pow2Add(8, 8 * (i - 1));
      DivideTwice(n, 256, Pow2(8 * (i - 1)));
    }
  }

  /** Four bytes, least significant first. */
  function Word(b: seq<Byte>): nat
    requires |b| == 4
  {
    var n: seq<int> := b;
    n[0] + 0x100 * n[1] + 0x1_0000 * n[2] + 0x100_0000 * n[3]
  }

  /** Fixed-width numbers are read least significant byte first. */
  lemma {:induction false} FixedRead(f: Field, s: seq<Byte>)
    requires f.ltype.LFixed32? || f.ltype.LFixed64?
    ensures DecScalar(f, s).Read? <==> if f.ltype.LFixed32? then |s| >= 4 else |s| >= 8
    ensures f.ltype.LFixed32? && |s| >= 4 ==>
              DecScalar(f, s) == Read(VInt(Word(s[..4])), 4)
    ensures f.ltype.LFixed64? && |s| >= 8 ==>
              DecScalar(f, s) == Read(VInt(Word(s[..4]) + 0x1_0000_0000 * Word(s[4..8])), 8)
  {
    hide FromLittleEndian;
    if |s| >= 4 {
      FourBytes(s[..4], []);
      assert s[..4] + [] == s[..4] && FromLittleEndian([]) == 0 by { NoBytes(); }
    }
    if |s| >= 8 {
      FourBytes(s[..4], s[4..8]);
      FourBytes(s[4..8], []);
      assert s[..4] + s[4..8] == s[..8] && s[4..8] + [] == s[4..8];
    }
  }

  lemma {:induction false} NoBytes()
    ensures FromLittleEndian([]) == 0
  {
  }

  lemma {:induction false} FourBytes(b: seq<Byte>, t: seq<Byte>)
    requires |b| == 4
    ensures FromLittleEndian(b + t) ==
            Word(b) + 0x1_0000_0000 * FromLittleEndian(t)
  {
    FirstByte(b + t);
    FirstByte((b + t)[1..]);
    FirstByte((b + t)[2..]);
    FirstByte((b + t)[3..]);
    assert (b + t)[4..] == t;
    assert (b + t)[1..][1..] == (b + t)[2..] && (b + t)[2..][1..] == (b + t)[3..] && (b + t)[3..][1..] == (b + t)[4..];
    hide FromLittleEndian;
  }

  lemma {:induction false} FirstByte(s: seq<Byte>)
    requires s != []
    ensures FromLittleEndian(s) == s[0] + 256 * FromLittleEndian(s[1..])
  {
  }

  /** A bool is true for every number but zero that the 32-bit varint decoder reads. */
  lemma {:induction false} BoolRead(f: Field, s: seq<Byte>)
    requires f.ltype.LBool?
    ensures DecScalar(f, s).Read? <==> DecVarint32(s).Read?
    ensures DecScalar(f, s).Read? ==>
              && DecScalar(f, s).used == DecVarint32(s).used
              && DecScalar(f, s).val == if DecVarint32(s).val == 0 then VInt(0) else VInt(1)
  {
    hide DecVarint32;
  }

  // -------------------------------------------------------------------- runs of bytes

  /**
   * A bytes field takes what fits behind its length word, a string what leaves room for a
   * terminator, a field of fixed length exactly its length, or nothing, which stands for zeros.
   */
  lemma {:induction false} RunRead(f: Field, s: seq<Byte>)
    requires (f.ltype.LBytes? || f.ltype.LString? || f.ltype.LFixedLengthBytes?) && f.dataSize <= PB_SIZE_MAX
    ensures DecScalar(f, s).Read? <==>
            && DecVarint32(s).Read?
            && var size, k := DecVarint32(s).val, DecVarint32(s).used;
               && k + size <= |s|
               && (f.ltype.LBytes? ==> size + 4 <= f.dataSize)
               && (f.ltype.LString? ==> size < f.dataSize)
               && (f.ltype.LFixedLengthBytes? ==> size == f.dataSize || size == 0)
    ensures DecScalar(f, s).Read? ==>
            var size, k := DecVarint32(s).val, DecVarint32(s).used;
            && DecScalar(f, s).used == k + size && k + size <= |s|
            && DecScalar(f, s).val ==
               VBytes(if f.ltype.LFixedLengthBytes? && size == 0 then seq(f.dataSize, _ => 0) else s[k..k + size])
  {
    hide DecVarint32;
  }
}
