/** Base-128 varints: the byte strings, and what the two decoders read from one. */
module Varint {
  import opened Basics

  /** The base-128 form of n: seven bits a byte, least significant group first. */
  function VarintBytes(n: nat): (s: seq<Byte>)
    ensures |s| >= 1
  {
    if n < 128 then [n] else [n % 128 + 128] + VarintBytes(n / 128)
  }

  /** How many bytes the varint at the front of s takes; 0 when s ends inside it. */
  function VarintLen(s: seq<Byte>): (n: nat)
    ensures n <= |s|
  {
    if s == [] then 0
    else if s[0] < 128 then 1
    else var n := VarintLen(s[1..]); if n == 0 then 0 else n + 1
  }

  /** The number a group string stands for, before any truncation to a word. */
  function VarintVal(s: seq<Byte>): nat {
    if s == [] then 0 else s[0] % 128 + 128 * VarintVal(s[1..])
  }

  /** pb_decode_varint: at most ten bytes, truncated to 64 bits. */
  function DecVarint(s: seq<Byte>): (r: Parse<nat>)
    ensures r.Read? ==> 0 < r.used <= |s| && r.used <= 10 && r.val < TWO_64
  {
    var n := VarintLen(s);
    if n == 0 || n > 10 then Fail else Read(VarintVal(s[..n]) % TWO_64, n)
  }

  /** The byte that may extend a negative number at the given bit position. */
  function SignExtension(bitpos: nat): Byte {
    if bitpos < 63 then 0xFF else 0x01
  }

  /** OR the seven bits of b into a 32-bit accumulator; groups beyond bit 31 are dropped. */
  function Accumulate32(result: nat, b: Byte, bitpos: nat): nat {
    if bitpos >= 32 then result else BitOr(result, b % 128 * Pow2(bitpos) % TWO_32)
  }

  /**
   * The multi-byte part of pb_decode_varint32. The shift count is a uint_fast8_t,
   * eight bits wide, so it wraps on very long runs of continuation bytes.
   */
  function DecVarint32Rest(s: seq<Byte>, bitpos: nat, result: nat): (r: Parse<nat>)
    ensures r.Read? ==> 0 < r.used <= |s|
  {
    if s == [] then Fail
    else
      var b := s[0];
      if bitpos >= 32 && b % 128 != 0 && (result / TWO_31 == 0 || b != SignExtension(bitpos)) then Fail
      else
        var result' := Accumulate32(result, b, bitpos);
        var bitpos' := (bitpos + 7) % 256;
        if b >= 128 then
          match DecVarint32Rest(s[1..], bitpos', result')
          case Fail => Fail
          case Read(v, n) => Read(v, n + 1)
        else if bitpos' == 35 && b / 16 % 8 != 0 then Fail
        else Read(result', 1)
  }

  /** pb_decode_varint32. */
  function DecVarint32(s: seq<Byte>): (r: Parse<nat>)
    ensures r.Read? ==> 0 < r.used <= |s|
  {
    if s == [] then Fail
    else if s[0] < 128 then Read(s[0], 1)
    else
      match DecVarint32Rest(s[1..], 7, s[0] % 128)
      case Fail => Fail
      case Read(v, n) => Read(v, n + 1)
  }

  // ---------------------------------------------------------------- locality

  lemma {:induction false} VarintLenLocal(s: seq<Byte>, t: seq<Byte>)
    requires VarintLen(s) > 0
    ensures VarintLen(s[..VarintLen(s)] + t) == VarintLen(s)
  {
    var u := s[..VarintLen(s)] + t;
    if s[0] >= 128 {
      VarintLenLocal(s[1..], t);
      assert u[1..] == s[1..][..VarintLen(s[1..])] + t;
    }
  }

  /** Neither decoder looks past the bytes it consumes. */
  lemma {:induction false} DecVarintLocal(s: seq<Byte>, t: seq<Byte>)
    requires DecVarint(s).Read?
    ensures DecVarint(s[..DecVarint(s).used] + t) == DecVarint(s)
  {
    VarintLenLocal(s, t);
    var n := VarintLen(s);
    assert (s[..n] + t)[..n] == s[..n];
  }

  lemma {:induction false} DecVarint32RestLocal(s: seq<Byte>, bitpos: nat, result: nat, t: seq<Byte>)
    requires DecVarint32Rest(s, bitpos, result).Read?
    ensures DecVarint32Rest(s[..DecVarint32Rest(s, bitpos, result).used] + t, bitpos, result) ==
            DecVarint32Rest(s, bitpos, result)
    decreases |s|
  {
    var n := DecVarint32Rest(s, bitpos, result).used;
    var u := s[..n] + t;
    assert u[0] == s[0];
    if s[0] >= 128 {
      var result' := Accumulate32(result, s[0], bitpos);
      DecVarint32RestLocal(s[1..], (bitpos + 7) % 256, result', t);
      assert u[1..] == s[1..][..n - 1] + t;
    }
  }

  lemma {:induction false} DecVarint32Local(s: seq<Byte>, t: seq<Byte>)
    requires DecVarint32(s).Read?
    ensures DecVarint32(s[..DecVarint32(s).used] + t) == DecVarint32(s)
  {
    var n := DecVarint32(s).used;
    var u := s[..n] + t;
    assert u[0] == s[0];
    if s[0] >= 128 {
      DecVarint32RestLocal(s[1..], 7, s[0] % 128, t);
      assert u[1..] == s[1..][..n - 1] + t;
    }
  }

  // --------------------------------------------------------------- round trip

  lemma {:induction false} VarintBytesRead(n: nat, t: seq<Byte>)
    ensures VarintLen(VarintBytes(n) + t) == |VarintBytes(n)|
    ensures VarintVal(VarintBytes(n)) == n
  {
    var s := VarintBytes(n);
    if n >= 128 {
      VarintBytesRead(n / 128, t);
      assert (s + t)[1..] == VarintBytes(n / 128) + t;
      assert s[1..] == VarintBytes(n / 128);
    }
  }

  /** The encoding has the least number of seven-bit groups that can hold n. */
  lemma {:induction false} VarintBytesMinimal(n: nat, k: nat)
    ensures |VarintBytes(n)| <= k + 1 <==> n < Pow2(7 * (k + 1))
  {
    Pow2Values();
    Pow2Add(7 * k, 7);
    if n >= 128 && k > 0 {
      VarintBytesMinimal(n / 128, k - 1);
    } else if k > 0 {
      Pow2Add(7 * (k - 1), 7);
    }
  }

  /**
   * Round trip: pb_decode_varint reads back every 64-bit number pb_encode_varint
   * wrote, taking exactly its one to ten bytes, whatever follows.
   */
  lemma {:induction false} VarintRoundTrip(n: nat, t: seq<Byte>)
    requires n < TWO_64
    ensures DecVarint(VarintBytes(n) + t) == Read(n, |VarintBytes(n)|)
    ensures 1 <= |VarintBytes(n)| <= 10
  {
    hide Pow2, VarintBytes, VarintLen, VarintVal;
    VarintBytesRead(n, t);
    assert (VarintBytes(n) + t)[..|VarintBytes(n)|] == VarintBytes(n);
    Pow2Values();
    Pow2Add(64, 6);
    VarintBytesMinimal(n, 9);
  }

  // ------------------------------------------------- 32-bit against 64-bit

  lemma {:induction false} VarintValSnoc(a: seq<Byte>, b: Byte)
    ensures VarintVal(a + [b]) == VarintVal(a) + b % 128 * Pow2(7 * |a|)
    ensures VarintVal(a) < Pow2(7 * |a|)
  {
    if a == [] {
      assert [b][1..] == [];
    } else {
      VarintValSnoc(a[1..], b);
      assert (a + [b])[1..] == a[1..] + [b];
      assert Pow2(7) == 128;
      Pow2Add(7, 7 * |a[1..]|);
      MulShuffle(b % 128, 128, Pow2(7 * |a[1..]|));
    }
  }

  predicate AllContinue(s: seq<Byte>) {
    forall i :: 0 <= i < |s| ==> s[i] >= 128
  }

  lemma {:induction false} VarintLenAt(s: seq<Byte>, i: nat)
    requires i < |s| && AllContinue(s[..i])
    ensures s[i] < 128 ==> VarintLen(s) == i + 1
    ensures s[i] >= 128 && VarintLen(s) > 0 ==> i + 1 < |s|
  {
    if i > 0 {
      assert s[0] == s[..i][0];
      assert s[1..][..i - 1] == s[..i][1..];
      VarintLenAt(s[1..], i - 1);
    }
  }

  lemma {:induction false} VarintLenNot(s: seq<Byte>, i: nat)
    requires i <= |s| && AllContinue(s[..i])
    ensures VarintLen(s) == 0 || VarintLen(s) > i
  {
    if i > 0 {
      assert s[0] == s[..i][0];
      assert s[1..][..i - 1] == s[..i][1..];
      VarintLenNot(s[1..], i - 1);
    }
  }

  lemma {:induction false} LowBitsSmall(low: nat, k: nat, b: Byte)
    requires low < Pow2(k) <= 0x20_0000 && k <= 21
    ensures Accumulate32(low, b, k) == low + b % 128 * Pow2(k) < TWO_32
  {
    hide BitOr;
    BitOrDisjoint(low, k, b % 128);
    MulBound(b % 128, Pow2(k));
    AccumulateFits(low, b, k, b % 128 * Pow2(k));
  }

  lemma {:induction false} AccumulateFits(low: nat, b: Byte, k: nat, x: nat)
    requires k < 32 && x == b % 128 * Pow2(k) < TWO_32 && BitOr(low, x) == low + x
    ensures Accumulate32(low, b, k) == low + x
  {
    assert x % TWO_32 == x;
  }

  lemma {:induction false} MulBound(x: nat, p: nat)
    requires x < 128 && p <= 0x20_0000
    ensures x * p <= 127 * 0x20_0000
  {
  }

  lemma {:induction false} LowBitsFifth(low: nat, b: Byte)
    requires low < Pow2(28)
    ensures Accumulate32(low, b, 28) == (low + b % 128 * Pow2(28)) % TWO_32
  {
    hide BitOr, Pow2;
    Pow2Values();
    BitOrDisjoint(low, 28, b % 16);
    FifthGroup(low, b % 128);
  }

  /** Of the fifth group, four bits are below bit 32. */
  lemma {:induction false} FifthGroup(low: nat, g: nat)
    requires g < 128 && low < 0x1000_0000
    ensures g * 0x1000_0000 % TWO_32 == g % 16 * 0x1000_0000
    ensures (low + g * 0x1000_0000) % TWO_32 == low + g % 16 * 0x1000_0000
  {
    assert g * 0x1000_0000 == g % 16 * 0x1000_0000 + TWO_32 * (g / 16);
  }

  lemma {:induction false} LowBitsBeyond(x: nat, k: nat, g: nat)
    requires k >= 35
    ensures (x + g * Pow2(k)) % TWO_32 == x % TWO_32
  {
    Pow2Add(32, k - 32);
    assert Pow2(32) == TWO_32 by { Pow2Values(); }
    MulShuffle(g, TWO_32, Pow2(k - 32));
    ModShift(x, g * Pow2(k - 32));
  }

  lemma {:induction false} MulShuffle(g: nat, c: nat, q: nat)
    ensures g * (c * q) == c * (g * q)
  {
  }

  lemma {:induction false} ModShift(x: nat, h: nat)
    ensures (x + TWO_32 * h) % TWO_32 == x % TWO_32
  {
  }

  /** One step of the 32-bit accumulator keeps the low 32 bits of the number read so far. */
  lemma {:induction false} LowBitsStep(a: seq<Byte>, b: Byte)
    requires 1 <= |a|
    ensures Accumulate32(VarintVal(a) % TWO_32, b, 7 * |a|) == VarintVal(a + [b]) % TWO_32
  {
    hide *;
    VarintValSnoc(a, b);
    LowBits(VarintVal(a), |a|, b);
  }

  lemma {:induction false} LowBits(low: nat, n: nat, b: Byte)
    requires 1 <= n && low < Pow2(7 * n)
    ensures Accumulate32(low % TWO_32, b, 7 * n) == (low + b % 128 * Pow2(7 * n)) % TWO_32
  {
    hide BitOr, Pow2;
    if n <= 3 {
      LowBitsFirst(low, n, b);
    } else if n == 4 {
      Pow2Values();
      LowBitsFifth(low, b);
    } else {
      LowBitsBeyond(low, 7 * n, b % 128);
    }
  }

  lemma {:induction false} LowBitsFirst(low: nat, n: nat, b: Byte)
    requires 1 <= n <= 3 && low < Pow2(7 * n)
    ensures low < TWO_32
    ensures Accumulate32(low, b, 7 * n) == (low + b % 128 * Pow2(7 * n)) % TWO_32
  {
    hide BitOr, Pow2;
    Pow2Values();
    LowBitsSmall(low, 7 * n, b);
  }

  /** The low 32 bits are settled by the first five groups. */
  function Low32(s: seq<Byte>): nat {
    VarintVal(if |s| < 5 then s else s[..5]) % TWO_32
  }

  /** A group beyond bit 31 is either empty or the sign extension of a negative number. */
  predicate GroupFits(s: seq<Byte>, j: nat)
    requires j < |s|
  {
    s[j] % 128 == 0 || (Low32(s) >= TWO_31 && s[j] == if j < 9 then 0xFF else 0x01)
  }

  /** What the 32-bit decoder demands of the groups from the i-th on, in a varint of n bytes. */
  predicate FitsFrom(s: seq<Byte>, n: nat, i: nat)
    requires n <= |s|
  {
    && (n == 5 && i <= 4 ==> s[4] < 16)
    && forall j :: 5 <= j < n && i <= j ==> GroupFits(s, j)
  }

  predicate Fits32(s: seq<Byte>, n: nat)
    requires n <= |s|
  {
    FitsFrom(s, n, 0)
  }

  lemma {:induction false} Varint32RestExact(s: seq<Byte>, i: nat)
    requires 1 <= i < |s| && AllContinue(s[..i]) && i < VarintLen(s) <= 10
    requires i >= 5 ==> VarintVal(s[..i]) % TWO_32 == Low32(s)
    ensures var r := DecVarint32Rest(s[i..], 7 * i, VarintVal(s[..i]) % TWO_32);
            var n := VarintLen(s);
            && (r.Read? <==> FitsFrom(s, n, i))
            && (r.Read? ==> r == Read(VarintVal(s[..n]) % TWO_32, n - i))
    decreases |s| - i
  {
    hide VarintVal, Accumulate32, VarintLen, Low32;
    VarintLenAt(s, i);
    assert s[..i + 1] == s[..i] + [s[i]];
    LowBitsStep(s[..i], s[i]);
    Low32Stable(s, i);
    assert (7 * i + 7) % 256 == 7 * (i + 1);
    FitsFromStep(s, VarintLen(s), i);
    if s[i] >= 128 {
      assert AllContinue(s[..i + 1]);
      VarintLenNot(s, i + 1);
      assert s[i..][1..] == s[i + 1..];
      Varint32RestExact(s, i + 1);
    }
  }

  lemma {:induction false} FitsFromStep(s: seq<Byte>, n: nat, i: nat)
    requires i < n <= |s|
    ensures FitsFrom(s, n, i) <==>
            (n == 5 && i == 4 ==> s[4] < 16) && (i >= 5 ==> GroupFits(s, i)) && FitsFrom(s, n, i + 1)
  {
  }

  lemma {:induction false} Low32Stable(s: seq<Byte>, i: nat)
    requires i < |s|
    requires i >= 5 ==> VarintVal(s[..i]) % TWO_32 == Low32(s)
    ensures i >= 4 ==> VarintVal(s[..i + 1]) % TWO_32 == Low32(s)
  {
    hide VarintVal;
    if i >= 5 {
      assert s[..i + 1] == s[..i] + [s[i]];
      LowBitsStep(s[..i], s[i]);
      assert 7 * |s[..i]| >= 32;
    } else if i == 4 {
      assert |s| == 5 ==> s[..5] == s;
    }
  }

  /**
   * On every varint of at most ten bytes: the 32-bit decoder succeeds exactly when the
   * groups beyond bit 31 fit, and then it returns the low 32 bits of what the 64-bit
   * decoder returns and takes the same bytes.
   */
  lemma {:induction false} Varint32Agrees(s: seq<Byte>)
    requires 1 <= VarintLen(s) <= 10
    ensures DecVarint(s).Read?
    ensures DecVarint32(s).Read? <==> Fits32(s, VarintLen(s))
    ensures DecVarint32(s).Read? ==> DecVarint32(s) == Read(DecVarint(s).val % TWO_32, DecVarint(s).used)
  {
    hide VarintVal, Fits32, DecVarint32;
    var n := VarintLen(s);
    ModMod(VarintVal(s[..n]));
    if s[0] >= 128 {
      SeveralBytes(s);
    } else {
      OneByte(s);
    }
  }

  lemma {:induction false} OneByte(s: seq<Byte>)
    requires s != [] && s[0] < 128
    ensures VarintLen(s) == 1 && Fits32(s, 1)
    ensures DecVarint32(s) == Read(VarintVal(s[..1]) % TWO_32, 1)
  {
    FirstByte(s);
  }

  lemma {:induction false} SeveralBytes(s: seq<Byte>)
    requires s != [] && s[0] >= 128 && 1 <= VarintLen(s) <= 10
    ensures var n := VarintLen(s);
            && (DecVarint32(s).Read? <==> Fits32(s, n))
            && (DecVarint32(s).Read? ==> DecVarint32(s) == Read(VarintVal(s[..n]) % TWO_32, n))
  {
    FirstByte(s);
    hide VarintVal, Low32, FitsFrom, VarintLen;
    assert AllContinue(s[..1]);
    VarintLenNot(s, 1);
    assert s[0] % 128 % TWO_32 == s[0] % 128;
    Varint32RestExact(s, 1);
    FitsFromStep(s, VarintLen(s), 0);
  }

  lemma {:induction false} ModMod(x: nat)
    ensures x % TWO_64 % TWO_32 == x % TWO_32
  {
    ModShift(x % TWO_64, x / TWO_64 * TWO_32);
  }

  lemma {:induction false} FirstByte(s: seq<Byte>)
    requires s != []
    ensures VarintVal(s[..1]) == s[0] % 128
  {
    assert s[..1][1..] == [];
  }

  /** Every unsigned 32-bit number is read back by the 32-bit decoder. */
  lemma {:induction false} Varint32ReadsUnsigned(v: nat, t: seq<Byte>)
    requires v < TWO_32
    ensures DecVarint32(VarintBytes(v) + t) == Read(v, |VarintBytes(v)|)
    ensures |VarintBytes(v)| <= 5
  {
    hide VarintVal, VarintBytes, DecVarint32, Pow2;
    var b := VarintBytes(v);
    Pow2Values();
    VarintBytesMinimal(v, 4);
    VarintRoundTrip(v, t);
    VarintBytesRead(v, t);
    VarintLast(b + t);
    if |b| == 5 {
      FifthByteSmall(b);
    }
    Varint32Agrees(b + t);
  }

  /** The last group of a number of several groups is not empty. */
  lemma {:induction false} LastNotEmpty(v: nat)
    requires |VarintBytes(v)| > 1
    ensures 0 < VarintBytes(v)[|VarintBytes(v)| - 1] < 128
  {
    if |VarintBytes(v / 128)| > 1 {
      LastNotEmpty(v / 128);
    }
  }

  /** No number from 2^32 up to 2^63 is read by the 32-bit decoder. */
  lemma {:induction false} Varint32Refuses(v: nat, t: seq<Byte>)
    requires TWO_32 <= v < TWO_63
    ensures DecVarint32(VarintBytes(v) + t).Fail?
  {
    hide VarintVal, VarintBytes, DecVarint32, Pow2;
    var b := VarintBytes(v);
    Pow2Values();
    VarintBytesMinimal(v, 3);
    VarintBytesMinimal(v, 8);
    VarintRoundTrip(v, t);
    VarintBytesRead(v, t);
    LastNotEmpty(v);
    Varint32Agrees(b + t);
    if |b| == 5 {
      FifthByteLarge(b);
    } else {
      assert !GroupFits(b + t, |b| - 1);
    }
  }

  lemma {:induction false} FifthByteLarge(b: seq<Byte>)
    requires |b| == 5 && b[4] < 128 && VarintVal(b) >= TWO_32
    ensures b[4] >= 16
  {
    hide VarintVal, Pow2;
    Pow2Values();
    VarintValSnoc(b[..4], b[4]);
    assert b == b[..4] + [b[4]];
    FourGroups(b[..4]);
  }

  lemma {:induction false} FourGroups(s: seq<Byte>)
    requires |s| == 4
    ensures VarintVal(s) < 0x1000_0000
  {
    assert VarintVal(s[3..]) < 128;
    assert VarintVal(s[2..]) == s[2] % 128 + 128 * VarintVal(s[2..][1..]) && s[2..][1..] == s[3..];
    assert VarintVal(s[1..]) == s[1] % 128 + 128 * VarintVal(s[1..][1..]) && s[1..][1..] == s[2..];
  }

  lemma {:induction false} VarintLast(s: seq<Byte>)
    requires VarintLen(s) > 0
    ensures s[VarintLen(s) - 1] < 128
  {
    if s[0] >= 128 {
      VarintLast(s[1..]);
    }
  }

  lemma {:induction false} FifthByteSmall(b: seq<Byte>)
    requires |b| == 5 && b[4] < 128 && VarintVal(b) < TWO_32
    ensures b[4] < 16
  {
    hide VarintVal, Pow2;
    Pow2Values();
    VarintValSnoc(b[..4], b[4]);
    assert b == b[..4] + [b[4]];
  }

  /** Every negative int32, sent as its 64-bit two's complement, is read back as its low 32 bits. */
  lemma {:induction false} Varint32ReadsNegative(v: nat, t: seq<Byte>)
    requires TWO_64 - TWO_31 <= v < TWO_64
    ensures DecVarint32(VarintBytes(v) + t) == Read(v % TWO_32, 10)
    ensures |VarintBytes(v)| == 10
  {
    hide VarintVal, VarintBytes, DecVarint32, Pow2;
    NegativeTail(v);
    var b := VarintBytes(v);
    VarintRoundTrip(v, t);
    VarintBytesRead(v, t);
    assert forall j :: 5 <= j < 10 ==> b[j] == b[5..][j - 5];
    NegativeLow(b, v);
    assert (b + t)[..5] == b[..5];
    Varint32Agrees(b + t);
  }

  lemma {:induction false} NegativeTail(v: nat)
    requires TWO_64 - TWO_31 <= v < TWO_64
    ensures |VarintBytes(v)| == 10
    ensures VarintBytes(v)[5..] == [0xFF, 0xFF, 0xFF, 0xFF, 0x01]
  {
    assert VarintBytes(0x1FFF_FFFF) == [0xFF, 0xFF, 0xFF, 0xFF, 0x01];
    hide VarintBytes;
    var v1 := v / 128;
    var v2 := v1 / 128;
    var v3 := v2 / 128;
    var v4 := v3 / 128;
    VarintBytesStep(v);
    VarintBytesStep(v1);
    VarintBytesStep(v2);
    VarintBytesStep(v3);
    VarintBytesStep(v4);
    assert v4 / 128 == 0x1FFF_FFFF;
    assert VarintBytes(v)[5..] == VarintBytes(v4)[1..];
  }

  lemma {:induction false} VarintBytesStep(v: nat)
    requires v >= 128
    ensures VarintBytes(v) == [v % 128 + 128] + VarintBytes(v / 128)
  {
  }

  lemma {:induction false} NegativeLow(b: seq<Byte>, v: nat)
    requires |b| == 10 && VarintVal(b) == v && TWO_64 - TWO_31 <= v < TWO_64
    ensures Low32(b) == v % TWO_32 >= TWO_31
  {
    hide VarintVal;
    Low32Settled(b, 10);
    assert b[..10] == b;
  }

  lemma {:induction false} Low32Settled(s: seq<Byte>, i: nat)
    requires 5 <= i <= |s|
    ensures VarintVal(s[..i]) % TWO_32 == Low32(s)
  {
    hide VarintVal;
    if i > 5 {
      Low32Settled(s, i - 1);
      Low32Stable(s, i - 1);
    } else {
      assert |s| == 5 ==> s[..5] == s;
    }
  }

  // ------------------------------------------------- the 64-bit accumulator

  /** OR the seven bits of b into a 64-bit accumulator; bits beyond bit 63 are dropped. */
  function Accumulate64(result: nat, b: Byte, bitpos: nat): nat {
    BitOr(result, b % 128 * Pow2(bitpos) % TWO_64)
  }

  /** The accumulator of pb_decode_varint holds the number read so far, truncated to 64 bits. */
  lemma {:induction false} Low64Step(a: seq<Byte>, b: Byte)
    requires |a| <= 9
    ensures Accumulate64(VarintVal(a) % TWO_64, b, 7 * |a|) == VarintVal(a + [b]) % TWO_64
  {
    hide *;
    VarintValSnoc(a, b);
    if |a| == 9 {
      LastGroup(VarintVal(a), b);
    } else {
      EarlyGroup(VarintVal(a), 7 * |a|, b);
    }
  }

  lemma {:induction false} EarlyGroup(low: nat, k: nat, b: Byte)
    requires k <= 56 && low < Pow2(k)
    ensures Accumulate64(low % TWO_64, b, k) == (low + b % 128 * Pow2(k)) % TWO_64
  {
    hide BitOr, Pow2;
    Pow2Values();
    Pow2Add(56 - k, k);
    Pow2Add(56, 7);
    GroupBound(b % 128, Pow2(k), Pow2(56 - k), Pow2(56));
    BitOrDisjoint(low, k, b % 128);
    assert low % TWO_64 == low;
    assert (low + b % 128 * Pow2(k)) % TWO_64 == low + b % 128 * Pow2(k);
    assert b % 128 * Pow2(k) % TWO_64 == b % 128 * Pow2(k);
  }

  lemma {:induction false} GroupBound(g: nat, p: nat, q: nat, r: nat)
    requires g < 128 && p >= 1 && q >= 1 && r == q * p
    ensures p <= r
    ensures p + g * p <= 128 * r
  {
    assert p <= q * p;
    assert g * p <= 127 * p;
  }

  lemma {:induction false} LastGroup(low: nat, b: Byte)
    requires low < Pow2(63)
    ensures Accumulate64(low % TWO_64, b, 63) == (low + b % 128 * Pow2(63)) % TWO_64
  {
    hide BitOr, Pow2;
    Pow2Values();
    BitOrDisjoint(low, 63, b % 2);
    assert b % 128 == b % 2 + 2 * (b % 128 / 2);
    var h := b % 128 / 2;
    assert b % 128 * TWO_63 == b % 2 * TWO_63 + TWO_64 * h;
  }
}
