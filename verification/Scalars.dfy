/** Encoders and decoders of single values that are not submessages. */
module Scalars {
  import opened Basics
  import opened Varint
  import opened Descriptors

  // ------------------------------------------------------ machine integers

  predicate IntegerSize(width: nat) {
    width == 1 || width == 2 || width == 4 || width == 8
  }

  /** The number of values an integer of the given width in bytes can take. */
  function Modulus(width: nat): (m: nat)
    requires IntegerSize(width)
    ensures m > 0 && m % 2 == 0
  {
    if width == 1 then 0x100 else if width == 2 then 0x1_0000 else if width == 4 then TWO_32 else TWO_64
  }

  predicate FitsSigned(n: int, width: nat) {
    IntegerSize(width) && -(Modulus(width) / 2) <= n < Modulus(width) / 2
  }

  predicate FitsUnsigned(n: int, width: nat) {
    IntegerSize(width) && 0 <= n < Modulus(width)
  }

  /** Conversion to uint64_t. */
  function ToU64(n: int): (u: nat)
    ensures u < TWO_64
  {
    n % TWO_64
  }

  /** Conversion to a signed integer of the given width: the low bits as two's complement. */
  function ToSigned(n: int, width: nat): (v: int)
    requires IntegerSize(width)
    ensures FitsSigned(v, width)
  {
    var m := Modulus(width);
    var u := n % m;
    if u >= m / 2 then u - m else u
  }

  // ----------------------------------------------------------------- zigzag

  /** pb_encode_svarint: shift left by one, complemented for negative values. */
  function ZigZag(v: int): (u: nat)
    ensures u < TWO_64
  {
    var shifted := ToU64(v) * 2 % TWO_64;
    if v < 0 then TWO_64 - 1 - shifted else shifted
  }

  /** pb_decode_svarint. */
  function UnZigZag(u: nat): int {
    if u % 2 == 1 then ToSigned(TWO_64 - 1 - u / 2, 8) else ToSigned(u / 2, 8)
  }

  /** Zigzag maps the signed numbers one to one onto the unsigned, small magnitudes first. */
  lemma {:induction false} ZigZagBijection(v: int, u: nat)
    requires FitsSigned(v, 8) && u < TWO_64
    ensures UnZigZag(ZigZag(v)) == v
    ensures FitsSigned(UnZigZag(u), 8) && ZigZag(UnZigZag(u)) == u
    ensures ZigZag(v) == if v < 0 then -2 * v - 1 else 2 * v
  {
    ZigZagValue(v);
    UnZigZagValue(ZigZag(v));
    UnZigZagValue(u);
    ZigZagValue(UnZigZag(u));
  }

  lemma {:induction false} ZigZagValue(v: int)
    requires FitsSigned(v, 8)
    ensures ZigZag(v) == if v < 0 then -2 * v - 1 else 2 * v
  {
    assert ToU64(v) == if v < 0 then v + TWO_64 else v;
  }

  lemma {:induction false} UnZigZagValue(u: nat)
    requires u < TWO_64
    ensures UnZigZag(u) == if u % 2 == 1 then -(u / 2) - 1 else u / 2
    ensures FitsSigned(UnZigZag(u), 8)
  {
    ToSignedValue(TWO_64 - 1 - u / 2, 8);
    ToSignedValue(u / 2, 8);
  }

  lemma {:induction false} ToSignedValue(n: int, width: nat)
    requires IntegerSize(width)
    ensures 0 <= n < Modulus(width) ==> ToSigned(n, width) == if n >= Modulus(width) / 2 then n - Modulus(width) else n
    ensures FitsSigned(n, width) ==> ToSigned(n, width) == n
  {
    if n < 0 <= n + Modulus(width) || 0 <= n < Modulus(width) {
      ModNear(n, Modulus(width));
    }
  }

  lemma {:induction false} ModNear(n: int, m: int)
    requires m > 0 && -m <= n < m
    ensures n % m == if n < 0 then n + m else n
  {
    var q := n / m;
    assert n == q * m + n % m;
    if n < 0 {
      assert q == -1;
    } else {
      assert q == 0;
    }
  }

  /** A number of the given width, widened to 64 bits, keeps its value. */
  lemma {:induction false} ToSignedWiden(n: int, width: nat)
    requires width <= 4 && FitsSigned(n, width)
    ensures ToSigned(ToU64(n), 4) == n
  {
    var h := if n < 0 then TWO_32 - 1 else 0;
    var low := if n < 0 then n + TWO_32 else n;
    assert ToU64(n) == low + TWO_32 * h;
    ModShift(low, h);
    ToSignedValue(low, 4);
  }

  // ------------------------------------------------------------ fixed width

  /** The k low bytes of n, least significant first. */
  function LittleEndian(n: nat, k: nat): (s: seq<Byte>)
    ensures |s| == k
  {
    if k == 0 then [] else [n % 256] + LittleEndian(n / 256, k - 1)
  }

  function FromLittleEndian(s: seq<Byte>): nat {
    if s == [] then 0 else s[0] + 256 * FromLittleEndian(s[1..])
  }

  lemma {:induction false} LittleEndianRoundTrip(n: nat, k: nat)
    requires n < Pow2(8 * k)
    ensures FromLittleEndian(LittleEndian(n, k)) == n
  {
    hide Pow2;
    ByteBelow(n, k);
    if k > 0 {
      LittleEndianRoundTrip(n / 256, k - 1);
    }
  }

  lemma {:induction false} ByteBelow(n: nat, k: nat)
    requires n < Pow2(8 * k)
    ensures if k == 0 then n == 0 else n / 256 < Pow2(8 * (k - 1))
  {
    assert Pow2(0) == 1 && Pow2(8) == 256;
    hide Pow2;
    if k > 0 {
      Pow2Add(8 * (k - 1), 8);
    }
  }

  // ---------------------------------------------------------- length prefix

  /** pb_encode_string: a length prefix and the bytes. */
  function Delimit(s: seq<Byte>): (r: seq<Byte>)
  {
    VarintBytes(|s|) + s
  }

  /** pb_make_string_substream: a length prefix and that many bytes, which must all be there. */
  function Delimited(s: seq<Byte>): (r: Parse<seq<Byte>>)
    ensures r.Read? ==> 0 < r.used <= |s| && |r.val| < r.used
  {
    match DecVarint32(s)
    case Fail => Fail
    case Read(size, k) => if |s| - k < size then Fail else Read(s[k..k + size], k + size)
  }

  lemma {:induction false} DelimitedLocal(s: seq<Byte>, t: seq<Byte>)
    requires Delimited(s).Read?
    ensures Delimited(s[..Delimited(s).used] + t) == Delimited(s)
  {
    var n := Delimited(s).used;
    var k := DecVarint32(s).used;
    var u := s[..n] + t;
    DecVarint32Local(s, s[k..n] + t);
    assert u == s[..k] + (s[k..n] + t);
    assert u[k..n] == s[k..n];
  }

  lemma {:induction false} DelimitRoundTrip(s: seq<Byte>, t: seq<Byte>)
    requires |s| < TWO_32
    ensures Delimited(Delimit(s) + t) == Read(s, |Delimit(s)|)
  {
    var p := VarintBytes(|s|);
    Varint32ReadsUnsigned(|s|, s + t);
    assert Delimit(s) + t == p + (s + t);
    assert (p + (s + t))[|p|..|p| + |s|] == s;
  }

  /** A payload below 2^63 bytes is read back exactly when its length is below 2^32. */
  lemma {:induction false} DelimitExact(s: seq<Byte>, t: seq<Byte>)
    requires |s| < TWO_63
    ensures Delimited(Delimit(s) + t).Read? <==> |s| < TWO_32
  {
    hide VarintBytes, DecVarint32;
    if |s| < TWO_32 {
      DelimitRoundTrip(s, t);
    } else {
      Varint32Refuses(|s|, s + t);
      assert Delimit(s) + t == VarintBytes(|s|) + (s + t);
    }
  }

  // ---------------------------------------------------------------- decoders

  function DecInteger(f: Field, u: nat): Option<int> {
    if !IntegerSize(f.dataSize) then None
    else
      match f.ltype
      case LVarint =>
        // Fields of at most 32 bits take the low 32 bits first, to get the sign right.
        var v := ToSigned(u, if f.dataSize == 8 then 8 else 4);
        if ToSigned(v, f.dataSize) == v then Some(v) else None
      case LSvarint =>
        var v := UnZigZag(u);
        if ToSigned(v, f.dataSize) == v then Some(v) else None
      case _ =>
        if u % Modulus(f.dataSize) == u then Some(u) else None
  }

  /** PB_DECODERS, except for submessages. */
  function DecScalar(f: Field, s: seq<Byte>): (r: Parse<Value>)
    ensures r.Read? ==> 0 < r.used <= |s|
  {
    match f.ltype
    case LBool =>
      (match DecVarint32(s)
       case Fail => Fail
       case Read(u, n) => Read(VInt(if u != 0 then 1 else 0), n))
    case LVarint | LUvarint | LSvarint =>
      (match DecVarint(s)
       case Fail => Fail
       case Read(u, n) =>
         match DecInteger(f, u)
         case None => Fail
         case Some(v) => Read(VInt(v), n))
    case LFixed32 => if |s| < 4 then Fail else Read(VInt(FromLittleEndian(s[..4])), 4)
    case LFixed64 => if |s| < 8 then Fail else Read(VInt(FromLittleEndian(s[..8])), 8)
    case LBytes | LString | LFixedLengthBytes => DecRun(f, s)
    case LSubmessage => Fail
  }

  /** pb_dec_bytes, pb_dec_string and pb_dec_fixed_length_bytes. */
  function DecRun(f: Field, s: seq<Byte>): (r: Parse<Value>)
    ensures r.Read? ==> 0 < r.used <= |s|
  {
    match DecVarint32(s)
    case Fail => Fail
    case Read(size, k) =>
      if !RunFits(f, size) then Fail
      else if f.ltype.LFixedLengthBytes? && size == 0 then Read(VBytes(Zeros(f.dataSize)), k)
      else if |s| - k < size then Fail
      else Read(VBytes(s[k..k + size]), k + size)
  }

  /** Whether the storage of a bytes, string or fixed-length field takes a run of this size. */
  predicate RunFits(f: Field, size: nat) {
    match f.ltype
    case LBytes => size <= PB_SIZE_MAX && size + BYTES_HEADER <= f.dataSize
    case LString => size + 1 < TWO_32 && size + 1 <= f.dataSize
    case _ => size <= PB_SIZE_MAX && (size == 0 || size == f.dataSize)
  }

  lemma {:induction false} DecRunLocal(f: Field, s: seq<Byte>, t: seq<Byte>)
    requires DecRun(f, s).Read?
    ensures DecRun(f, s[..DecRun(f, s).used] + t) == DecRun(f, s)
  {
    var n := DecRun(f, s).used;
    var k := DecVarint32(s).used;
    var u := s[..n] + t;
    DecVarint32Local(s, s[k..n] + t);
    assert u == s[..k] + (s[k..n] + t);
    assert u[k..n] == s[k..n];
  }

  /** No scalar decoder looks past the bytes it consumes. */
  lemma {:induction false} DecScalarLocal(f: Field, s: seq<Byte>, t: seq<Byte>)
    requires DecScalar(f, s).Read?
    ensures DecScalar(f, s[..DecScalar(f, s).used] + t) == DecScalar(f, s)
  {
    var n := DecScalar(f, s).used;
    assert (s[..n] + t)[..n] == s[..n];
    match f.ltype
    case LBool => DecVarint32Local(s, t);
    case LVarint | LUvarint | LSvarint => DecVarintLocal(s, t);
    case LFixed32 | LFixed64 =>
    case LBytes | LString | LFixedLengthBytes => DecRunLocal(f, s, t);
    case LSubmessage =>
  }

  // ---------------------------------------------------------------- encoders

  /** The bytes of a C string: up to the first terminator. */
  function CString(b: seq<Byte>): (s: seq<Byte>)
    ensures |s| <= |b| && 0 !in s
  {
    if b == [] || b[0] == 0 then [] else [b[0]] + CString(b[1..])
  }

  /** PB_ENCODERS, except for submessages. None is an error return. */
  function EncScalar(f: Field, v: Value): Option<seq<Byte>> {
    match f.ltype
    case LBool => if v.VInt? then Some(VarintBytes(if v.n != 0 then 1 else 0)) else None
    case LVarint | LUvarint => if v.VInt? && IntegerSize(f.dataSize) then Some(VarintBytes(ToU64(v.n))) else None
    case LSvarint => if v.VInt? && IntegerSize(f.dataSize) then Some(VarintBytes(ZigZag(v.n))) else None
    case LFixed32 => if v.VInt? then Some(LittleEndian(v.n % TWO_32, 4)) else None
    case LFixed64 => if v.VInt? then Some(LittleEndian(ToU64(v.n), 8)) else None
    case LBytes => if v.VBytes? && |v.b| + BYTES_HEADER <= f.dataSize then Some(Delimit(v.b)) else None
    case LString => if v.VBytes? && |v.b| <= f.dataSize then Some(Delimit(CString(v.b))) else None
    case LFixedLengthBytes => if v.VBytes? && |v.b| == f.dataSize then Some(Delimit(v.b)) else None
    case LSubmessage => None
  }

  // --------------------------------------------------------------- round trip

  /** The values a field of a scalar type can hold. */
  predicate ScalarOk(f: Field, v: Value) {
    match f.ltype
    case LBool => v.VInt? && 0 <= v.n < 256
    case LVarint | LSvarint => v.VInt? && FitsSigned(v.n, f.dataSize)
    case LUvarint => v.VInt? && FitsUnsigned(v.n, f.dataSize)
    case LFixed32 => v.VInt? && 0 <= v.n < TWO_32
    case LFixed64 => v.VInt? && 0 <= v.n < TWO_64
    case LBytes => v.VBytes? && |v.b| + BYTES_HEADER <= f.dataSize
    case LString => v.VBytes? && |v.b| <= f.dataSize
    case LFixedLengthBytes => v.VBytes? && |v.b| == f.dataSize
    case LSubmessage => false
  }

  /** Equal as far as the field type can tell: truth of a bool, contents of a C string. */
  predicate SameScalar(f: Field, v: Value, w: Value) {
    match f.ltype
    case LBool => v.VInt? && w.VInt? && (v.n != 0 <==> w.n != 0)
    case LString => v.VBytes? && w.VBytes? && CString(v.b) == CString(w.b)
    case _ => v == w
  }

  /** A string that fills its buffer has no room for the terminator the decoder needs. */
  predicate Terminated(f: Field, v: Value) {
    f.ltype.LString? && v.VBytes? ==> |CString(v.b)| < f.dataSize
  }

  lemma {:induction false} IntegerRoundTrip(f: Field, n: int)
    requires f.ltype.LVarint? || f.ltype.LUvarint? || f.ltype.LSvarint?
    requires ScalarOk(f, VInt(n))
    ensures DecInteger(f, if f.ltype.LSvarint? then ZigZag(n) else ToU64(n)) == Some(n)
  {
    hide ToSigned, ToU64, ZigZag, UnZigZag;
    if f.ltype.LSvarint? {
      ZigZagBijection(n, 0);
      ToSignedValue(n, f.dataSize);
    } else if f.ltype.LVarint? {
      ToSignedValue(n, f.dataSize);
      if f.dataSize == 8 {
        ToSignedWhole(n);
      } else {
        ToSignedWiden(n, f.dataSize);
      }
    } else {
      UnsignedWhole(n, f.dataSize);
    }
  }

  lemma {:induction false} ToSignedWhole(n: int)
    requires FitsSigned(n, 8)
    ensures ToSigned(ToU64(n), 8) == n
  {
    assert ToU64(n) == if n < 0 then n + TWO_64 else n;
    ToSignedValue(ToU64(n), 8);
  }

  lemma {:induction false} UnsignedWhole(n: int, width: nat)
    requires FitsUnsigned(n, width)
    ensures ToU64(n) == n && n % Modulus(width) == n
  {
  }

  lemma {:induction false} CStringIdem(b: seq<Byte>)
    ensures 0 !in b ==> CString(b) == b
    ensures CString(CString(b)) == CString(b)
  {
    if b != [] && b[0] != 0 {
      CStringIdem(b[1..]);
    }
  }

  /**
   * Round trip of a single value: the decoder of the field's type reads back what its encoder
   * wrote, taking exactly those bytes.
   */
  lemma {:induction false} ScalarRoundTrip(f: Field, v: Value, t: seq<Byte>)
    requires ScalarOk(f, v) && Terminated(f, v) && f.dataSize <= PB_SIZE_MAX
    ensures EncScalar(f, v).Some?
    ensures var b := EncScalar(f, v).value;
            var r := DecScalar(f, b + t);
            r.Read? && r.used == |b| && SameScalar(f, v, r.val) && ScalarOk(f, r.val)
  {
    match f.ltype
    case LBool => Varint32ReadsUnsigned(if v.n != 0 then 1 else 0, t);
    case LVarint | LUvarint | LSvarint => IntegerFieldRoundTrip(f, v.n, t);
    case LFixed32 | LFixed64 => FixedRoundTrip(f, v.n, t);
    case LBytes | LString | LFixedLengthBytes => RunRoundTrip(f, v.b, t);
  }

  /** For widths 1, 2, 4 and 8, every number of that width survives the three varint codecs. */
  lemma {:induction false} IntegerFieldRoundTrip(f: Field, n: int, t: seq<Byte>)
    requires f.ltype.LVarint? || f.ltype.LUvarint? || f.ltype.LSvarint?
    requires ScalarOk(f, VInt(n))
    ensures var b := EncScalar(f, VInt(n)).value;
            DecScalar(f, b + t) == Read(VInt(n), |b|)
  {
    hide DecVarint, DecInteger, VarintBytes, ToU64, ZigZag;
    IntegerRoundTrip(f, n);
    VarintRoundTrip(if f.ltype.LSvarint? then ZigZag(n) else ToU64(n), t);
  }

  lemma {:induction false} FixedRoundTrip(f: Field, n: int, t: seq<Byte>)
    requires f.ltype.LFixed32? || f.ltype.LFixed64?
    requires ScalarOk(f, VInt(n))
    ensures var b := EncScalar(f, VInt(n)).value;
            DecScalar(f, b + t) == Read(VInt(n), |b|)
  {
    hide LittleEndian, FromLittleEndian, Pow2;
    var k := if f.ltype.LFixed32? then 4 else 8;
    Pow2Values();
    LittleEndianRoundTrip(n, k);
    assert n % TWO_64 == n && (k == 4 ==> n % TWO_32 == n);
    assert (LittleEndian(n, k) + t)[..k] == LittleEndian(n, k);
  }

  lemma {:induction false} RunRoundTrip(f: Field, b: seq<Byte>, t: seq<Byte>)
    requires f.ltype.LBytes? || f.ltype.LString? || f.ltype.LFixedLengthBytes?
    requires ScalarOk(f, VBytes(b)) && Terminated(f, VBytes(b)) && f.dataSize <= PB_SIZE_MAX
    ensures var e := EncScalar(f, VBytes(b)).value;
            DecScalar(f, e + t) == Read(VBytes(if f.ltype.LString? then CString(b) else b), |e|)
    ensures CString(CString(b)) == CString(b)
  {
    hide VarintBytes, DecRun, CString;
    CStringIdem(b);
    var c := if f.ltype.LString? then CString(b) else b;
    RunReads(f, c, t);
  }

  /** A delimited run of bytes that fits is read back as it is. */
  lemma {:induction false} RunReads(f: Field, c: seq<Byte>, t: seq<Byte>)
    requires RunFits(f, |c|) && |c| < TWO_32
    requires f.ltype.LFixedLengthBytes? ==> |c| == f.dataSize
    ensures DecRun(f, Delimit(c) + t) == Read(VBytes(c), |Delimit(c)|)
  {
    hide VarintBytes, DecVarint32, RunFits;
    var p := VarintBytes(|c|);
    Varint32ReadsUnsigned(|c|, c + t);
    assert Delimit(c) + t == p + (c + t);
    assert (p + (c + t))[|p|..|p| + |c|] == c;
    if f.ltype.LFixedLengthBytes? && |c| == 0 {
      assert c == Zeros(f.dataSize);
    }
  }

  /**
   * The encoder accepts a string that fills its buffer without a terminator, but the decoder then
   * refuses it: it is read back exactly when it leaves room for one.
   */
  lemma {:induction false} StringReadBack(f: Field, b: seq<Byte>, t: seq<Byte>)
    requires f.ltype.LString? && ScalarOk(f, VBytes(b)) && f.dataSize <= PB_SIZE_MAX
    ensures EncScalar(f, VBytes(b)).Some?
    ensures DecScalar(f, EncScalar(f, VBytes(b)).value + t).Read? <==> |CString(b)| < f.dataSize
  {
    hide VarintBytes, DecVarint32, CString;
    var c := CString(b);
    if |c| < f.dataSize {
      RunRoundTrip(f, b, t);
    } else {
      Varint32ReadsUnsigned(|c|, c + t);
      assert Delimit(c) + t == VarintBytes(|c|) + (c + t);
    }
  }
}
