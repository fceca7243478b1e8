/** pb_encode.c: the two-pass encoder over output streams. */
module Encoder {
  import opened Basics
  import opened Varint
  import opened Descriptors
  import opened Scalars
  import opened Encoding
  import opened Shapes
  import opened FieldIterator
  import opened OutputStream

  // ------------------------------------------------------------------ varints

  /** pb_encode_varint. The ten-byte buffer is never overrun. */
  method EncodeVarint(stream: OStream, value: nat) returns (ok: bool)
    requires stream.Now().Sound() && value < TWO_64
    modifies stream.Frame()
    ensures Encodes(old(stream.Now()), stream.Now(), Some(VarintBytes(value)), ok)
  {
    if value <= 0x7F {
      ok := stream.Write([value], 1, [value]);
      return;
    }
    var buffer := new Byte[10];
    var i := FillVarint(value, buffer);
    buffer[i - 1] := buffer[i - 1] % 128;
    VarintBytesShape(value);
    assert buffer[..i] == VarintBytes(value);
    ok := stream.Write(buffer[..i], i, buffer[..i]);
  }

  /** The groups of a varint of several bytes, all with the continuation bit set. */
  method FillVarint(value: nat, buffer: array<Byte>) returns (i: nat)
    requires 0x80 <= value < TWO_64 && buffer.Length == 10
    modifies buffer
    ensures 0 < i <= 10 && i == |VarintBytes(value)|
    ensures forall k :: 0 <= k < i ==> buffer[k] == VarintBytes(value)[k] % 128 + 128
  {
    hide *;
    i := 0;
    var rest := value;
    ghost var s := VarintBytes(value);
    AtMostTen(value);
    while rest != 0
      invariant i <= |s| <= 10
      invariant if rest == 0 then i == |s| else s[i..] == VarintBytes(rest)
      invariant forall k :: 0 <= k < i ==> buffer[k] == s[k] % 128 + 128
      decreases rest
    {
      VarintBytesUnfold(rest);
      assert s[i] == s[i..][0] && s[i + 1..] == s[i..][1..];
      buffer[i] := rest % 128 + 128;
      rest := rest / 128;
      i := i + 1;
    }
  }

  lemma {:induction false} AtMostTen(v: nat)
    requires v < TWO_64
    ensures |VarintBytes(v)| <= 10
  {
    VarintRoundTrip(v, []);
  }

  lemma {:induction false} VarintBytesUnfold(v: nat)
    ensures VarintBytes(v) == if v < 128 then [v] else [v % 128 + 128] + VarintBytes(v / 128)
  {
  }

  lemma {:induction false} VarintBytesShape(v: nat)
    ensures var s := VarintBytes(v); AllContinue(s[..|s| - 1]) && s[|s| - 1] < 128
  {
    if v >= 128 {
      VarintBytesShape(v / 128);
      assert VarintBytes(v)[1..] == VarintBytes(v / 128);
    }
  }

  /** pb_encode_svarint. */
  method EncodeSvarint(stream: OStream, value: int) returns (ok: bool)
    requires stream.Now().Sound()
    modifies stream.Frame()
    ensures Encodes(old(stream.Now()), stream.Now(), Some(VarintBytes(ZigZag(value))), ok)
  {
    var zigzagged := ToU64(value) * 2 % TWO_64;
    if value < 0 {
      zigzagged := TWO_64 - 1 - zigzagged;
    }
    ok := EncodeVarint(stream, zigzagged);
  }

  // -------------------------------------------------------------- other items

  /** The four bytes pb_encode_fixed32 computes by shifting and masking. */
  function Bytes32(n: nat): seq<Byte> {
    [n % 256, n / 0x100 % 256, n / 0x1_0000 % 256, n / 0x100_0000 % 256]
  }

  lemma {:induction false} FourBytes(n: nat)
    ensures LittleEndian(n, 4) == Bytes32(n)
  {
    var n1 := n / 256;
    var n2 := n1 / 256;
    var n3 := n2 / 256;
    assert LittleEndian(n3, 1) == [n3 % 256];
    assert LittleEndian(n2, 2) == [n2 % 256] + LittleEndian(n3, 1);
    assert LittleEndian(n1, 3) == [n1 % 256] + LittleEndian(n2, 2);
  }

  /** pb_encode_fixed32. */
  method EncodeFixed32(stream: OStream, val: nat) returns (ok: bool)
    requires stream.Now().Sound() && val < TWO_32
    modifies stream.Frame()
    ensures Encodes(old(stream.Now()), stream.Now(), Some(LittleEndian(val, 4)), ok)
  {
    hide LittleEndian, Bytes32;
    FourBytes(val);
    ok := stream.Write(Bytes32(val), 4, Bytes32(val));
  }

  function DropBytes(n: nat, k: nat): nat {
    if k == 0 then n else DropBytes(n / 256, k - 1)
  }

  lemma {:induction false} LittleEndianSplit(n: nat, k: nat, j: nat)
    ensures LittleEndian(n, k + j) == LittleEndian(n, k) + LittleEndian(DropBytes(n, k), j)
    decreases k
  {
    if k == 0 {
      assert [] + LittleEndian(n, j) == LittleEndian(n, j);
    } else {
      LittleEndianSplit(n / 256, k - 1, j);
    }
  }

  lemma {:induction false} DropFour(n: nat)
    ensures DropBytes(n, 4) == n / TWO_32
  {
    var n2 := n / 256 / 256;
    assert DropBytes(n2 / 256, 1) == n2 / 256 / 256;
    assert DropBytes(n / 256, 3) == DropBytes(n2, 2) == DropBytes(n2 / 256, 1);
  }

  lemma {:induction false} EightBytes(n: nat)
    ensures LittleEndian(n, 8) == Bytes32(n) + Bytes32(n / TWO_32)
  {
    LittleEndianSplit(n, 4, 4);
    DropFour(n);
    FourBytes(n);
    FourBytes(n / TWO_32);
    hide *;
  }

  /** pb_encode_fixed64. */
  method EncodeFixed64(stream: OStream, val: nat) returns (ok: bool)
    requires stream.Now().Sound() && val < TWO_64
    modifies stream.Frame()
    ensures Encodes(old(stream.Now()), stream.Now(), Some(LittleEndian(val, 8)), ok)
  {
    hide LittleEndian, Bytes32;
    EightBytes(val);
    var bytes := Bytes32(val) + Bytes32(val / TWO_32);
    ok := stream.Write(bytes, 8, bytes);
  }

  /** pb_encode_string. */
  method EncodeString(stream: OStream, buffer: seq<Byte>) returns (ok: bool)
    requires stream.Now().Sound() && |buffer| < TWO_64
    modifies stream.Frame()
    ensures Encodes(old(stream.Now()), stream.Now(), Some(Delimit(buffer)), ok)
  {
    ghost var s := stream.Now();
    ok := EncodeVarint(stream, |buffer|);
    if !ok {
      EncodesFailed(s, stream.Now(), Some(VarintBytes(|buffer|)), Some(buffer));
      return;
    }
    ghost var t := stream.Now();
    ok := stream.Write(buffer, |buffer|, buffer);
    EncodesThen(s, t, stream.Now(), Some(VarintBytes(|buffer|)), Some(buffer), ok);
  }

  /** The length of a C string in a buffer of at most maxSize bytes (the loop of pb_enc_string). */
  method StringLength(p: seq<Byte>, maxSize: nat) returns (size: nat)
    requires |p| <= maxSize
    ensures size <= |p| && p[..size] == CString(p)
  {
    size := 0;
    while size < maxSize && size < |p| && p[size] != 0
      invariant size <= |p|
      invariant CString(p) == p[..size] + CString(p[size..])
    {
      assert p[size..][1..] == p[size + 1..];
      assert p[..size + 1] == p[..size] + [p[size]];
      size := size + 1;
    }
  }

  /** pb_encode_tag. */
  method EncodeTag(stream: OStream, wt: nat, tag: nat) returns (ok: bool)
    requires stream.Now().Sound() && wt < 8 && tag <= PB_SIZE_MAX
    modifies stream.Frame()
    ensures Encodes(old(stream.Now()), stream.Now(), Some(Key(tag, wt)), ok)
  {
    ok := EncodeVarint(stream, tag * 8 + wt);
  }

  /** PB_ENCODERS except for submessages. */
  method EncodeScalar(stream: OStream, f: Field, v: Value) returns (ok: bool)
    requires stream.Now().Sound() && ScalarShape(f, v) && ItemAddressable(f, v)
    modifies stream.Frame()
    ensures Encodes(old(stream.Now()), stream.Now(), EncScalar(f, v), ok)
  {
    EncodesNothing(stream.Now());
    match f.ltype
    case LBool =>
      ok := EncodeVarint(stream, if v.n != 0 then 1 else 0);
    case LVarint | LUvarint =>
      if !IntegerSize(f.dataSize) { return false; }
      ok := EncodeVarint(stream, ToU64(v.n));
    case LSvarint =>
      if !IntegerSize(f.dataSize) { return false; }
      ok := EncodeSvarint(stream, v.n);
    case LFixed32 =>
      ok := EncodeFixed32(stream, v.n % TWO_32);
    case LFixed64 =>
      ok := EncodeFixed64(stream, ToU64(v.n));
    case LBytes =>
      if |v.b| + BYTES_HEADER > f.dataSize { return false; }
      ok := EncodeString(stream, v.b);
    case LString =>
      var size := StringLength(v.b, f.dataSize);
      ok := EncodeString(stream, v.b[..size]);
    case LFixedLengthBytes =>
      ok := EncodeString(stream, v.b);
  }

  // -------------------------------------------------- submessages and arrays

  /** PB_ENCODERS. */
  method EncodeItem(stream: OStream, f: Field, v: Value) returns (ok: bool)
    requires stream.Now().Sound() && TypedField(f, false) && SendableItem(f, v, false) && ItemAddressable(f, v)
    modifies stream.Frame()
    ensures Encodes(old(stream.Now()), stream.Now(), EncItem(f, v), ok)
    decreases f, 0
  {
    if f.ltype.LSubmessage? {
      EncodesNothing(stream.Now());
      if !f.ptr.Sub? { return false; }
      ok := EncodeSubmessage(stream, f.ptr.fields, v.m);
    } else {
      ok := EncodeScalar(stream, f, v);
    }
  }

  /** The bytes of a length-delimited message. */
  function Delimiting(body: Option<seq<Byte>>): Option<seq<Byte>> {
    if body.None? then None else Some(Delimit(body.value))
  }

  /**
   * pb_encode_submessage: measure the message on a sizing stream, write the length, and write the
   * message on a substream limited to that length. The second pass always agrees with the first.
   */
  method EncodeSubmessage(stream: OStream, d: Desc, m: Msg) returns (ok: bool)
    requires stream.Now().Sound() && TypedDesc(d, false) && SendableMsg(d, m, false) && MsgAddressable(d, m) &&
             Short(Encode(d, m))
    modifies stream.Frame()
    ensures Encodes(old(stream.Now()), stream.Now(), Delimiting(Encode(d, m)), ok)
    decreases d, 12
  {
    ghost var enc := Encode(d, m);
    ghost var s := stream.Now();
    hide Encode, TypedDesc, SendableMsg, MsgAddressable, Encodes;
    EncodesNothing(s);
    var sizing := new OStream.Sizing();
    var sized := EncodeMsg(sizing, d, m);
    SizingResult(sizing.Now(), enc, sized);
    if !sized { return false; }
    var size := sizing.bytesWritten;

    ok := EncodeVarint(stream, size);
    ghost var t := stream.Now();
    if !ok {
      EncodesFailed(s, t, Some(VarintBytes(size)), enc);
      return;
    }
    if stream.buf == null {
      ok := stream.Write([], size, enc.value);
      EncodesThen(s, t, stream.Now(), Some(VarintBytes(size)), enc, ok);
      return;
    }
    EncodesSound(s, t, Some(VarintBytes(size)), true);
    ok := EncodePayload(stream, d, m, size);
    EncodesThen(s, t, stream.Now(), Some(VarintBytes(size)), enc, ok);
  }

  /** The second pass of pb_encode_submessage, on a substream limited to the size the first pass found. */
  method EncodePayload(stream: OStream, d: Desc, m: Msg, size: nat) returns (ok: bool)
    requires stream.buf != null && stream.Now().Sound() && TypedDesc(d, false) && SendableMsg(d, m, false) &&
             MsgAddressable(d, m)
    requires Encode(d, m).Some? && size == |Encode(d, m).value|
    modifies stream.Frame()
    ensures Encodes(old(stream.Now()), stream.Now(), Encode(d, m), ok)
    decreases d, 11
  {
    ghost var enc, t := Encode(d, m), stream.Now();
    hide Encode, TypedDesc, SendableMsg, MsgAddressable, Encodes;
    if stream.bytesWritten + size > stream.maxSize {
      TooLong(t, enc);
      return false;
    }
    var substream := new OStream.OnBuffer(stream.buf, stream.state, size);
    ghost var u := substream.Now();
    var status := EncodeMsg(substream, d, m);
    ghost var v := substream.Now();
    stream.bytesWritten := stream.bytesWritten + substream.bytesWritten;
    stream.state := substream.state;
    SubstreamResult(t, u, v, stream.Now(), enc, status);
    if substream.bytesWritten != size {
      assert false; // submsg size changed
      return false;
    }
    return status;
  }

  lemma {:induction false} EncodesSound(s: Snap, t: Snap, enc: Option<seq<Byte>>, ok: bool)
    requires Encodes(s, t, enc, ok)
    ensures t.Sound() && t.limit == s.limit
  {
  }

  /** The sizing pass counts the encoding. */
  lemma {:induction false} SizingResult(t: Snap, enc: Option<seq<Byte>>, ok: bool)
    requires Encodes(Snap(None, [], 0, 0), t, enc, ok)
    ensures ok <==> enc.Some?
    ensures ok ==> t.written == |enc.value|
  {
  }

  lemma {:induction false} TooLong(t: Snap, enc: Option<seq<Byte>>)
    requires t.Sound() && enc.Some? && !t.Fits(|enc.value|)
    ensures Encodes(t, t, enc, false)
  {
  }

  /** The writing pass fills its substream exactly, and the stream takes that over. */
  lemma {:induction false} SubstreamResult(t: Snap, u: Snap, v: Snap, w: Snap, enc: Option<seq<Byte>>, status: bool)
    requires enc.Some? && t.Sound() && t.limit.Some? && t.Fits(|enc.value|)
    requires u == Snap(Some(|enc.value|), t.contents, t.state, 0) && Encodes(u, v, enc, status)
    requires w == Snap(t.limit, v.contents, v.state, t.written + v.written)
    ensures status && v.written == |enc.value|
    ensures Encodes(t, w, enc, true)
  {
  }

  lemma {:induction false} PackedCons(f: Field, items: seq<Value>, i: nat)
    requires i < |items|
    ensures EncPacked(f, items[i..]) == Join(EncScalar(f, items[i]), EncPacked(f, items[i + 1..]))
  {
    assert items[i..][1..] == items[i + 1..];
  }

  /** The items of a packed array, one after the other. */
  method EncodePackedItems(stream: OStream, f: Field, items: seq<Value>) returns (ok: bool)
    requires stream.Now().Sound() && forall j :: 0 <= j < |items| ==>
             ScalarShape(f, items[j]) && ItemAddressable(f, items[j])
    modifies stream.Frame()
    ensures Encodes(old(stream.Now()), stream.Now(), EncPacked(f, items), ok)
  {
    hide Encodes, EncScalar, EncPacked, ScalarShape, ItemAddressable;
    ghost var s := stream.Now();
    ghost var done := [];
    EncodesNothing(s);
    assert items[0..] == items;
    JoinAssoc(EncPacked(f, items), None, None);
    var i := 0;
    while i < |items|
      invariant i <= |items|
      invariant Encodes(s, stream.Now(), Some(done), true)
      invariant Join(Some(done), EncPacked(f, items[i..])) == EncPacked(f, items)
    {
      ghost var t := stream.Now();
      ghost var e, rest := EncScalar(f, items[i]), EncPacked(f, items[i + 1..]);
      EncodesSound(s, t, Some(done), true);
      PackedCons(f, items, i);
      JoinAssoc(Some(done), e, rest);
      ok := EncodeScalar(stream, f, items[i]);
      EncodesThen(s, t, stream.Now(), Some(done), e, ok);
      if !ok {
        EncodesFailed(s, stream.Now(), Join(Some(done), e), rest);
        return;
      }
      EncodesSome(t, stream.Now(), e);
      done := done + e.value;
      i := i + 1;
    }
    EncPackedNil(f, items);
    JoinAssoc(Some(done), None, None);
    return true;
  }

  lemma {:induction false} EncodesSome(s: Snap, t: Snap, enc: Option<seq<Byte>>)
    requires Encodes(s, t, enc, true)
    ensures enc.Some?
  {
  }

  lemma {:induction false} EncPackedNil(f: Field, items: seq<Value>)
    ensures EncPacked(f, items[|items|..]) == Some([])
    ensures EncEach(f, items[|items|..]) == Some([])
  {
  }

  lemma {:induction false} FixedPackedSize(f: Field, items: seq<Value>)
    requires f.ltype.LFixed32? || f.ltype.LFixed64?
    requires forall j :: 0 <= j < |items| ==> ScalarShape(f, items[j])
    ensures EncPacked(f, items).Some?
    ensures |EncPacked(f, items).value| == (if f.ltype.LFixed32? then 4 else 8) * |items|
  {
    if items != [] {
      FixedPackedSize(f, items[1..]);
    }
  }

  /** The size of a packed array: computed for fixed-width items, measured on a sizing stream otherwise. */
  method PackedSize(f: Field, items: seq<Value>) returns (ok: bool, size: nat)
    requires forall j :: 0 <= j < |items| ==> ScalarShape(f, items[j]) && ItemAddressable(f, items[j])
    ensures ok <==> EncPacked(f, items).Some?
    ensures ok ==> size == |EncPacked(f, items).value|
  {
    if f.ltype.LFixed32? {
      FixedPackedSize(f, items);
      return true, 4 * |items|;
    } else if f.ltype.LFixed64? {
      FixedPackedSize(f, items);
      return true, 8 * |items|;
    }
    var sizing := new OStream.Sizing();
    ok := EncodePackedItems(sizing, f, items);
    SizingResult(sizing.Now(), EncPacked(f, items), ok);
    return ok, sizing.bytesWritten;
  }

  /** A packed array: key, length, items. */
  method EncodePackedArray(stream: OStream, f: Field, items: seq<Value>) returns (ok: bool)
    requires stream.Now().Sound() && f.tag <= PB_SIZE_MAX && Short(EncPacked(f, items))
    requires forall j :: 0 <= j < |items| ==> ScalarShape(f, items[j]) && ItemAddressable(f, items[j])
    modifies stream.Frame()
    ensures Encodes(old(stream.Now()), stream.Now(), Join(Some(Key(f.tag, WT_STRING)), Delimiting(EncPacked(f, items))),
            ok)
  {
    hide Encodes, EncPacked, ScalarShape, ItemAddressable;
    ghost var s := stream.Now();
    ghost var key, body := Some(Key(f.tag, WT_STRING)), EncPacked(f, items);
    ok := EncodeTag(stream, WT_STRING, f.tag);
    ghost var t := stream.Now();
    if !ok {
      EncodesFailed(s, t, key, Delimiting(body));
      return;
    }
    EncodesSound(s, t, key, true);
    var sized, size := PackedSize(f, items);
    if !sized {
      EncodesNothing(t);
      EncodesThen(s, t, t, key, None, false);
      return false;
    }
    ghost var prefix := Some(VarintBytes(size));
    ok := EncodeVarint(stream, size);
    ghost var u := stream.Now();
    if !ok {
      EncodesFailed(t, u, prefix, body);
      EncodesThen(s, t, u, key, Join(prefix, body), false);
      return;
    }
    EncodesSound(t, u, prefix, true);
    if stream.buf == null {
      ok := stream.Write([], size, body.value);
    } else {
      ok := EncodePackedItems(stream, f, items);
    }
    EncodesThen(t, u, stream.Now(), prefix, body, ok);
    EncodesThen(s, t, stream.Now(), key, Join(prefix, body), ok);
  }

  lemma {:induction false} EachCons(f: Field, items: seq<Value>, i: nat)
    requires i < |items|
    ensures EncEach(f, items[i..]) == Join(EncRecord(f, items[i]), EncEach(f, items[i + 1..]))
  {
    assert items[i..][1..] == items[i + 1..];
  }

  /** pb_encode_tag_for_field and one item. */
  method EncodeRecord(stream: OStream, f: Field, v: Value) returns (ok: bool)
    requires stream.Now().Sound() && TypedField(f, false) && SendableItem(f, v, false) && ItemAddressable(f, v)
    modifies stream.Frame()
    ensures Encodes(old(stream.Now()), stream.Now(), EncRecord(f, v), ok)
    decreases f, 1
  {
    hide Encodes, SendableItem, ItemAddressable, EncItem;
    ghost var s := stream.Now();
    ghost var key := Some(Key(f.tag, WireType(f)));
    ok := EncodeTag(stream, WireType(f), f.tag);
    ghost var t := stream.Now();
    if !ok {
      EncodesFailed(s, t, key, EncItem(f, v));
      return;
    }
    EncodesSound(s, t, key, true);
    ok := EncodeItem(stream, f, v);
    EncodesThen(s, t, stream.Now(), key, EncItem(f, v), ok);
  }

  /** An unpacked array: one record per item. */
  method EncodeEach(stream: OStream, f: Field, items: seq<Value>) returns (ok: bool)
    requires stream.Now().Sound() && TypedField(f, false)
    requires forall j :: 0 <= j < |items| ==> SendableItem(f, items[j], false) && ItemAddressable(f, items[j])
    modifies stream.Frame()
    ensures Encodes(old(stream.Now()), stream.Now(), EncEach(f, items), ok)
    decreases f, 2
  {
    hide Encodes, EncRecord, EncEach, SendableItem, ItemAddressable, TypedField;
    ghost var s := stream.Now();
    ghost var done := [];
    EncodesNothing(s);
    assert items[0..] == items;
    JoinAssoc(EncEach(f, items), None, None);
    var i := 0;
    while i < |items|
      invariant i <= |items|
      invariant Encodes(s, stream.Now(), Some(done), true)
      invariant Join(Some(done), EncEach(f, items[i..])) == EncEach(f, items)
    {
      ghost var t := stream.Now();
      ghost var e, rest := EncRecord(f, items[i]), EncEach(f, items[i + 1..]);
      EncodesSound(s, t, Some(done), true);
      EachCons(f, items, i);
      JoinAssoc(Some(done), e, rest);
      ok := EncodeRecord(stream, f, items[i]);
      EncodesThen(s, t, stream.Now(), Some(done), e, ok);
      if !ok {
        EncodesFailed(s, stream.Now(), Join(Some(done), e), rest);
        return;
      }
      EncodesSome(t, stream.Now(), e);
      done := done + e.value;
      i := i + 1;
    }
    EncPackedNil(f, items);
    JoinAssoc(Some(done), None, None);
    return true;
  }

  /** encode_array. */
  method EncodeArray(stream: OStream, f: Field, items: seq<Value>) returns (ok: bool)
    requires stream.Now().Sound() && TypedField(f, false) && (Packable(f) ==> Short(EncPacked(f, items)))
    requires forall j :: 0 <= j < |items| ==> SendableItem(f, items[j], false) && ItemAddressable(f, items[j])
    modifies stream.Frame()
    ensures Encodes(old(stream.Now()), stream.Now(), EncArray(f, items), ok)
    decreases f, 3
  {
    EncodesNothing(stream.Now());
    if |items| == 0 {
      return true;
    }
    if |items| > f.arraySize {
      return false;
    }
    if Packable(f) {
      ok := EncodePackedArray(stream, f, items);
    } else {
      ok := EncodeEach(stream, f, items);
    }
  }

  // ------------------------------------------------------------------- fields

  /** pb_check_proto3_default_value on the data of a singular field. */
  method CheckZeroValue(f: Field, v: Value) returns (zero: bool)
    requires TypedField(f, false) && SendableItem(f, v, false)
    ensures zero <==> IsZeroValue(f, v)
    decreases f, 0
  {
    match f.ltype
    case LBytes => return v.b == [];
    case LString => return |v.b| == 0 || v.b[0] == 0;
    case LFixedLengthBytes => return f.dataSize == 0;
    case LSubmessage =>
      if !f.ptr.Sub? { return false; }
      zero := CheckAllDefault(f.ptr.fields, v.m);
    case _ => return v.n == 0;
  }

  ghost predicate DefaultBefore(d: Desc, m: Msg, i: nat)
    requires |m| == |d| && i <= |d|
  {
    forall k :: 0 <= k < i ==> IsProto3Default(d[k], m[Leader(d, k)])
  }

  /** The loop of pb_check_proto3_default_value over the fields of a submessage. */
  method CheckAllDefault(d: Desc, m: Msg) returns (zero: bool)
    requires TypedDesc(d, false) && SendableMsg(d, m, false)
    ensures zero <==> AllProto3Default(d, m)
    decreases d, 2
  {
    TypedTags(d, false);
    var iter := new FieldIter(d, 0);
    if d == [] {
      return true;
    }
    var more := true;
    assert DefaultBefore(d, m, 0) && |m| == |d|;
    hide *;
    while more
      invariant iter.Valid() && iter.start == d && iter.pos < |d| && fresh(iter)
      invariant DefaultBefore(d, m, if more then iter.pos else |d|)
      decreases more, |d| - iter.pos
    {
      var i := iter.pos;
      var default := CheckDefault(d, m, i);
      DefaultStep(d, m, i);
      if !default {
        return false;
      }
      more := iter.Next();
    }
    DefaultStep(d, m, |d|);
    return true;
  }

  lemma {:induction false} DefaultStep(d: Desc, m: Msg, i: nat)
    requires |m| == |d| && i <= |d| && DefaultBefore(d, m, i)
    ensures i < |d| ==>
              if IsProto3Default(d[i], m[Leader(d, i)]) then DefaultBefore(d, m, i + 1) else !AllProto3Default(d, m)
    ensures i == |d| ==> AllProto3Default(d, m)
  {
    hide IsProto3Default;
  }

  /** pb_check_proto3_default_value. */
  method CheckDefault(d: Desc, m: Msg, i: nat) returns (default: bool)
    requires TypedDesc(d, false) && SendableMsg(d, m, false) && i < |d|
    ensures default <==> IsProto3Default(d[i], m[Leader(d, i)])
    decreases d, 1
  {
    var f, slot := d[i], m[Leader(d, i)];
    assert SendableSlot(f, slot, false);
    match f.htype
    case Required => return false;
    case Repeated => return f.sizeOffset != 0 && slot.items == [];
    case Oneof => return slot.which == 0;
    case Optional =>
      if f.sizeOffset != 0 {
        return !slot.has;
      }
      default := CheckZeroValue(f, slot.v);
  }

  /** encode_basic_field. */
  method EncodeField(stream: OStream, d: Desc, m: Msg, i: nat) returns (ok: bool)
    requires stream.Now().Sound() && TypedDesc(d, false) && SendableMsg(d, m, false) && MsgAddressable(d, m) && i < |d|
    modifies stream.Frame()
    ensures Encodes(old(stream.Now()), stream.Now(), EncField(d[i], m[Leader(d, i)]), ok)
    decreases d, 7
  {
    var f, slot := d[i], m[Leader(d, i)];
    assert SendableSlot(f, slot, false);
    assert SlotAddressable(f, slot) && TypedField(f, false);
    EncodesNothing(stream.Now());
    hide Encodes, SendableItem, ItemAddressable, TypedField, SendableMsg, MsgAddressable, EncRecord, EncArray;
    match f.htype
    case Required =>
      ok := EncodeRecord(stream, f, slot.v);
    case Optional =>
      var has;
      if f.sizeOffset != 0 {
        has := slot.has;
      } else {
        // A proto3 singular field counts as present unless it is zero.
        var zero := CheckZeroValue(f, slot.v);
        has := !zero;
      }
      if has {
        ok := EncodeRecord(stream, f, slot.v);
      } else {
        ok := true;
      }
    case Repeated =>
      ok := EncodeArray(stream, f, slot.items);
    case Oneof =>
      if slot.which == f.tag {
        ok := EncodeRecord(stream, f, slot.v);
      } else {
        ok := true;
      }
  }

  // ----------------------------------------------------------------- messages

  lemma {:induction false} FieldsCons(d: Desc, m: Msg, i: nat)
    requires |m| == |d| && i <= |d|
    ensures i < |d| ==> Leader(d, i) < |d|
    ensures i < |d| ==> EncFields(d, m, i) == Join(EncField(d[i], m[Leader(d, i)]), EncFields(d, m, i + 1))
    ensures EncFields(d, m, |d|) == Some([])
  {
  }

  /** The entries before i have been emitted since moment s. */
  ghost predicate EmittedBefore(s: Snap, t: Snap, d: Desc, m: Msg, i: nat, done: seq<Byte>)
    requires |m| == |d| && i <= |d|
  {
    Encodes(s, t, Some(done), true) && Join(Some(done), EncFields(d, m, i)) == Encode(d, m)
  }

  /** One turn of the loop of pb_encode. */
  method EncodeNext(stream: OStream, d: Desc, m: Msg, i: nat, ghost s: Snap, ghost done: seq<Byte>)
      returns (ok: bool, ghost done': seq<Byte>)
    requires TypedDesc(d, false) && SendableMsg(d, m, false) && MsgAddressable(d, m) && i < |d|
    requires EmittedBefore(s, stream.Now(), d, m, i, done)
    modifies stream.Frame()
    ensures ok ==> EmittedBefore(s, stream.Now(), d, m, i + 1, done')
    ensures !ok ==> Encodes(s, stream.Now(), Encode(d, m), false)
    decreases d, 8
  {
    ghost var t := stream.Now();
    ghost var e, rest := EncField(d[i], m[Leader(d, i)]), EncFields(d, m, i + 1);
    FieldsCons(d, m, i);
    JoinStep(done, e, rest);
    hide Encodes, EncField, EncFields, Encode, SendableMsg, MsgAddressable, TypedDesc, Leader, Join;
    EncodesSound(s, t, Some(done), true);
    ok := EncodeField(stream, d, m, i);
    EncodesThen(s, t, stream.Now(), Some(done), e, ok);
    if ok {
      EncodesSome(t, stream.Now(), e);
      done' := done + e.value;
    } else {
      EncodesFailed(s, stream.Now(), Join(Some(done), e), rest);
      done' := done;
    }
  }

  lemma {:induction false} NothingEmitted(s: Snap, d: Desc, m: Msg)
    requires s.Sound() && SendableMsg(d, m, false)
    ensures |m| == |d|
    ensures EmittedBefore(s, s, d, m, 0, [])
    ensures d == [] ==> Encodes(s, s, Encode(d, m), true)
  {
    hide SendableMsg, EncField;
    assert |m| == |d| by { SendableLength(d, m, false); }
    EncodesNothing(s);
    JoinStep([], None, EncFields(d, m, 0));
  }

  /** The loop of pb_encode. */
  method EncodeLoop(stream: OStream, iter: FieldIter, d: Desc, m: Msg, ghost s: Snap) returns (ok: bool)
    requires TypedDesc(d, false) && SendableMsg(d, m, false) && MsgAddressable(d, m) && |m| == |d|
    requires iter.Valid() && iter.start == d && iter.pos == 0 < |d|
    requires EmittedBefore(s, stream.Now(), d, m, 0, [])
    modifies stream.Frame(), iter
    ensures Encodes(s, stream.Now(), Encode(d, m), ok)
    decreases d, 9
  {
    hide *;
    ghost var done := [];
    var more := true;
    while more
      invariant iter.Valid() && iter.start == d && iter.pos < |d|
      invariant EmittedBefore(s, stream.Now(), d, m, if more then iter.pos else |d|, done)
      decreases more, |d| - iter.pos
    {
      ok, done := EncodeNext(stream, d, m, iter.pos, s, done);
      if !ok {
        return;
      }
      more := iter.Next();
    }
    AllEmitted(s, stream.Now(), d, m, done);
    return true;
  }

  /** pb_encode. */
  method EncodeMsg(stream: OStream, d: Desc, m: Msg) returns (ok: bool)
    requires stream.Now().Sound() && TypedDesc(d, false) && SendableMsg(d, m, false) && MsgAddressable(d, m)
    modifies stream.Frame()
    ensures Encodes(old(stream.Now()), stream.Now(), Encode(d, m), ok)
    decreases d, 10
  {
    hide *;
    ghost var s := stream.Now();
    NothingEmitted(s, d, m);
    TypedTags(d, false);
    var iter := new FieldIter(d, 0);
    if d == [] {
      return true;
    }
    ok := EncodeLoop(stream, iter, d, m, s);
  }

  lemma {:induction false} AllEmitted(s: Snap, t: Snap, d: Desc, m: Msg, done: seq<Byte>)
    requires |m| == |d| && EmittedBefore(s, t, d, m, |d|, done)
    ensures Encodes(s, t, Encode(d, m), true)
  {
    FieldsCons(d, m, |d|);
    JoinStep(done, None, None);
  }

  /** pb_get_encoded_size. */
  method GetEncodedSize(d: Desc, m: Msg) returns (ok: bool, size: nat)
    requires TypedDesc(d, false) && SendableMsg(d, m, false) && MsgAddressable(d, m)
    ensures ok <==> Encode(d, m).Some?
    ensures ok ==> size == |Encode(d, m).value|
  {
    var stream := new OStream.Sizing();
    ok := EncodeMsg(stream, d, m);
    SizingResult(stream.Now(), Encode(d, m), ok);
    size := stream.bytesWritten;
  }

  /** pb_encode_delimited: the message as a submessage, behind its length. */
  method EncodeDelimited(stream: OStream, d: Desc, m: Msg) returns (ok: bool)
    requires stream.Now().Sound() && TypedDesc(d, false) && SendableMsg(d, m, false) && MsgAddressable(d, m) &&
             Short(Encode(d, m))
    modifies stream.Frame()
    ensures Encodes(old(stream.Now()), stream.Now(), Delimiting(Encode(d, m)), ok)
  {
    hide *;
    ok := EncodeSubmessage(stream, d, m);
  }

  /** pb_encode_nullterminated. */
  method EncodeNullTerminated(stream: OStream, d: Desc, m: Msg) returns (ok: bool)
    requires stream.Now().Sound() && TypedDesc(d, false) && SendableMsg(d, m, false) && MsgAddressable(d, m)
    modifies stream.Frame()
    ensures Encodes(old(stream.Now()), stream.Now(), Join(Encode(d, m), Some([0])), ok)
  {
    ghost var s := stream.Now();
    hide Encode, TypedDesc, SendableMsg, MsgAddressable, Encodes;
    ok := EncodeMsg(stream, d, m);
    ghost var t := stream.Now();
    if !ok {
      EncodesFailed(s, t, Encode(d, m), Some([0]));
      return;
    }
    EncodesSound(s, t, Encode(d, m), true);
    ok := stream.Write([0], 1, [0]);
    EncodesThen(s, t, stream.Now(), Encode(d, m), Some([0]), ok);
  }

  /**
   * pb_ostream_from_buffer and pb_encode: it succeeds exactly when the encoding exists and fits,
   * and no byte behind what was written changes, whether it succeeds or not.
   */
  method EncodeToBuffer(buf: array<Byte>, d: Desc, m: Msg) returns (ok: bool, written: nat)
    requires TypedDesc(d, false) && SendableMsg(d, m, false) && MsgAddressable(d, m)
    modifies buf
    ensures ok <==> Encode(d, m).Some? && |Encode(d, m).value| <= buf.Length
    ensures written <= buf.Length
    ensures ok ==> written == |Encode(d, m).value| && buf[..written] == Encode(d, m).value
    ensures forall k :: written <= k < buf.Length ==> buf[k] == old(buf[k])
  {
    ghost var was := buf[..];
    hide Encode, TypedDesc, SendableMsg, MsgAddressable;
    var stream := new OStream.OnBuffer(buf, 0, buf.Length);
    ok := EncodeMsg(stream, d, m);
    written := stream.bytesWritten;
    WholeBuffer(was, stream.Now(), Encode(d, m), ok);
    assert forall k :: 0 <= k < buf.Length ==> buf[k] == buf[..][k] && old(buf[k]) == was[k];
  }

  lemma {:induction false} WholeBuffer(was: seq<Byte>, t: Snap, enc: Option<seq<Byte>>, ok: bool)
    requires Encodes(Snap(Some(|was|), was, 0, 0), t, enc, ok)
    ensures ok <==> enc.Some? && |enc.value| <= |was|
    ensures t.written <= |was| == |t.contents|
    ensures ok ==> t.written == |enc.value| && t.contents[..t.written] == enc.value
    ensures forall k :: t.written <= k < |was| ==> t.contents[k] == was[k]
  {
  }
}
