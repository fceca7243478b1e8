/**
 * What pb_encode emits for a message, as a byte string. None stands for an error return or, when
 * what would be sent is undetermined (VStale), for not knowing.
 */
module Encoding {
  import opened Basics
  import opened Varint
  import opened Descriptors
  import opened Scalars
  import opened OutputStream

  /** pb_encode_tag. */
  function Key(tag: nat, wt: nat): seq<Byte> {
    VarintBytes(tag * 8 + wt)
  }

  /** PB_ENCODERS. */
  function EncItem(f: Field, v: Value): Option<seq<Byte>>
    decreases f, 0
  {
    if f.ltype.LSubmessage? then
      if f.ptr.Sub? && v.VMsg? && |v.m| == |f.ptr.fields| then
        match EncFields(f.ptr.fields, v.m, 0)
        case None => None
        case Some(body) => Some(Delimit(body))
      else None
    else EncScalar(f, v)
  }

  /** The body of a packed array. */
  function EncPacked(f: Field, items: seq<Value>): Option<seq<Byte>> {
    if items == [] then Some([]) else Join(EncScalar(f, items[0]), EncPacked(f, items[1..]))
  }

  /** The unpacked array: a key in front of every item. */
  function EncEach(f: Field, items: seq<Value>): Option<seq<Byte>>
    decreases f, 1, |items|
  {
    if items == [] then Some([])
    else Join(Join(Some(Key(f.tag, WireType(f))), EncItem(f, items[0])), EncEach(f, items[1..]))
  }

  /** encode_array. Arrays are packed whenever the type allows it. */
  function EncArray(f: Field, items: seq<Value>): Option<seq<Byte>>
    decreases f, 2
  {
    if items == [] then Some([])
    else if |items| > f.arraySize then None
    else if Packable(f) then
      match EncPacked(f, items)
      case None => None
      case Some(body) => Some(Key(f.tag, WT_STRING) + Delimit(body))
    else EncEach(f, items)
  }

  /** A key and one item. */
  function EncRecord(f: Field, v: Value): Option<seq<Byte>>
    decreases f, 1
  {
    Join(Some(Key(f.tag, WireType(f))), EncItem(f, v))
  }

  /** pb_check_proto3_default_value on the slot of a field. */
  predicate IsProto3Default(f: Field, slot: Slot)
    decreases f, 1
  {
    match f.htype
    case Required => false
    case Repeated => !FixedCount(f) && slot.Rep? && slot.items == []
    case Oneof => slot.Union? && slot.which == 0
    case Optional =>
      if HasFlag(f) then slot.Opt? && !slot.has else slot.Single? && IsZeroValue(f, slot.v)
  }

  predicate IsZeroValue(f: Field, v: Value)
    decreases f, 0
  {
    match f.ltype
    case LBytes => v.VBytes? && v.b == []
    case LString => v.VBytes? && CString(v.b) == []
    case LFixedLengthBytes => f.dataSize == 0
    case LSubmessage => f.ptr.Sub? && v.VMsg? && |v.m| == |f.ptr.fields| && AllProto3Default(f.ptr.fields, v.m)
    case _ => v == VInt(0)
  }

  predicate AllProto3Default(d: Desc, m: Msg)
    requires |m| == |d|
    decreases d, 2
  {
    forall i :: 0 <= i < |d| ==> IsProto3Default(d[i], m[Leader(d, i)])
  }

  /** encode_basic_field, given the slot the field is stored in. */
  function EncField(f: Field, slot: Slot): Option<seq<Byte>>
    decreases f, 3
  {
    match f.htype
    case Required => if slot.Single? then EncRecord(f, slot.v) else None
    case Optional =>
      if HasFlag(f) then
        if !slot.Opt? then None else if slot.has then EncRecord(f, slot.v) else Some([])
      else
        if !slot.Single? then None else if IsZeroValue(f, slot.v) then Some([]) else EncRecord(f, slot.v)
    case Repeated =>
      if slot.Rep? && (FixedCount(f) ==> |slot.items| == f.arraySize) then EncArray(f, slot.items) else None
    case Oneof =>
      if !slot.Union? then None else if slot.which == f.tag then EncRecord(f, slot.v) else Some([])
  }

  /** pb_encode, from entry i of the descriptor on. */
  function EncFields(d: Desc, m: Msg, i: nat): Option<seq<Byte>>
    requires |m| == |d| && i <= |d|
    decreases d, 4, |d| - i
  {
    if i == |d| then Some([]) else Join(EncField(d[i], m[Leader(d, i)]), EncFields(d, m, i + 1))
  }

  function Encode(d: Desc, m: Msg): Option<seq<Byte>>
    requires |m| == |d|
  {
    EncFields(d, m, 0)
  }
}
