/** Field descriptors and the messages they describe (pb.h). */
module Descriptors {
  import opened Basics

  /** The library is built with 32-bit field sizes (PB_FIELD_32BIT). */
  const PB_SIZE_MAX := 0xFFFF_FFFF
  const PB_MAX_REQUIRED_FIELDS := 64
  /** offsetof(pb_bytes_array_t, bytes): the length word in front of a bytes array. */
  const BYTES_HEADER := 4
  const SIZEOF_POINTER := 8
  /** sizeof(pb_size_t). */
  const SIZEOF_COUNT := 4

  const WT_VARINT := 0
  const WT_64BIT := 1
  const WT_STRING := 2
  const WT_32BIT := 5

  datatype LType =
    | LBool | LVarint | LUvarint | LSvarint | LFixed32 | LFixed64
    | LBytes | LString | LSubmessage | LFixedLengthBytes

  datatype HType = Required | Optional | Repeated | Oneof

  datatype AType = Static | Pointer

  /** The ptr member of pb_field_t: a default value, or the fields of a submessage. */
  datatype Ptr = Null | Default(v: Value) | Sub(fields: Desc)

  datatype Field = Field(tag: nat, ltype: LType, htype: HType, atype: AType,
                         dataOffset: nat, sizeOffset: int,
                         dataSize: nat, arraySize: nat, ptr: Ptr)

  /** A pb_field_t array, without its terminator. */
  type Desc = seq<Field>

  /**
   * What a static field holds. A string is the run of bytes in front of the terminator the
   * decoder wrote; the C string is its prefix up to the first zero byte. VStale is memory whose
   * contents are not determined: whatever was there before, some of it overwritten.
   */
  datatype Value = VInt(n: int) | VBytes(b: seq<Byte>) | VMsg(m: Msg) | VStale

  /**
   * The storage of one field. A required or proto3 singular field is its value; an optional
   * one has a flag beside it; a counted array keeps its count as the length of items, and a
   * fixed-count array always has all its items. Members of one union share the slot of the
   * first member; the others have only a shadow.
   */
  datatype Slot =
    | Single(v: Value)
    | Opt(has: bool, v: Value)
    | Rep(items: seq<Value>)
    | Union(which: nat, v: Value)
    | Shadow

  /** A message structure: one slot per descriptor entry. */
  type Msg = seq<Slot>

  predicate Packable(f: Field) {
    f.ltype.LBool? || f.ltype.LVarint? || f.ltype.LUvarint? || f.ltype.LSvarint? || f.ltype.LFixed32? ||
        f.ltype.LFixed64?
  }

  /** A repeated field without a count of its own. */
  predicate FixedCount(f: Field) {
    f.htype.Repeated? && f.sizeOffset == 0
  }

  /** The types that are always stored in the same number of bytes have that size. */
  predicate WidthFits(f: Field) {
    && (f.ltype.LBool? ==> f.dataSize == 1)
    && (f.ltype.LFixed32? ==> f.dataSize == 4)
    && (f.ltype.LFixed64? ==> f.dataSize == 8)
  }

  /**
   * Offsets into a static array are computed in 32 bits. Where a fixed-count array is reset, a
   * count is stored over its data, which has to be large enough to take it.
   */
  predicate ArrayFits(f: Field) {
    f.htype.Repeated? ==>
      && f.dataSize * f.arraySize <= PB_SIZE_MAX
      && (FixedCount(f) ==> SIZEOF_COUNT <= f.dataSize * f.arraySize)
  }

  /** Every array of a message type, and of the submessages in it, is of such a size. */
  predicate ArraysFit(d: Desc)
    decreases d, 1
  {
    forall i :: 0 <= i < |d| ==> FieldArraysFit(d[i])
  }

  predicate FieldArraysFit(f: Field)
    decreases f, 0
  {
    ArrayFits(f) && (f.ptr.Sub? ==> ArraysFit(f.ptr.fields))
  }

  /** An optional field with a has_ flag; without one it is a proto3 singular field. */
  predicate HasFlag(f: Field) {
    f.htype.Optional? && f.sizeOffset != 0
  }

  /** The wire type pb_encode_tag_for_field gives a field. */
  function WireType(f: Field): (wt: nat)
    ensures wt < 8
  {
    match f.ltype
    case LBool | LVarint | LUvarint | LSvarint => WT_VARINT
    case LFixed32 => WT_32BIT
    case LFixed64 => WT_64BIT
    case LBytes | LString | LSubmessage | LFixedLengthBytes => WT_STRING
  }

  // ------------------------------------------------------------ descriptor shape

  /** The iterator does not advance between members of one union. */
  predicate SameUnion(prev: Field, cur: Field) {
    prev.htype.Oneof? && cur.htype.Oneof? && cur.dataOffset == PB_SIZE_MAX
  }

  /** The index of the first member of the union that entry i belongs to, or i itself. */
  function Leader(d: Desc, i: nat): (l: nat)
    requires i < |d|
    ensures l <= i && (l == i || d[i].htype.Oneof?)
  {
    if i > 0 && SameUnion(d[i - 1], d[i]) then Leader(d, i - 1) else i
  }

  /** The first member of a union leads itself. */
  lemma {:induction false} LeaderLeads(d: Desc, i: nat)
    requires i < |d|
    ensures Leader(d, Leader(d, i)) == Leader(d, i)
    ensures d[Leader(d, i)].htype.Oneof? <==> d[i].htype.Oneof?
  {
    if i > 0 && SameUnion(d[i - 1], d[i]) {
      LeaderLeads(d, i - 1);
    }
  }

  /** The first entry at or after index i that carries the tag. */
  function FindFrom(d: Desc, tag: nat, i: nat): (r: Option<nat>)
    requires i <= |d|
    ensures r.Some? ==> i <= r.value < |d| && d[r.value].tag == tag
    ensures r.None? ==> forall k :: i <= k < |d| ==> d[k].tag != tag
    decreases |d| - i
  {
    if i == |d| then None else if d[i].tag == tag then Some(i) else FindFrom(d, tag, i + 1)
  }

  function FindTag(d: Desc, tag: nat): (r: Option<nat>)
    ensures r.Some? ==> r.value < |d| && d[r.value].tag == tag
    ensures r.None? ==> forall k :: 0 <= k < |d| ==> d[k].tag != tag
  {
    FindFrom(d, tag, 0)
  }

  lemma {:induction false} FindFromDistinct(d: Desc, i: nat, k: nat)
    requires k <= i < |d| && forall a, b :: 0 <= a < b < |d| ==> d[a].tag != d[b].tag
    ensures FindFrom(d, d[i].tag, k) == Some(i)
    decreases i - k
  {
    if k < i {
      FindFromDistinct(d, i, k + 1);
    }
  }

  /** How many required fields come before entry i. */
  function RequiredBefore(d: Desc, i: nat): (n: nat)
    requires i <= |d|
    ensures n <= i
  {
    if i == 0 then 0 else RequiredBefore(d, i - 1) + (if d[i - 1].htype.Required? then 1 else 0)
  }

  // -------------------------------------------------------------- default values

  function Zeros(n: nat): (s: seq<Byte>)
    ensures |s| == n && forall i :: 0 <= i < n ==> s[i] == 0
  {
    seq(n, _ => 0)
  }

  function ZeroValue(f: Field): Value {
    match f.ltype
    case LBytes | LString => VBytes([])
    case LFixedLengthBytes => VBytes(Zeros(f.dataSize))
    case LSubmessage => VMsg([])
    case _ => VInt(0)
  }

  /** What pb_field_set_to_default gives the data of a required or optional field. */
  function InitialValue(f: Field): Value
    decreases f, 1
  {
    match f.ptr
    case Null => ZeroValue(f)
    case Default(v) => v
    case Sub(sub) => VMsg(Defaults(sub))
  }

  /** An array item or union member before it is decoded; for submessages, reset to defaults. */
  function BlankValue(f: Field): Value
    decreases f, 1
  {
    if f.ptr.Sub? then VMsg(Defaults(f.ptr.fields)) else ZeroValue(f)
  }

  function DefaultSlot(f: Field, leads: bool): Slot
    decreases f, 2
  {
    match f.htype
    case Required => Single(InitialValue(f))
    case Optional => if HasFlag(f) then Opt(false, InitialValue(f)) else Single(InitialValue(f))
    case Repeated => if FixedCount(f) then Rep(seq(f.arraySize, _ => VStale)) else Rep([])
    case Oneof => if leads then Union(0, VStale) else Shadow
  }

  /** pb_message_set_to_defaults. The items of a fixed-count array are not given a value. */
  function Defaults(d: Desc): (m: Msg)
    ensures |m| == |d|
    decreases d, 3
  {
    seq(|d|, i requires 0 <= i < |d| => DefaultSlot(d[i], Leader(d, i) == i))
  }
}
