/** Which structures a descriptor fits, and that decoding keeps them fitting. */
module Shapes {
  import opened Basics
  import opened Descriptors
  import opened Scalars
  import opened Encoding
  import opened FieldIterator

  /** The storage of a scalar field, before any bound on what is in it. */
  predicate ScalarShape(f: Field, v: Value) {
    match f.ltype
    case LBytes => v.VBytes?
    case LString => v.VBytes? && |v.b| <= f.dataSize
    case LFixedLengthBytes => v.VBytes? && |v.b| == f.dataSize
    case LSubmessage => false
    case _ => v.VInt?
  }

  /**
   * The value has the type the descriptor says; when strict, it also lies within the bounds of
   * its storage: integers in their width, runs of bytes inside their buffer. The items of a
   * fixed-count array may also be undetermined.
   */
  ghost predicate ItemShape(f: Field, v: Value, strict: bool)
    decreases f, 0
  {
    if f.ltype.LSubmessage? then v.VMsg? && (f.ptr.Sub? ==> MsgShape(f.ptr.fields, v.m, strict))
    else if strict then ScalarOk(f, v)
    else ScalarShape(f, v)
  }

  ghost predicate SlotShape(d: Desc, i: nat, slot: Slot, strict: bool)
    requires i < |d|
    decreases d, 1
  {
    var f := d[i];
    match f.htype
    case Required => slot.Single? && ItemShape(f, slot.v, strict)
    case Optional => (if HasFlag(f) then slot.Opt? else slot.Single?) && ItemShape(f, slot.v, strict)
    case Repeated =>
      && slot.Rep? && (strict ==> |slot.items| <= f.arraySize) && (FixedCount(f) ==> |slot.items| == f.arraySize)
      && forall j :: 0 <= j < |slot.items| ==>
          (FixedCount(f) && slot.items[j].VStale?) || ItemShape(f, slot.items[j], strict)
    case Oneof =>
      Leader(d, i) == i ==>
        slot.Union? && forall k :: 0 <= k < |d| && Leader(d, k) == i && d[k].tag == slot.which ==>
            ItemShape(d[k], slot.v, strict)
  }

  ghost predicate MsgShape(d: Desc, m: Msg, strict: bool)
    decreases d, 2
  {
    |m| == |d| && forall i :: 0 <= i < |d| ==> SlotShape(d, i, m[i], strict)
  }

  // -------------------------------------------------------------- descriptors

  predicate DistinctTags(d: Desc) {
    forall i, j :: 0 <= i < j < |d| ==> d[i].tag != d[j].tag
  }

  /**
   * A static field: a tag and a size that fit its type, a submessage descriptor exactly for
   * submessages (which may be missing), and a default of the field's type. When strict, zero and
   * the default also lie within the field's bounds.
   */
  predicate TypedField(f: Field, strict: bool)
    decreases f, 0
  {
    && 0 < f.tag <= PB_SIZE_MAX && f.atype.Static? && WidthFits(f)
    && (f.htype.Oneof? ==> f.sizeOffset != 0)
    && (match f.ptr
        case Null => strict ==> f.ltype.LSubmessage? || ScalarOk(f, ZeroValue(f))
        case Default(v) => if strict then ScalarOk(f, v) && ScalarOk(f, ZeroValue(f)) else ScalarShape(f, v)
        case Sub(sub) => f.ltype.LSubmessage? && TypedDesc(sub, strict))
  }

  /** What the encoder asks of a descriptor. */
  predicate TypedDesc(d: Desc, strict: bool)
    decreases d, 1
  {
    DistinctTags(d) && forall i :: 0 <= i < |d| ==> TypedField(d[i], strict)
  }

  lemma {:induction false} TypedTags(d: Desc, strict: bool)
    requires TypedDesc(d, strict)
    ensures NonzeroTags(d)
  {
    forall i | 0 <= i < |d|
      ensures d[i].tag != 0
    {
      assert TypedField(d[i], strict);
    }
  }

  predicate StaticField(f: Field, strict: bool) {
    TypedField(f, strict) && FieldArraysFit(f)
  }

  /** What the decoder asks: that resets and stores stay inside the arrays, besides. */
  predicate StaticDesc(d: Desc, strict: bool) {
    TypedDesc(d, strict) && ArraysFit(d)
  }

  lemma {:induction false} StaticEntry(d: Desc, i: nat, strict: bool)
    requires StaticDesc(d, strict) && i < |d|
    ensures StaticField(d[i], strict)
  {
    assert TypedField(d[i], strict) && FieldArraysFit(d[i]);
  }

  lemma {:induction false} StaticTags(d: Desc, strict: bool)
    requires StaticDesc(d, strict)
    ensures NonzeroTags(d)
  {
    TypedTags(d, strict);
  }

  // ------------------------------------------------------------ what can be sent

  /** A value the encoder can read: of the field's type, with nothing undetermined in it that is sent. */
  ghost predicate SendableItem(f: Field, v: Value, strict: bool)
    decreases f, 0
  {
    if f.ltype.LSubmessage? then v.VMsg? && (f.ptr.Sub? ==> SendableMsg(f.ptr.fields, v.m, strict))
    else if strict then ScalarOk(f, v)
    else ScalarShape(f, v)
  }

  /** The slot of a field as the encoder finds it; the data of unset fields does not matter. */
  ghost predicate SendableSlot(f: Field, slot: Slot, strict: bool)
    decreases f, 1
  {
    match f.htype
    case Required => slot.Single? && SendableItem(f, slot.v, strict)
    case Optional =>
      if HasFlag(f) then slot.Opt? && (slot.has ==> SendableItem(f, slot.v, strict))
      else slot.Single? && SendableItem(f, slot.v, strict)
    case Repeated =>
      && slot.Rep? && (strict ==> |slot.items| <= f.arraySize) && (FixedCount(f) ==> |slot.items| == f.arraySize)
      && forall j :: 0 <= j < |slot.items| ==> SendableItem(f, slot.items[j], strict)
    case Oneof => slot.Union? && (slot.which == f.tag ==> SendableItem(f, slot.v, strict))
  }

  ghost predicate SendableMsg(d: Desc, m: Msg, strict: bool)
    decreases d, 2
  {
    |m| == |d| && forall i :: 0 <= i < |d| ==> SendableSlot(d[i], m[Leader(d, i)], strict)
  }

  lemma {:induction false} SendableLength(d: Desc, m: Msg, strict: bool)
    requires SendableMsg(d, m, strict)
    ensures |m| == |d|
  {
  }

  // ---------------------------------------------------------------- addresses

  predicate Short(enc: Option<seq<Byte>>) {
    enc.Some? ==> |enc.value| < TWO_64
  }

  /** Every length the encoder has to compute is a size_t. */
  ghost predicate ItemAddressable(f: Field, v: Value)
    decreases f, 0
  {
    match v
    case VInt(_) => true
    case VBytes(b) => |b| < TWO_64
    case VStale => true
    case VMsg(m) =>
      f.ptr.Sub? && |m| == |f.ptr.fields| ==> Short(Encode(f.ptr.fields, m)) && MsgAddressable(f.ptr.fields, m)
  }

  ghost predicate SlotAddressable(f: Field, slot: Slot)
    decreases f, 1
  {
    match slot
    case Single(v) => ItemAddressable(f, v)
    case Opt(has, v) => has ==> ItemAddressable(f, v)
    case Rep(items) =>
      && (forall j :: 0 <= j < |items| ==> ItemAddressable(f, items[j]))
      && (Packable(f) ==> Short(EncPacked(f, items)) && 8 * |items| < TWO_64)
    case Union(which, v) => which == f.tag ==> ItemAddressable(f, v)
    case Shadow => true
  }

  ghost predicate MsgAddressable(d: Desc, m: Msg)
    decreases d, 2
  {
    |m| == |d| && forall i :: 0 <= i < |d| ==> SlotAddressable(d[i], m[Leader(d, i)])
  }
}
