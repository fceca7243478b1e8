/** Which descriptors and messages the library is meant for, and when two messages are the same. */
module Messages {
  import opened Basics
  import opened Descriptors
  import opened Scalars
  import opened Encoding

  // ------------------------------------------------------------- descriptors

  predicate WellFormedField(f: Field)
    decreases f, 0
  {
    && 0 < f.tag < 0x2000_0000
    && f.atype.Static? && f.dataSize <= PB_SIZE_MAX && f.arraySize <= PB_SIZE_MAX
    && (f.htype.Required? ==> f.sizeOffset == 0)
    && (f.htype.Oneof? ==> f.sizeOffset != 0)
    && ArrayFits(f) && WidthFits(f)
    && (f.ltype.LVarint? || f.ltype.LUvarint? || f.ltype.LSvarint? ==> IntegerSize(f.dataSize))
    && (f.ltype.LSubmessage? <==> f.ptr.Sub?)
    && (f.ltype.LBytes? ==> BYTES_HEADER <= f.dataSize)
    && (f.ptr.Sub? ==> WellFormed(f.ptr.fields))
    && (f.ptr.Default? ==> ScalarOk(f, f.ptr.v))
  }

  /** A static descriptor as the generator writes it: distinct tags, no callbacks or extensions. */
  predicate WellFormed(d: Desc)
    decreases d, 1
  {
    && (forall i :: 0 <= i < |d| ==> WellFormedField(d[i]))
    && (forall i, j :: 0 <= i < j < |d| ==> d[i].tag != d[j].tag)
  }

  lemma {:induction false} TagPositive(f: Field)
    ensures WellFormedField(f) ==> f.tag != 0
  {
  }

  lemma {:induction false} FindOwnTag(d: Desc, i: nat)
    requires WellFormed(d) && i < |d|
    ensures FindTag(d, d[i].tag) == Some(i)
  {
    FindFromDistinct(d, i, 0);
  }

  // --------------------------------------------------------- storable messages

  /** A value the field can hold, with every payload in it below 2^63 bytes. */
  ghost predicate StorableItem(f: Field, v: Value)
    decreases f, 0
  {
    if f.ltype.LSubmessage? then
      && f.ptr.Sub? && v.VMsg? && |v.m| == |f.ptr.fields| && StorableMsg(f.ptr.fields, v.m)
      && (Encode(f.ptr.fields, v.m).Some? ==> |Encode(f.ptr.fields, v.m).value| < TWO_63)
    else ScalarOk(f, v)
  }

  ghost predicate StorableSlot(d: Desc, i: nat, slot: Slot)
    requires i < |d|
    decreases d, 1
  {
    var f := d[i];
    match f.htype
    case Required => slot.Single? && StorableItem(f, slot.v)
    case Optional =>
      if HasFlag(f) then slot.Opt? && (slot.has ==> StorableItem(f, slot.v))
      else slot.Single? && StorableItem(f, slot.v)
    case Repeated =>
      && slot.Rep? && |slot.items| <= f.arraySize && (FixedCount(f) ==> |slot.items| == f.arraySize)
      && (forall j :: 0 <= j < |slot.items| ==> StorableItem(f, slot.items[j]))
      && (Packable(f) && EncPacked(f, slot.items).Some? ==> |EncPacked(f, slot.items).value| < TWO_63)
    case Oneof =>
      Leader(d, i) == i ==>
        && slot.Union?
        && (slot.which != 0 ==>
              var k := FindTag(d, slot.which);
              k.Some? && Leader(d, k.value) == i && StorableItem(d[k.value], slot.v))
  }

  /** Counts in range, unions that name one of their members, and values their fields can hold. */
  ghost predicate StorableMsg(d: Desc, m: Msg)
    decreases d, 2
  {
    |m| == |d| && forall i :: 0 <= i < |d| ==> StorableSlot(d, i, m[i])
  }

  // --------------------------------------------------------- readable messages

  /** A length the decoder can read: it uses 32 bits. */
  predicate ReadableLength(body: Option<seq<Byte>>) {
    body.Some? ==> |body.value| < TWO_32
  }

  /** Strings that are sent leave room for the terminator the decoder writes, and payloads are below 4 GiB. */
  predicate ReadableItem(f: Field, v: Value)
    decreases f, 0
  {
    if f.ltype.LSubmessage? then
      && f.ptr.Sub? && v.VMsg? && |v.m| == |f.ptr.fields|
      && ReadableMsg(f.ptr.fields, v.m) && ReadableLength(Encode(f.ptr.fields, v.m))
    else Terminated(f, v)
  }

  /** The same for the slot of a field, as far as the field sends it. */
  predicate ReadableSlot(f: Field, slot: Slot)
    decreases f, 1
  {
    match f.htype
    case Required => slot.Single? ==> ReadableItem(f, slot.v)
    case Optional =>
      if HasFlag(f) then slot.Opt? && slot.has ==> ReadableItem(f, slot.v)
      else slot.Single? && !IsZeroValue(f, slot.v) ==> ReadableItem(f, slot.v)
    case Repeated =>
      slot.Rep? ==>
        && (forall j :: 0 <= j < |slot.items| ==> ReadableItem(f, slot.items[j]))
        && (Packable(f) ==> ReadableLength(EncPacked(f, slot.items)))
    case Oneof => slot.Union? && slot.which == f.tag ==> ReadableItem(f, slot.v)
  }

  predicate ReadableMsg(d: Desc, m: Msg)
    requires |m| == |d|
    decreases d, 2
  {
    forall i :: 0 <= i < |d| ==> ReadableSlot(d[i], m[Leader(d, i)])
  }

  // ----------------------------------------------------- messages zero stands for

  /** A proto3 singular field that is left out when zero, and whose default is zero too. */
  predicate ZeroDefault(f: Field) {
    f.ptr.Default? ==> IsZeroValue(f, f.ptr.v)
  }

  predicate FaithfulItem(f: Field, v: Value)
    decreases f, 0
  {
    f.ltype.LSubmessage? && f.ptr.Sub? && v.VMsg? && |v.m| == |f.ptr.fields| ==> FaithfulMsg(f.ptr.fields, v.m)
  }

  predicate FaithfulSlot(d: Desc, i: nat, slot: Slot)
    requires i < |d|
    decreases d, 1
  {
    var f := d[i];
    match f.htype
    case Required => slot.Single? ==> FaithfulItem(f, slot.v)
    case Optional =>
      if HasFlag(f) then slot.Opt? && slot.has ==> FaithfulItem(f, slot.v)
      else
        slot.Single? ==>
          && FaithfulItem(f, slot.v)
          && (!f.ltype.LSubmessage? && IsZeroValue(f, slot.v) ==> ZeroDefault(f))
    case Repeated => slot.Rep? ==> forall j :: 0 <= j < |slot.items| ==> FaithfulItem(f, slot.items[j])
    case Oneof =>
      Leader(d, i) == i && slot.Union? && slot.which != 0 && FindTag(d, slot.which).Some? ==>
        FaithfulItem(d[FindTag(d, slot.which).value], slot.v)
  }

  /** Every proto3 singular field that is left out as zero has a zero default, in submessages too. */
  predicate FaithfulMsg(d: Desc, m: Msg)
    decreases d, 2
  {
    |m| == |d| && forall i :: 0 <= i < |d| ==> FaithfulSlot(d, i, m[i])
  }

  /** A message that survives being sent. */
  ghost predicate ValidMsg(d: Desc, m: Msg) {
    StorableMsg(d, m) && ReadableMsg(d, m) && FaithfulMsg(d, m)
  }

  // ------------------------------------------------------------ same messages

  ghost predicate SameItem(f: Field, v: Value, w: Value)
    decreases f, 0
  {
    if f.ltype.LSubmessage? then f.ptr.Sub? && v.VMsg? && w.VMsg? && SameMsg(f.ptr.fields, v.m, w.m)
    else SameScalar(f, v, w)
  }

  /** Equal up to the data of unset optional fields and unions. */
  ghost predicate SameSlot(d: Desc, i: nat, s: Slot, t: Slot)
    requires i < |d|
    decreases d, 1
  {
    var f := d[i];
    match f.htype
    case Required => s.Single? && t.Single? && SameItem(f, s.v, t.v)
    case Optional =>
      if HasFlag(f) then s.Opt? && t.Opt? && s.has == t.has && (s.has ==> SameItem(f, s.v, t.v))
      else s.Single? && t.Single? && SameItem(f, s.v, t.v)
    case Repeated =>
      && s.Rep? && t.Rep? && |s.items| == |t.items|
      && forall j :: 0 <= j < |s.items| ==> SameItem(f, s.items[j], t.items[j])
    case Oneof =>
      Leader(d, i) == i ==>
        && s.Union? && t.Union? && s.which == t.which
        && (s.which != 0 ==>
              var k := FindTag(d, s.which);
              k.Some? && SameItem(d[k.value], s.v, t.v))
  }

  ghost predicate SameMsg(d: Desc, m: Msg, w: Msg)
    decreases d, 2
  {
    |m| == |d| && |w| == |d| && forall i :: 0 <= i < |d| ==> SameSlot(d, i, m[i], w[i])
  }

  // -------------------------------------------------------- what a receiver gets

  ghost predicate GotItem(f: Field, v: Value, w: Value)
    decreases f, 0
  {
    if f.ltype.LSubmessage? then f.ptr.Sub? && v.VMsg? && w.VMsg? && GotMsg(f.ptr.fields, v.m, w.m)
    else SameScalar(f, v, w)
  }

  /** The same contents, except that a proto3 singular field left out as zero is at its default. */
  ghost predicate GotSlot(d: Desc, i: nat, s: Slot, t: Slot)
    requires i < |d|
    decreases d, 1
  {
    var f := d[i];
    match f.htype
    case Required => s.Single? && t.Single? && GotItem(f, s.v, t.v)
    case Optional =>
      if HasFlag(f) then s.Opt? && t.Opt? && s.has == t.has && (s.has ==> GotItem(f, s.v, t.v))
      else s.Single? && t.Single? && if IsZeroValue(f, s.v) then t.v == InitialValue(f) else GotItem(f, s.v, t.v)
    case Repeated =>
      && s.Rep? && t.Rep? && |s.items| == |t.items|
      && forall j :: 0 <= j < |s.items| ==> GotItem(f, s.items[j], t.items[j])
    case Oneof =>
      Leader(d, i) == i ==>
        && s.Union? && t.Union? && s.which == t.which
        && (s.which != 0 ==>
              var k := FindTag(d, s.which);
              k.Some? && GotItem(d[k.value], s.v, t.v))
  }

  ghost predicate GotMsg(d: Desc, m: Msg, w: Msg)
    decreases d, 2
  {
    |m| == |d| && |w| == |d| && forall i :: 0 <= i < |d| ==> GotSlot(d, i, m[i], w[i])
  }

  lemma {:induction false} GotItemSame(f: Field, v: Value, w: Value)
    requires WellFormedField(f) && StorableItem(f, v) && GotItem(f, v, w)
    ensures SameItem(f, v, w) <==> FaithfulItem(f, v)
    decreases f, 0
  {
    if f.ltype.LSubmessage? {
      GotMsgSame(f.ptr.fields, v.m, w.m);
    }
  }

  /** A submessage left out as zero is got as its defaults. */
  lemma {:induction false} ZeroGot(d: Desc, m: Msg)
    requires WellFormed(d) && StorableMsg(d, m) && AllProto3Default(d, m)
    ensures GotMsg(d, m, Defaults(d))
  {
    hide StorableItem, GotItem, WellFormedField, IsZeroValue, InitialValue;
    forall i | 0 <= i < |d|
      ensures GotSlot(d, i, m[i], Defaults(d)[i])
    {
      assert StorableSlot(d, i, m[i]) && IsProto3Default(d[i], m[Leader(d, i)]);
    }
  }

  /** A scalar left out as zero is got back exactly when the default is zero. */
  lemma {:induction false} ZeroScalarSame(f: Field, v: Value)
    requires WellFormedField(f) && !f.ltype.LSubmessage? && StorableItem(f, v) && IsZeroValue(f, v)
    ensures SameItem(f, v, InitialValue(f)) <==> ZeroDefault(f)
  {
    if f.ltype.LFixedLengthBytes? {
      assert v.b == [] && Zeros(0) == [];
    }
  }

  lemma {:induction false} GotSlotSame(d: Desc, i: nat, s: Slot, t: Slot)
    requires WellFormed(d) && i < |d| && StorableSlot(d, i, s) && GotSlot(d, i, s, t)
    ensures SameSlot(d, i, s, t) <==> FaithfulSlot(d, i, s)
    decreases d, 1
  {
    var f := d[i];
    assert WellFormedField(f);
    hide WellFormedField, StorableItem, GotItem, SameItem, FaithfulItem, IsZeroValue, InitialValue, ZeroDefault;
    match f.htype
    case Required =>
      GotItemSame(f, s.v, t.v);
    case Optional =>
      if HasFlag(f) {
        if s.has {
          GotItemSame(f, s.v, t.v);
        }
      } else {
        GotSingularSame(f, s.v, t.v);
      }
    case Repeated =>
      forall j | 0 <= j < |s.items|
        ensures SameItem(f, s.items[j], t.items[j]) <==> FaithfulItem(f, s.items[j])
      {
        GotItemSame(f, s.items[j], t.items[j]);
      }
    case Oneof =>
      if Leader(d, i) == i && s.which != 0 {
        var k := FindTag(d, s.which).value;
        assert WellFormedField(d[k]);
        GotItemSame(d[k], s.v, t.v);
      }
  }

  lemma {:induction false} GotSingularSame(f: Field, v: Value, w: Value)
    requires WellFormedField(f) && StorableItem(f, v)
    requires if IsZeroValue(f, v) then w == InitialValue(f) else GotItem(f, v, w)
    ensures SameItem(f, v, w) <==> FaithfulItem(f, v) && (!f.ltype.LSubmessage? && IsZeroValue(f, v) ==> ZeroDefault(f))
    decreases f, 1
  {
    if !IsZeroValue(f, v) {
      GotItemSame(f, v, w);
    } else if f.ltype.LSubmessage? {
      ZeroGot(f.ptr.fields, v.m);
      GotMsgSame(f.ptr.fields, v.m, Defaults(f.ptr.fields));
    } else {
      ZeroScalarSame(f, v);
    }
  }

  /** What a receiver gets is what was sent exactly when zero stands for the default wherever it is left out. */
  lemma {:induction false} GotMsgSame(d: Desc, m: Msg, w: Msg)
    requires WellFormed(d) && StorableMsg(d, m) && GotMsg(d, m, w)
    ensures SameMsg(d, m, w) <==> FaithfulMsg(d, m)
    decreases d, 2
  {
    hide StorableSlot, GotSlot, SameSlot, FaithfulSlot, WellFormed;
    forall i | 0 <= i < |d|
      ensures SameSlot(d, i, m[i], w[i]) <==> FaithfulSlot(d, i, m[i])
    {
      GotSlotSame(d, i, m[i], w[i]);
    }
  }
}
