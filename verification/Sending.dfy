/** Which messages the encoder accepts, and which of those the decoder leaves it accepts. */
module Sending {
  import opened Basics
  import opened Descriptors
  import opened Scalars
  import opened Encoding
  import opened Decoding
  import opened Messages
  import opened Shapes
  import opened TypeSafety
  import opened Merging

  // -------------------------------------------------------- sendable is encodable

  lemma {:induction false} SendableItemEncodes(f: Field, v: Value)
    requires WellFormedField(f) && SendableItem(f, v, true)
    ensures EncItem(f, v).Some?
    decreases f, 0
  {
    if f.ltype.LSubmessage? {
      SendableFieldsEncode(f.ptr.fields, v.m, 0);
    }
  }

  lemma {:induction false} SendablePackedEncodes(f: Field, vs: seq<Value>)
    requires WellFormedField(f) && !f.ltype.LSubmessage? && forall j :: 0 <= j < |vs| ==> SendableItem(f, vs[j], true)
    ensures EncPacked(f, vs).Some?
    decreases f, 1, |vs|
  {
    hide EncScalar, SendableItem, WellFormedField;
    if vs != [] {
      SendableItemEncodes(f, vs[0]);
      SendablePackedEncodes(f, vs[1..]);
    }
  }

  lemma {:induction false} SendableEachEncodes(f: Field, vs: seq<Value>)
    requires WellFormedField(f) && forall j :: 0 <= j < |vs| ==> SendableItem(f, vs[j], true)
    ensures EncEach(f, vs).Some?
    decreases f, 1, |vs|
  {
    hide EncItem, SendableItem, WellFormedField;
    if vs != [] {
      SendableItemEncodes(f, vs[0]);
      SendableEachEncodes(f, vs[1..]);
    }
  }

  lemma {:induction false} SendableFieldEncodes(f: Field, slot: Slot)
    requires WellFormedField(f) && SendableSlot(f, slot, true)
    ensures EncField(f, slot).Some?
    decreases f, 3
  {
    hide EncItem, SendableItem, EncPacked, EncEach, IsZeroValue;
    match f.htype
    case Repeated =>
      if Packable(f) {
        SendablePackedEncodes(f, slot.items);
      } else {
        SendableEachEncodes(f, slot.items);
      }
    case Oneof =>
      if slot.which == f.tag {
        SendableItemEncodes(f, slot.v);
      }
    case Optional =>
      if !HasFlag(f) || slot.has {
        SendableItemEncodes(f, slot.v);
      }
    case Required =>
      SendableItemEncodes(f, slot.v);
  }

  lemma {:induction false} SendableFieldsEncode(d: Desc, m: Msg, i: nat)
    requires WellFormed(d) && SendableMsg(d, m, true) && |m| == |d| && i <= |d|
    ensures EncFields(d, m, i).Some?
    decreases d, 4, |d| - i
  {
    hide SendableSlot, EncField, WellFormedField;
    if i < |d| {
      assert WellFormedField(d[i]) && SendableSlot(d[i], m[Leader(d, i)], true);
      SendableFieldEncodes(d[i], m[Leader(d, i)]);
      SendableFieldsEncode(d, m, i + 1);
    }
  }

  // -------------------------------------------------------- storable is sendable

  lemma {:induction false} StorableItemSendable(f: Field, v: Value, strict: bool)
    requires WellFormedField(f) && StorableItem(f, v)
    ensures SendableItem(f, v, strict) && ItemAddressable(f, v)
    decreases f, 0
  {
    if f.ltype.LSubmessage? {
      StorableSendable(f.ptr.fields, v.m, strict);
    } else {
      ScalarOkShape(f, v);
    }
  }

  lemma {:induction false} StorableSlotSendable(d: Desc, m: Msg, i: nat, strict: bool)
    requires WellFormed(d) && |m| == |d| && i < |d| && StorableSlot(d, Leader(d, i), m[Leader(d, i)])
    ensures SendableSlot(d[i], m[Leader(d, i)], strict) && SlotAddressable(d[i], m[Leader(d, i)])
    decreases d[i], 1
  {
    var f, slot := d[i], m[Leader(d, i)];
    assert WellFormedField(f);
    hide WellFormedField, StorableItem, SendableItem, ItemAddressable, EncPacked;
    LeaderLeads(d, i);
    FindOwnTag(d, i);
    match f.htype
    case Required =>
      StorableItemSendable(f, slot.v, strict);
    case Optional =>
      if !HasFlag(f) || slot.has {
        StorableItemSendable(f, slot.v, strict);
      }
    case Repeated =>
      assert f.arraySize <= PB_SIZE_MAX by { ArrayBounded(f); }
      forall j | 0 <= j < |slot.items|
        ensures SendableItem(f, slot.items[j], strict) && ItemAddressable(f, slot.items[j])
      {
        StorableItemSendable(f, slot.items[j], strict);
      }
    case Oneof =>
      if slot.which == f.tag {
        assert f.tag != 0 by { ArrayBounded(f); }
        StorableItemSendable(f, slot.v, strict);
      }
  }

  lemma {:induction false} ArrayBounded(f: Field)
    requires WellFormedField(f)
    ensures f.arraySize <= PB_SIZE_MAX && f.tag != 0
  {
  }

  /** A storable message can be sent, and every length the encoder computes is a size_t. */
  lemma {:induction false} StorableSendable(d: Desc, m: Msg, strict: bool)
    requires WellFormed(d) && StorableMsg(d, m)
    ensures SendableMsg(d, m, strict) && MsgAddressable(d, m)
    decreases d, 2
  {
    hide SendableSlot, SlotAddressable, StorableSlot, WellFormed;
    forall i | 0 <= i < |d|
      ensures SendableSlot(d[i], m[Leader(d, i)], strict) && SlotAddressable(d[i], m[Leader(d, i)])
    {
      StorableSlotSendable(d, m, i, strict);
    }
  }

  /** A well-formed descriptor is one the encoder and the decoder can handle. */
  lemma {:induction false} WellFormedStatic(d: Desc, strict: bool)
    requires WellFormed(d)
    ensures TypedDesc(d, strict) && ArraysFit(d) && StaticDesc(d, strict)
    decreases d, 1
  {
    hide WellFormedField, TypedField, FieldArraysFit;
    forall i | 0 <= i < |d|
      ensures TypedField(d[i], strict) && FieldArraysFit(d[i])
    {
      WellFormedFieldStatic(d[i], strict);
    }
  }

  lemma {:induction false} WellFormedFieldStatic(f: Field, strict: bool)
    requires WellFormedField(f)
    ensures TypedField(f, strict) && FieldArraysFit(f)
    decreases f, 0
  {
    if f.ptr.Sub? {
      WellFormedStatic(f.ptr.fields, strict);
    } else if f.ptr.Default? {
      ScalarOkShape(f, f.ptr.v);
    }
  }

  // --------------------------------------------------- exactly what is encodable

  /** A run of bytes inside its buffer. Numbers and strings are always within bounds for the encoder. */
  predicate InBoundsItem(f: Field, v: Value)
    decreases f, 0
  {
    if f.ltype.LSubmessage? then
      f.ptr.Sub? && v.VMsg? && |v.m| == |f.ptr.fields| ==> InBoundsMsg(f.ptr.fields, v.m)
    else f.ltype.LBytes? && v.VBytes? ==> |v.b| + 4 <= f.dataSize
  }

  /** Besides, a count of at most array_size; as far as the field is sent. */
  predicate InBoundsSlot(f: Field, slot: Slot)
    decreases f, 1
  {
    match f.htype
    case Required => slot.Single? ==> InBoundsItem(f, slot.v)
    case Optional =>
      if HasFlag(f) then slot.Opt? && slot.has ==> InBoundsItem(f, slot.v)
      else slot.Single? && !IsZeroValue(f, slot.v) ==> InBoundsItem(f, slot.v)
    case Repeated =>
      slot.Rep? ==> |slot.items| <= f.arraySize && forall j :: 0 <= j < |slot.items| ==> InBoundsItem(f, slot.items[j])
    case Oneof => slot.Union? && slot.which == f.tag ==> InBoundsItem(f, slot.v)
  }

  predicate InBoundsMsg(d: Desc, m: Msg)
    requires |m| == |d|
    decreases d, 2
  {
    forall i :: 0 <= i < |d| ==> InBoundsSlot(d[i], m[Leader(d, i)])
  }

  lemma {:induction false} ItemEncodes(f: Field, v: Value)
    requires WellFormedField(f) && SendableItem(f, v, false)
    ensures EncItem(f, v).Some? <==> InBoundsItem(f, v)
    decreases f, 0
  {
    if f.ltype.LSubmessage? {
      FieldsEncode(f.ptr.fields, v.m, 0);
    }
  }

  lemma {:induction false} PackedEncodes(f: Field, vs: seq<Value>)
    requires WellFormedField(f) && Packable(f) && forall j :: 0 <= j < |vs| ==> SendableItem(f, vs[j], false)
    ensures EncPacked(f, vs).Some? && forall j :: 0 <= j < |vs| ==> InBoundsItem(f, vs[j])
    decreases f, 1, |vs|
  {
    if vs != [] {
      assert EncScalar(f, vs[0]).Some?;
      hide EncScalar, SendableItem, WellFormedField;
      PackedEncodes(f, vs[1..]);
    }
  }

  lemma {:induction false} EachEncodes(f: Field, vs: seq<Value>)
    requires WellFormedField(f) && forall j :: 0 <= j < |vs| ==> SendableItem(f, vs[j], false)
    ensures EncEach(f, vs).Some? <==> forall j :: 0 <= j < |vs| ==> InBoundsItem(f, vs[j])
    decreases f, 1, |vs|
  {
    hide EncItem, SendableItem, WellFormedField, InBoundsItem;
    if vs != [] {
      ItemEncodes(f, vs[0]);
      EachEncodes(f, vs[1..]);
      assert forall j :: 0 < j < |vs| ==> vs[j] == vs[1..][j - 1];
      assert forall j :: 0 <= j < |vs| - 1 ==> vs[1..][j] == vs[j + 1];
    }
  }

  lemma {:induction false} FieldEncodes(f: Field, slot: Slot)
    requires WellFormedField(f) && SendableSlot(f, slot, false)
    ensures EncField(f, slot).Some? <==> InBoundsSlot(f, slot)
    decreases f, 3
  {
    hide EncItem, SendableItem, EncPacked, EncEach, IsZeroValue, InBoundsItem;
    match f.htype
    case Repeated =>
      if Packable(f) {
        PackedEncodes(f, slot.items);
      } else {
        EachEncodes(f, slot.items);
      }
    case Oneof =>
      if slot.which == f.tag {
        ItemEncodes(f, slot.v);
      }
    case Optional =>
      if !HasFlag(f) || slot.has {
        ItemEncodes(f, slot.v);
      }
    case Required =>
      ItemEncodes(f, slot.v);
  }

  lemma {:induction false} FieldsEncode(d: Desc, m: Msg, i: nat)
    requires WellFormed(d) && SendableMsg(d, m, false) && |m| == |d| && i <= |d|
    ensures EncFields(d, m, i).Some? <==> forall k :: i <= k < |d| ==> InBoundsSlot(d[k], m[Leader(d, k)])
    decreases d, 4, |d| - i
  {
    hide SendableSlot, EncField, WellFormedField, InBoundsSlot;
    if i < |d| {
      assert WellFormedField(d[i]) && SendableSlot(d[i], m[Leader(d, i)], false);
      FieldEncodes(d[i], m[Leader(d, i)]);
      FieldsEncode(d, m, i + 1);
    }
  }

  /** Whatever a structure of the type holds, the encoder accepts it exactly when what is sent is within bounds. */
  lemma {:induction false} EncodesExactly(d: Desc, m: Msg)
    requires WellFormed(d) && SendableMsg(d, m, false) && |m| == |d|
    ensures Encode(d, m).Some? <==> InBoundsMsg(d, m)
  {
    hide SendableMsg, EncFields, WellFormed, InBoundsSlot;
    FieldsEncode(d, m, 0);
  }

  // --------------------------------------------------- what the decoder leaves

  /** The same value, with memory of the item's type where it is undetermined. */
  ghost predicate FillsItem(f: Field, v: Value, w: Value)
    decreases f, 0
  {
    if v.VStale? then SendableItem(f, w, false)
    else if f.ltype.LSubmessage? then v.VMsg? && w.VMsg? && (f.ptr.Sub? ==> FillsMsg(f.ptr.fields, v.m, w.m))
    else w == v
  }

  /** The same for the slot of a field; the data of unset fields may be anything. */
  ghost predicate FillsSlot(f: Field, s: Slot, t: Slot)
    decreases f, 1
  {
    match f.htype
    case Required => s.Single? && t.Single? && FillsItem(f, s.v, t.v)
    case Optional =>
      if HasFlag(f) then s.Opt? && t.Opt? && t.has == s.has && (s.has ==> FillsItem(f, s.v, t.v))
      else s.Single? && t.Single? && FillsItem(f, s.v, t.v)
    case Repeated =>
      && s.Rep? && t.Rep? && |s.items| == |t.items|
      && forall j :: 0 <= j < |s.items| ==> FillsItem(f, s.items[j], t.items[j])
    case Oneof => s.Union? && t.Union? && t.which == s.which && (s.which == f.tag ==> FillsItem(f, s.v, t.v))
  }

  ghost predicate FillsMsg(d: Desc, m: Msg, w: Msg)
    decreases d, 2
  {
    |m| == |d| && |w| == |d| && forall i :: 0 <= i < |d| ==> FillsSlot(d[i], m[Leader(d, i)], w[Leader(d, i)])
  }

  /** What fills the undetermined items is within bounds, as far as it is sent. */
  predicate FillingItem(f: Field, v: Value, w: Value)
    decreases f, 0
  {
    if v.VStale? then InBoundsItem(f, w)
    else f.ltype.LSubmessage? && f.ptr.Sub? && v.VMsg? && w.VMsg? ==> FillingMsg(f.ptr.fields, v.m, w.m)
  }

  predicate FillingSlot(f: Field, s: Slot, t: Slot)
    decreases f, 1
  {
    match f.htype
    case Required => s.Single? && t.Single? ==> FillingItem(f, s.v, t.v)
    case Optional =>
      if HasFlag(f) then s.Opt? && t.Opt? && s.has ==> FillingItem(f, s.v, t.v)
      else s.Single? && t.Single? && !IsZeroValue(f, t.v) ==> FillingItem(f, s.v, t.v)
    case Repeated =>
      s.Rep? && t.Rep? && |s.items| == |t.items| ==> forall j :: 0 <= j < |s.items| ==>
          FillingItem(f, s.items[j], t.items[j])
    case Oneof => s.Union? && t.Union? && s.which == f.tag ==> FillingItem(f, s.v, t.v)
  }

  predicate FillingMsg(d: Desc, m: Msg, w: Msg)
    decreases d, 2
  {
    |m| == |d| && |w| == |d| && forall i :: 0 <= i < |d| ==> FillingSlot(d[i], m[Leader(d, i)], w[Leader(d, i)])
  }

  lemma {:induction false} FilledItem(f: Field, v: Value, w: Value)
    requires WellFormedField(f) && (v.VStale? || ItemShape(f, v, true)) && FillsItem(f, v, w)
    ensures SendableItem(f, w, false)
    ensures InBoundsItem(f, w) <==> FillingItem(f, v, w)
    decreases f, 0
  {
    if !v.VStale? {
      if f.ltype.LSubmessage? {
        FilledMsg(f.ptr.fields, v.m, w.m);
      } else {
        ScalarOkShape(f, v);
      }
    }
  }

  lemma {:induction false} FilledSlot(d: Desc, i: nat, s: Slot, t: Slot)
    requires WellFormed(d) && i < |d| && OwnShape(d, i, s, true) && FillsSlot(d[i], s, t)
    ensures SendableSlot(d[i], t, false)
    ensures InBoundsSlot(d[i], t) <==> FillingSlot(d[i], s, t)
    decreases d[i], 1
  {
    var f := d[i];
    assert WellFormedField(f);
    LeaderLeads(d, i);
    hide WellFormed, WellFormedField, ItemShape, SendableItem, InBoundsItem, FillsItem, FillingItem, IsZeroValue;
    match f.htype
    case Required =>
      FilledItem(f, s.v, t.v);
    case Optional =>
      if !HasFlag(f) || s.has {
        FilledItem(f, s.v, t.v);
      }
    case Repeated =>
      forall j | 0 <= j < |s.items|
        ensures SendableItem(f, t.items[j], false) &&
                (InBoundsItem(f, t.items[j]) <==> FillingItem(f, s.items[j], t.items[j]))
      {
        FilledItem(f, s.items[j], t.items[j]);
      }
    case Oneof =>
      if s.which == f.tag {
        FilledItem(f, s.v, t.v);
      }
  }

  lemma {:induction false} FilledMsg(d: Desc, m: Msg, w: Msg)
    requires WellFormed(d) && MsgShape(d, m, true) && FillsMsg(d, m, w)
    ensures SendableMsg(d, w, false)
    ensures InBoundsMsg(d, w) <==> FillingMsg(d, m, w)
    decreases d, 2
  {
    hide SlotShape, FillsSlot, SendableSlot, InBoundsSlot, FillingSlot, WellFormed;
    forall i | 0 <= i < |d|
      ensures SendableSlot(d[i], w[Leader(d, i)], false)
      ensures InBoundsSlot(d[i], w[Leader(d, i)]) <==> FillingSlot(d[i], m[Leader(d, i)], w[Leader(d, i)])
    {
      assert OwnShape(d, i, m[Leader(d, i)], true);
      FilledSlot(d, i, m[Leader(d, i)], w[Leader(d, i)]);
    }
  }

  /**
   * Whatever bytes a decode accepts, the message it gives is within bounds, and the encoder accepts
   * it if nothing in it that would be sent is undetermined.
   */
  lemma {:induction false} DecodedEncodes(d: Desc, s: seq<Byte>)
    requires WellFormed(d) && Decode(d, s).Read?
    ensures MsgShape(d, Decode(d, s).val, true)
    ensures SendableMsg(d, Decode(d, s).val, true) ==> Encode(d, Decode(d, s).val).Some?
  {
    hide WellFormed, StaticDesc, Defaults, DecodeNoinit, EncFields, SendableMsg, MsgShape;
    WellFormedStatic(d, true);
    DefaultsShape(d, true);
    MsgKept(d, s, Defaults(d), true);
    if SendableMsg(d, Decode(d, s).val, true) {
      SendableFieldsEncode(d, Decode(d, s).val, 0);
    }
  }

  /**
   * The structure in memory after a decode holds the decoded message, and something or other where
   * that is undetermined. The encoder accepts it exactly when what is there by chance, and sent, is
   * within bounds: runs of bytes inside their buffers, and counts in submessages at most array_size.
   */
  lemma {:induction false} FilledEncodes(d: Desc, s: seq<Byte>, w: Msg)
    requires WellFormed(d) && Decode(d, s).Read? && FillsMsg(d, Decode(d, s).val, w)
    ensures SendableMsg(d, w, false) && |w| == |d|
    ensures Encode(d, w).Some? <==> FillingMsg(d, Decode(d, s).val, w)
    ensures Encode(d, w).Some? <==> InBoundsMsg(d, w)
  {
    hide WellFormed, Decode, Encode, SendableMsg, MsgShape, InBoundsSlot, FillingSlot, FillsSlot;
    DecodedEncodes(d, s);
    FilledMsg(d, Decode(d, s).val, w);
    EncodesExactly(d, w);
  }

  /** An array of one number that does not arrive is sent as whatever was in its place. */
  lemma {:induction false} UnarrivedNumberSent(n: nat)
    requires n < TWO_32
    ensures WellFormed([ONE_NUMBER]) && Decode([ONE_NUMBER], []) == Read([Rep([VStale])], 0)
    ensures FillsMsg([ONE_NUMBER], [Rep([VStale])], [Rep([VInt(n)])])
    ensures Encode([ONE_NUMBER], [Rep([VInt(n)])]).Some?
  {
    hide Encode;
    var d, m, w := [ONE_NUMBER], [Rep([VStale])], [Rep([VInt(n)])];
    assert d[0] == ONE_NUMBER && m[0] == Rep([VStale]) && w[0] == Rep([VInt(n)]) && Leader(d, 0) == 0;
    assert WellFormedField(ONE_NUMBER);
    UnarrivedDecodes(ONE_NUMBER);
    assert SendableItem(ONE_NUMBER, VInt(n), false);
    assert FillsSlot(ONE_NUMBER, m[0], w[0]);
    FilledEncodes(d, [], w);
    assert InBoundsItem(ONE_NUMBER, VInt(n)) && InBoundsSlot(ONE_NUMBER, w[0]);
  }

  lemma {:induction false} UnarrivedDecodes(f: Field)
    requires FixedCount(f) && f.arraySize == 1
    ensures Decode([f], []) == Read([Rep([VStale])], 0)
  {
    var d := [f];
    assert DefaultSlot(f, true) == Rep([VStale]);
    assert Defaults(d) == [Rep([VStale])];
    assert RequiredBefore(d, 1) == RequiredBefore(d, 0) == 0;
    assert Run(d, [], Start(Defaults(d))) == Done(Start(Defaults(d)), 0);
  }

  /** A fixed-count array of one run of at most four bytes. */
  const ONE_RUN := Field(1, LBytes, Repeated, Static, 0, 0, 8, 1, Null)

  /** One that does not arrive is sent, or refused, by the size that happens to be in its place. */
  lemma {:induction false} UnarrivedRunSent(b: seq<Byte>)
    ensures WellFormed([ONE_RUN]) && Decode([ONE_RUN], []) == Read([Rep([VStale])], 0)
    ensures FillsMsg([ONE_RUN], [Rep([VStale])], [Rep([VBytes(b)])])
    ensures Encode([ONE_RUN], [Rep([VBytes(b)])]).Some? <==> |b| <= 4
  {
    hide Encode;
    var d, m, w := [ONE_RUN], [Rep([VStale])], [Rep([VBytes(b)])];
    assert d[0] == ONE_RUN && m[0] == Rep([VStale]) && w[0] == Rep([VBytes(b)]) && Leader(d, 0) == 0;
    assert WellFormedField(ONE_RUN);
    UnarrivedDecodes(ONE_RUN);
    assert SendableItem(ONE_RUN, VBytes(b), false);
    assert FillsSlot(ONE_RUN, m[0], w[0]);
    FilledEncodes(d, [], w);
    assert InBoundsItem(ONE_RUN, VBytes(b)) <==> |b| <= 4;
    assert InBoundsSlot(ONE_RUN, w[0]) <==> |b| <= 4;
  }

  /** No fixed-count arrays, in submessages either. */
  predicate NoFixedCounts(d: Desc)
    decreases d, 1
  {
    forall i :: 0 <= i < |d| ==> NoFixedCount(d[i])
  }

  predicate NoFixedCount(f: Field)
    decreases f, 0
  {
    !FixedCount(f) && (f.ptr.Sub? ==> NoFixedCounts(f.ptr.fields))
  }

  lemma {:induction false} PlainItemSendable(f: Field, v: Value)
    requires NoFixedCount(f) && ItemShape(f, v, true)
    ensures SendableItem(f, v, true)
    decreases f, 0
  {
    if f.ltype.LSubmessage? && f.ptr.Sub? {
      PlainSendable(f.ptr.fields, v.m);
    }
  }

  /** Without fixed-count arrays nothing a decode leaves is undetermined. */
  lemma {:induction false} PlainSendable(d: Desc, m: Msg)
    requires NoFixedCounts(d) && MsgShape(d, m, true)
    ensures SendableMsg(d, m, true)
    decreases d, 1
  {
    forall i | 0 <= i < |d|
      ensures SendableSlot(d[i], m[Leader(d, i)], true)
    {
      PlainSlotSendable(d, m, i);
    }
  }

  lemma {:induction false} PlainSlotSendable(d: Desc, m: Msg, i: nat)
    requires NoFixedCounts(d) && MsgShape(d, m, true) && i < |d|
    ensures SendableSlot(d[i], m[Leader(d, i)], true)
    decreases d, 0
  {
    var f, slot := d[i], m[Leader(d, i)];
    assert NoFixedCount(f) && OwnShape(d, i, slot, true);
    LeaderLeads(d, i);
    hide ItemShape, SendableItem;
    match f.htype
    case Repeated =>
      forall j | 0 <= j < |slot.items|
        ensures SendableItem(f, slot.items[j], true)
      {
        PlainItemSendable(f, slot.items[j]);
      }
    case Oneof =>
      if slot.which == f.tag {
        PlainItemSendable(f, slot.v);
      }
    case _ =>
      PlainItemSendable(f, slot.v);
  }
}
