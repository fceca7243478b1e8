/** The encoding is canonical: it depends on what a message says and on nothing else, and says all of it. */
module Canonical {
  import opened Varint
  import opened Descriptors
  import opened Scalars
  import opened Encoding
  import opened Decoding
  import opened Messages
  import opened Shapes
  import opened TypeSafety
  import opened Sending
  import opened RoundTrip

  // --------------------------------------------------- an equivalence relation

  lemma {:induction false} SameItemSym(f: Field, v: Value, w: Value)
    requires SameItem(f, v, w)
    ensures SameItem(f, w, v)
    decreases f, 0
  {
    if f.ltype.LSubmessage? {
      SameMsgSym(f.ptr.fields, v.m, w.m);
    }
  }

  lemma {:induction false} SameSlotSym(d: Desc, i: nat, s: Slot, t: Slot)
    requires i < |d| && SameSlot(d, i, s, t)
    ensures SameSlot(d, i, t, s)
    decreases d, 1
  {
    hide SameItem;
    match d[i].htype
    case Required =>
      SameItemSym(d[i], s.v, t.v);
    case Optional =>
      if s.Single? || s.has {
        SameItemSym(d[i], s.v, t.v);
      }
    case Repeated =>
      forall j | 0 <= j < |s.items|
        ensures SameItem(d[i], t.items[j], s.items[j])
      {
        SameItemSym(d[i], s.items[j], t.items[j]);
      }
    case Oneof =>
      if Leader(d, i) == i && s.which != 0 {
        SameItemSym(d[FindTag(d, s.which).value], s.v, t.v);
      }
  }

  lemma {:induction false} SameMsgSym(d: Desc, m: Msg, w: Msg)
    requires SameMsg(d, m, w)
    ensures SameMsg(d, w, m)
    decreases d, 2
  {
    hide SameSlot;
    forall i | 0 <= i < |d|
      ensures SameSlot(d, i, w[i], m[i])
    {
      hide SameSlot;
      SameSlotSym(d, i, m[i], w[i]);
    }
  }

  lemma {:induction false} SameItemTrans(f: Field, u: Value, v: Value, w: Value)
    requires SameItem(f, u, v) && SameItem(f, v, w)
    ensures SameItem(f, u, w)
    decreases f, 0
  {
    if f.ltype.LSubmessage? {
      SameMsgTrans(f.ptr.fields, u.m, v.m, w.m);
    }
  }

  lemma {:induction false} SameSlotTrans(d: Desc, i: nat, s: Slot, t: Slot, u: Slot)
    requires i < |d| && SameSlot(d, i, s, t) && SameSlot(d, i, t, u)
    ensures SameSlot(d, i, s, u)
    decreases d, 1
  {
    hide SameItem;
    match d[i].htype
    case Required =>
      SameItemTrans(d[i], s.v, t.v, u.v);
    case Optional =>
      if s.Single? || s.has {
        SameItemTrans(d[i], s.v, t.v, u.v);
      }
    case Repeated =>
      forall j | 0 <= j < |s.items|
        ensures SameItem(d[i], s.items[j], u.items[j])
      {
        SameItemTrans(d[i], s.items[j], t.items[j], u.items[j]);
      }
    case Oneof =>
      if Leader(d, i) == i && s.which != 0 {
        SameItemTrans(d[FindTag(d, s.which).value], s.v, t.v, u.v);
      }
  }

  lemma {:induction false} SameMsgTrans(d: Desc, m: Msg, n: Msg, w: Msg)
    requires SameMsg(d, m, n) && SameMsg(d, n, w)
    ensures SameMsg(d, m, w)
    decreases d, 2
  {
    hide SameSlot;
    forall i | 0 <= i < |d|
      ensures SameSlot(d, i, m[i], w[i])
    {
      hide SameSlot;
      SameSlotTrans(d, i, m[i], n[i], w[i]);
    }
  }

  // ------------------------------------------------ same message, same encoding

  lemma {:induction false} SameItemZero(f: Field, v: Value, w: Value)
    requires f.ltype.LSubmessage? && f.ptr.Sub? ==> WellFormed(f.ptr.fields)
    requires SameItem(f, v, w) && IsZeroValue(f, v)
    ensures IsZeroValue(f, w)
    decreases f, 0
  {
    if f.ltype.LSubmessage? {
      var d := f.ptr.fields;
      forall i | 0 <= i < |d|
        ensures IsProto3Default(d[i], w.m[Leader(d, i)])
      {
        assert SameSlot(d, Leader(d, i), v.m[Leader(d, i)], w.m[Leader(d, i)]) &&
            IsProto3Default(d[i], v.m[Leader(d, i)]);
        assert WellFormedField(d[i]);
        LeaderLeads(d, i);
        SameSlotZero(d, i, v.m[Leader(d, i)], w.m[Leader(d, i)]);
      }
    }
  }

  lemma {:induction false} SameSlotZero(d: Desc, i: nat, s: Slot, t: Slot)
    requires WellFormed(d) && i < |d| && SameSlot(d, Leader(d, i), s, t)
    requires IsProto3Default(d[i], s)
    ensures IsProto3Default(d[i], t)
    decreases d[i], 1
  {
    assert WellFormedField(d[i]);
    LeaderLeads(d, i);
    hide SameItem, IsZeroValue, WellFormed;
    if d[i].htype.Optional? && !HasFlag(d[i]) {
      SameItemZero(d[i], s.v, t.v);
    }
  }

  lemma {:induction false} SameItemEncodes(f: Field, v: Value, w: Value)
    requires WellFormedField(f) && SameItem(f, v, w) && EncItem(f, v).Some? && EncItem(f, w).Some?
    ensures EncItem(f, v) == EncItem(f, w)
    decreases f, 0
  {
    if f.ltype.LSubmessage? {
      SameFieldsEncode(f.ptr.fields, v.m, w.m, 0);
    }
  }

  lemma {:induction false} SamePackedEncodes(f: Field, vs: seq<Value>, ws: seq<Value>)
    requires WellFormedField(f) && !f.ltype.LSubmessage? && |vs| == |ws| && forall j :: 0 <= j < |vs| ==>
             SameItem(f, vs[j], ws[j])
    requires EncPacked(f, vs).Some? && EncPacked(f, ws).Some?
    ensures EncPacked(f, vs) == EncPacked(f, ws)
    decreases f, 1, |vs|
  {
    hide EncScalar, SameItem, WellFormedField;
    if vs != [] {
      SameItemEncodes(f, vs[0], ws[0]);
      SamePackedEncodes(f, vs[1..], ws[1..]);
    }
  }

  lemma {:induction false} SameEachEncodes(f: Field, vs: seq<Value>, ws: seq<Value>)
    requires WellFormedField(f) && |vs| == |ws| && forall j :: 0 <= j < |vs| ==> SameItem(f, vs[j], ws[j])
    requires EncEach(f, vs).Some? && EncEach(f, ws).Some?
    ensures EncEach(f, vs) == EncEach(f, ws)
    decreases f, 1, |vs|
  {
    hide EncItem, SameItem, WellFormedField;
    if vs != [] {
      SameItemEncodes(f, vs[0], ws[0]);
      SameEachEncodes(f, vs[1..], ws[1..]);
    }
  }

  lemma {:induction false} SameArrayEncodes(f: Field, vs: seq<Value>, ws: seq<Value>)
    requires WellFormedField(f) && |vs| == |ws| && forall j :: 0 <= j < |vs| ==> SameItem(f, vs[j], ws[j])
    requires EncArray(f, vs).Some? && EncArray(f, ws).Some?
    ensures EncArray(f, vs) == EncArray(f, ws)
    decreases f, 2
  {
    hide EncPacked, EncEach, SameItem, WellFormedField;
    if vs != [] {
      if Packable(f) {
        SamePackedEncodes(f, vs, ws);
      } else {
        SameEachEncodes(f, vs, ws);
      }
    }
  }

  lemma {:induction false} SameFieldEncodes(d: Desc, i: nat, s: Slot, t: Slot)
    requires WellFormed(d) && i < |d| && SameSlot(d, Leader(d, i), s, t)
    requires EncField(d[i], s).Some? && EncField(d[i], t).Some?
    ensures EncField(d[i], s) == EncField(d[i], t)
    decreases d[i], 3
  {
    var f := d[i];
    assert WellFormedField(f);
    LeaderLeads(d, i);
    FindOwnTag(d, i);
    hide SameItem, EncItem, EncArray, WellFormed, WellFormedField, IsZeroValue;
    match f.htype
    case Required =>
      SameItemEncodes(f, s.v, t.v);
    case Optional =>
      if HasFlag(f) {
        if s.has {
          SameItemEncodes(f, s.v, t.v);
        }
      } else {
        SameSingularEncodes(f, s.v, t.v);
      }
    case Repeated =>
      SameArrayEncodes(f, s.items, t.items);
    case Oneof =>
      if s.which == f.tag {
        assert f.tag != 0 by { TagNonzero(d, i); }
        SameItemEncodes(f, s.v, t.v);
      }
  }

  lemma {:induction false} TagNonzero(d: Desc, i: nat)
    requires WellFormed(d) && i < |d|
    ensures d[i].tag != 0
  {
    assert WellFormedField(d[i]);
  }

  /** A proto3 singular field is left out for both or for neither. */
  lemma {:induction false} SameSingularEncodes(f: Field, v: Value, w: Value)
    requires WellFormedField(f) && SameItem(f, v, w)
    requires (IsZeroValue(f, v) || EncItem(f, v).Some?) && (IsZeroValue(f, w) || EncItem(f, w).Some?)
    ensures IsZeroValue(f, v) == IsZeroValue(f, w)
    ensures !IsZeroValue(f, v) ==> EncItem(f, v) == EncItem(f, w)
    decreases f, 1
  {
    SameItemSym(f, v, w);
    if IsZeroValue(f, v) {
      SameItemZero(f, v, w);
    } else {
      if IsZeroValue(f, w) {
        SameItemZero(f, w, v);
      }
      SameItemEncodes(f, v, w);
    }
  }

  lemma {:induction false} SameFieldsEncode(d: Desc, m: Msg, w: Msg, i: nat)
    requires WellFormed(d) && SameMsg(d, m, w) && i <= |d|
    requires EncFields(d, m, i).Some? && EncFields(d, w, i).Some?
    ensures EncFields(d, m, i) == EncFields(d, w, i)
    decreases d, 4, |d| - i
  {
    hide SameSlot, EncField, WellFormed;
    if i < |d| {
      assert SameSlot(d, Leader(d, i), m[Leader(d, i)], w[Leader(d, i)]);
      SameFieldEncodes(d, i, m[Leader(d, i)], w[Leader(d, i)]);
      SameFieldsEncode(d, m, w, i + 1);
    }
  }

  // ------------------------------------------- defaults play no part in encoding

  /** A field, and a descriptor, without default values. */
  function StrippedField(f: Field): Field
    decreases f, 0
  {
    f.(ptr := if f.ptr.Sub? then Sub(Stripped(f.ptr.fields)) else Null)
  }

  function Stripped(d: Desc): (s: Desc)
    ensures |s| == |d|
    decreases d, 1
  {
    seq(|d|, i requires 0 <= i < |d| => StrippedField(d[i]))
  }

  lemma {:induction false} StrippedFieldWellFormed(f: Field)
    requires WellFormedField(f)
    ensures WellFormedField(StrippedField(f))
    decreases f, 0
  {
    if f.ptr.Sub? {
      StrippedWellFormed(f.ptr.fields);
    }
  }

  lemma {:induction false} StrippedWellFormed(d: Desc)
    requires WellFormed(d)
    ensures WellFormed(Stripped(d))
    decreases d, 1
  {
    hide WellFormedField, StrippedField;
    forall i | 0 <= i < |d|
      ensures WellFormedField(Stripped(d)[i])
    {
      StrippedFieldWellFormed(d[i]);
    }
    StrippedTags(d);
  }

  lemma {:induction false} StrippedTags(d: Desc)
    ensures forall i :: 0 <= i < |d| ==> Stripped(d)[i].tag == d[i].tag
  {
  }

  lemma {:induction false} StrippedLeader(d: Desc, i: nat)
    requires i < |d|
    ensures Leader(Stripped(d), i) == Leader(d, i)
    decreases i
  {
    if i > 0 {
      StrippedLeader(d, i - 1);
    }
  }

  lemma {:induction false} StrippedFind(d: Desc, tag: nat, i: nat)
    requires i <= |d|
    ensures FindFrom(Stripped(d), tag, i) == FindFrom(d, tag, i)
    decreases |d| - i
  {
    if i < |d| {
      StrippedFind(d, tag, i + 1);
    }
  }

  lemma {:induction false} StrippedItem(f: Field, v: Value)
    ensures EncItem(StrippedField(f), v) == EncItem(f, v)
    ensures IsZeroValue(StrippedField(f), v) == IsZeroValue(f, v)
    decreases f, 0
  {
    hide EncScalar, EncFields, AllProto3Default, Stripped;
    if !f.ltype.LSubmessage? {
      StrippedScalar(f, v);
    } else if f.ptr.Sub? && v.VMsg? && |v.m| == |f.ptr.fields| {
      StrippedFields(f.ptr.fields, v.m, 0);
      StrippedDefault(f.ptr.fields, v.m);
    }
  }

  lemma {:induction false} StrippedDefault(d: Desc, m: Msg)
    requires |m| == |d|
    ensures AllProto3Default(Stripped(d), m) == AllProto3Default(d, m)
    decreases d, 2
  {
    forall i | 0 <= i < |d|
      ensures IsProto3Default(Stripped(d)[i], m[Leader(Stripped(d), i)]) == IsProto3Default(d[i], m[Leader(d, i)])
    {
      hide IsZeroValue;
      StrippedLeader(d, i);
      var slot := m[Leader(d, i)];
      if d[i].htype.Optional? && !HasFlag(d[i]) && slot.Single? {
        StrippedItem(d[i], slot.v);
      }
    }
  }

  lemma {:induction false} StrippedPacked(f: Field, vs: seq<Value>)
    ensures EncPacked(StrippedField(f), vs) == EncPacked(f, vs)
    decreases |vs|
  {
    if vs != [] {
      StrippedScalar(f, vs[0]);
      hide EncScalar;
      StrippedPacked(f, vs[1..]);
    }
  }

  lemma {:induction false} StrippedScalar(f: Field, v: Value)
    ensures EncScalar(StrippedField(f), v) == EncScalar(f, v)
  {
    hide VarintBytes, LittleEndian, CString, ToU64, ZigZag, Delimit;
  }

  lemma {:induction false} StrippedEach(f: Field, vs: seq<Value>)
    ensures EncEach(StrippedField(f), vs) == EncEach(f, vs)
    decreases f, 1, |vs|
  {
    if vs != [] {
      StrippedItem(f, vs[0]);
      hide EncItem;
      StrippedEach(f, vs[1..]);
    }
  }

  lemma {:induction false} StrippedRecord(f: Field, slot: Slot)
    ensures EncField(StrippedField(f), slot) == EncField(f, slot)
    decreases f, 2
  {
    hide EncItem, IsZeroValue, EncPacked, EncEach, Stripped;
    match slot
    case Single(v) => StrippedItem(f, v);
    case Opt(_, v) => StrippedItem(f, v);
    case Union(_, v) => StrippedItem(f, v);
    case Rep(items) =>
      StrippedPacked(f, items);
      StrippedEach(f, items);
    case Shadow =>
  }

  /** Descriptors that differ in their default values only give the same encodings. */
  lemma {:induction false} StrippedFields(d: Desc, m: Msg, i: nat)
    requires |m| == |d| && i <= |d|
    ensures EncFields(Stripped(d), m, i) == EncFields(d, m, i)
    decreases d, 3, |d| - i
  {
    hide EncField;
    if i < |d| {
      StrippedLeader(d, i);
      StrippedRecord(d[i], m[Leader(d, i)]);
      StrippedFields(d, m, i + 1);
    }
  }

  lemma {:induction false} StrippedSameItem(f: Field, v: Value, w: Value)
    ensures SameItem(StrippedField(f), v, w) == SameItem(f, v, w)
    decreases f, 0
  {
    if f.ltype.LSubmessage? && f.ptr.Sub? && v.VMsg? && w.VMsg? {
      StrippedSame(f.ptr.fields, v.m, w.m);
    }
  }

  lemma {:induction false} StrippedSameSlot(d: Desc, i: nat, s: Slot, t: Slot)
    requires i < |d|
    ensures SameSlot(Stripped(d), i, s, t) == SameSlot(d, i, s, t)
    decreases d, 1
  {
    hide SameItem;
    StrippedLeader(d, i);
    var f := d[i];
    match f.htype
    case Required =>
      if s.Single? && t.Single? {
        StrippedSameItem(f, s.v, t.v);
      }
    case Optional =>
      if (s.Single? && t.Single?) || (s.Opt? && t.Opt?) {
        StrippedSameItem(f, s.v, t.v);
      }
    case Repeated =>
      if s.Rep? && t.Rep? && |s.items| == |t.items| {
        forall j | 0 <= j < |s.items|
          ensures SameItem(StrippedField(f), s.items[j], t.items[j]) == SameItem(f, s.items[j], t.items[j])
        {
          StrippedSameItem(f, s.items[j], t.items[j]);
        }
      }
    case Oneof =>
      if s.Union? && t.Union? {
        StrippedFind(d, s.which, 0);
        var k := FindTag(d, s.which);
        if k.Some? {
          StrippedSameItem(d[k.value], s.v, t.v);
        }
      }
  }

  lemma {:induction false} StrippedSame(d: Desc, m: Msg, w: Msg)
    ensures SameMsg(Stripped(d), m, w) == SameMsg(d, m, w)
    decreases d, 2
  {
    hide SameSlot;
    if |m| == |d| && |w| == |d| {
      forall i | 0 <= i < |d|
        ensures SameSlot(Stripped(d), i, m[i], w[i]) == SameSlot(d, i, m[i], w[i])
      {
        StrippedSameSlot(d, i, m[i], w[i]);
      }
    }
  }

  lemma {:induction false} StrippedStorableItem(f: Field, v: Value)
    requires StorableItem(f, v)
    ensures StorableItem(StrippedField(f), v)
    decreases f, 0
  {
    if f.ltype.LSubmessage? {
      StrippedStorable(f.ptr.fields, v.m);
      StrippedFields(f.ptr.fields, v.m, 0);
    }
  }

  lemma {:induction false} StrippedStorableSlot(d: Desc, i: nat, slot: Slot)
    requires i < |d| && StorableSlot(d, i, slot)
    ensures StorableSlot(Stripped(d), i, slot)
    decreases d, 1
  {
    hide StorableItem, EncPacked;
    StrippedLeader(d, i);
    var f := d[i];
    match f.htype
    case Required =>
      StrippedStorableItem(f, slot.v);
    case Optional =>
      if !HasFlag(f) || slot.has {
        StrippedStorableItem(f, slot.v);
      }
    case Repeated =>
      StrippedPacked(f, slot.items);
      forall j | 0 <= j < |slot.items|
        ensures StorableItem(StrippedField(f), slot.items[j])
      {
        StrippedStorableItem(f, slot.items[j]);
      }
    case Oneof =>
      if Leader(d, i) == i && slot.which != 0 {
        StrippedFind(d, slot.which, 0);
        var k := FindTag(d, slot.which).value;
        StrippedLeader(d, k);
        StrippedStorableItem(d[k], slot.v);
      }
  }

  lemma {:induction false} StrippedStorable(d: Desc, m: Msg)
    requires StorableMsg(d, m)
    ensures StorableMsg(Stripped(d), m)
    decreases d, 2
  {
    hide StorableSlot;
    forall i | 0 <= i < |d|
      ensures StorableSlot(Stripped(d), i, m[i])
    {
      StrippedStorableSlot(d, i, m[i]);
    }
  }

  lemma {:induction false} StrippedReadableItem(f: Field, v: Value)
    requires ReadableItem(f, v)
    ensures ReadableItem(StrippedField(f), v)
    decreases f, 0
  {
    if f.ltype.LSubmessage? {
      StrippedReadable(f.ptr.fields, v.m);
      StrippedFields(f.ptr.fields, v.m, 0);
    }
  }

  lemma {:induction false} StrippedReadableSlot(f: Field, slot: Slot)
    requires ReadableSlot(f, slot)
    ensures ReadableSlot(StrippedField(f), slot)
    decreases f, 1
  {
    hide ReadableItem, IsZeroValue, EncPacked;
    match slot
    case Single(v) =>
      StrippedItem(f, v);
      if ReadableItem(f, v) {
        StrippedReadableItem(f, v);
      }
    case Opt(_, v) =>
      if ReadableItem(f, v) {
        StrippedReadableItem(f, v);
      }
    case Union(_, v) =>
      if ReadableItem(f, v) {
        StrippedReadableItem(f, v);
      }
    case Rep(items) =>
      StrippedPacked(f, items);
      forall j | 0 <= j < |items| && ReadableItem(f, items[j])
        ensures ReadableItem(StrippedField(f), items[j])
      {
        StrippedReadableItem(f, items[j]);
      }
    case Shadow =>
  }

  lemma {:induction false} StrippedReadable(d: Desc, m: Msg)
    requires |m| == |d| && ReadableMsg(d, m)
    ensures ReadableMsg(Stripped(d), m)
    decreases d, 2
  {
    hide ReadableSlot;
    forall i | 0 <= i < |d|
      ensures ReadableSlot(Stripped(d)[i], m[Leader(Stripped(d), i)])
    {
      StrippedLeader(d, i);
      StrippedReadableSlot(d[i], m[Leader(d, i)]);
    }
  }

  lemma {:induction false} StrippedFaithfulItem(f: Field, v: Value)
    ensures FaithfulItem(StrippedField(f), v) && ZeroDefault(StrippedField(f))
    decreases f, 0
  {
    if f.ltype.LSubmessage? && f.ptr.Sub? && v.VMsg? && |v.m| == |f.ptr.fields| {
      StrippedFaithful(f.ptr.fields, v.m);
    }
  }

  lemma {:induction false} StrippedFaithfulSlot(d: Desc, i: nat, slot: Slot)
    requires i < |d|
    ensures FaithfulSlot(Stripped(d), i, slot)
    decreases d, 1
  {
    hide FaithfulItem, IsZeroValue, ZeroDefault;
    StrippedLeader(d, i);
    match slot
    case Single(v) => StrippedFaithfulItem(d[i], v);
    case Opt(_, v) => StrippedFaithfulItem(d[i], v);
    case Union(which, v) =>
      StrippedFind(d, which, 0);
      var k := FindTag(d, which);
      if k.Some? {
        StrippedFaithfulItem(d[k.value], v);
      }
    case Rep(items) =>
      forall j | 0 <= j < |items|
        ensures FaithfulItem(StrippedField(d[i]), items[j])
      {
        StrippedFaithfulItem(d[i], items[j]);
      }
    case Shadow =>
  }

  lemma {:induction false} StrippedFaithful(d: Desc, m: Msg)
    requires |m| == |d|
    ensures FaithfulMsg(Stripped(d), m)
    decreases d, 2
  {
    hide FaithfulSlot;
    forall i | 0 <= i < |d|
      ensures FaithfulSlot(Stripped(d), i, m[i])
    {
      StrippedFaithfulSlot(d, i, m[i]);
    }
  }

  // ------------------------------------------------------------ encoding determines

  /** Among messages that survive being sent: the receiver's copies tell them apart. */
  lemma {:induction false} ValidDetermines(d: Desc, m1: Msg, m2: Msg)
    requires WellFormed(d) && |m1| == |d| && |m2| == |d| && ValidMsg(d, m1) && ValidMsg(d, m2)
    ensures Encode(d, m1) == Encode(d, m2) <==> SameMsg(d, m1, m2)
  {
    hide WellFormed, ValidMsg, SameMsg, Decode;
    var w1 := MessageRoundTrip(d, m1);
    var w2 := MessageRoundTrip(d, m2);
    if SameMsg(d, m1, m2) {
      SameFieldsEncode(d, m1, m2, 0);
    }
    if Encode(d, m1) == Encode(d, m2) {
      assert w1 == w2;
      SameMsgSym(d, m2, w2);
      SameMsgTrans(d, m1, w1, m2);
    }
  }

  /**
   * Two messages have the same encoding exactly when they are the same message: the bytes carry
   * everything a message says, and nothing that depends on the data of unset fields, the
   * representation of true, or what follows the terminator of a string. The defaults of the
   * descriptor do not matter.
   */
  lemma {:induction false} EncodingDetermines(d: Desc, m1: Msg, m2: Msg)
    requires WellFormed(d) && |m1| == |d| && |m2| == |d|
    requires StorableMsg(d, m1) && ReadableMsg(d, m1) && StorableMsg(d, m2) && ReadableMsg(d, m2)
    ensures Encode(d, m1) == Encode(d, m2) <==> SameMsg(d, m1, m2)
  {
    hide WellFormed, StorableMsg, ReadableMsg, FaithfulMsg, SameMsg, EncFields;
    var s := Stripped(d);
    StrippedWellFormed(d);
    StrippedValid(d, m1);
    StrippedValid(d, m2);
    ValidDetermines(s, m1, m2);
    StrippedFields(d, m1, 0);
    StrippedFields(d, m2, 0);
    StrippedSame(d, m1, m2);
  }

  lemma {:induction false} StrippedValid(d: Desc, m: Msg)
    requires |m| == |d| && StorableMsg(d, m) && ReadableMsg(d, m)
    ensures ValidMsg(Stripped(d), m)
  {
    hide StorableMsg, ReadableMsg, FaithfulMsg;
    StrippedStorable(d, m);
    StrippedReadable(d, m);
    StrippedFaithful(d, m);
  }

  lemma {:induction false} SameItemSendable(f: Field, v: Value, w: Value)
    requires WellFormedField(f) && SendableItem(f, v, true) && SameItem(f, v, w) && (w.VStale? || ItemShape(f, w, true))
    ensures SendableItem(f, w, true)
    decreases f, 0
  {
    if f.ltype.LSubmessage? {
      SameSendable(f.ptr.fields, v.m, w.m);
    }
  }

  lemma {:induction false} SameSlotSendable(d: Desc, i: nat, s: Slot, t: Slot)
    requires WellFormed(d) && i < |d| && SendableSlot(d[i], s, true) && SameSlot(d, Leader(d, i), s, t) &&
             OwnShape(d, i, t, true)
    ensures SendableSlot(d[i], t, true)
    decreases d[i], 1
  {
    var f := d[i];
    assert WellFormedField(f);
    LeaderLeads(d, i);
    FindOwnTag(d, i);
    hide WellFormedField, SendableItem, SameItem, ItemShape, IsZeroValue;
    match f.htype
    case Required =>
      SameItemSendable(f, s.v, t.v);
    case Optional =>
      if !HasFlag(f) || s.has {
        SameItemSendable(f, s.v, t.v);
      }
    case Repeated =>
      forall j | 0 <= j < |t.items|
        ensures SendableItem(f, t.items[j], true)
      {
        SameItemSendable(f, s.items[j], t.items[j]);
      }
    case Oneof =>
      if t.which == f.tag {
        TagPositive(f);
        SameItemSendable(f, s.v, t.v);
      }
  }

  lemma {:induction false} SameSendable(d: Desc, m: Msg, w: Msg)
    requires WellFormed(d) && SendableMsg(d, m, true) && SameMsg(d, m, w) && MsgShape(d, w, true)
    ensures SendableMsg(d, w, true)
    decreases d, 2
  {
    hide SendableSlot, SameSlot, SlotShape, WellFormed;
    forall i | 0 <= i < |d|
      ensures SendableSlot(d[i], w[Leader(d, i)], true)
    {
      assert SameSlot(d, Leader(d, i), m[Leader(d, i)], w[Leader(d, i)]) && OwnShape(d, i, w[Leader(d, i)], true);
      SameSlotSendable(d, i, m[Leader(d, i)], w[Leader(d, i)]);
    }
  }

  /** Encoding is stable: decoding the encoding of a valid message and encoding the result gives the same bytes. */
  lemma {:induction false} EncodingStable(d: Desc, m: Msg)
    requires WellFormed(d) && |m| == |d| && ValidMsg(d, m)
    ensures Encode(d, m).Some?
    ensures var r := Decode(d, Encode(d, m).value);
            r.Read? && Encode(d, r.val) == Encode(d, m)
  {
    hide WellFormed, Decode, StorableMsg, ReadableMsg, FaithfulMsg, SameMsg, SendableMsg, EncFields, MsgShape;
    var w := MessageRoundTrip(d, m);
    StorableSendable(d, m, true);
    DecodedEncodes(d, Encode(d, m).value);
    SameSendable(d, m, w);
    SendableFieldsEncode(d, w, 0);
    SameFieldsEncode(d, m, w, 0);
  }
}
