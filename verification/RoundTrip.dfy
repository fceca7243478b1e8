/** Whole messages survive encoding and decoding. */
module RoundTrip {
  import opened Basics
  import opened Varint
  import opened Descriptors
  import opened Scalars
  import opened Encoding
  import opened Decoding
  import opened Framing
  import opened WireRecords
  import opened Packing
  import opened Presence
  import opened Messages

  // ---------------------------------------------------------- zero is default

  /**
   * A submessage the proto3 check finds all default is left out, and the receiver keeps its
   * defaults: the same message exactly when zero is the default wherever it stands for a field.
   */
  lemma {:induction false} ZeroIsDefault(d: Desc, m: Msg)
    requires WellFormed(d) && StorableMsg(d, m) && AllProto3Default(d, m)
    ensures SameMsg(d, m, Defaults(d)) <==> FaithfulMsg(d, m)
  {
    hide *;
    ZeroGot(d, m);
    GotMsgSame(d, m, Defaults(d));
  }

  // ------------------------------------------------------------------ records

  lemma {:induction false} KeyIsKey(f: Field, wt: nat)
    requires WellFormedField(f) && wt < 8
    ensures IsKey(Key(f.tag, wt), f.tag, wt)
  {
    Varint32ReadsUnsigned(f.tag * 8 + wt, []);
    assert Key(f.tag, wt) + [] == Key(f.tag, wt);
  }

  lemma {:induction false} KeyOfEntry(d: Desc, i: nat, wt: nat)
    requires WellFormed(d) && i < |d| && wt < 8
    ensures IsKey(Key(d[i].tag, wt), d[i].tag, wt)
  {
    hide IsKey, Key;
    assert WellFormedField(d[i]);
    KeyIsKey(d[i], wt);
  }

  /** A field that stores one item takes an encoded record and leaves the item in its slot. */
  lemma {:induction false} RecordRuns(d: Desc, i: nat, b: seq<Byte>, slot: Slot, rest: seq<Byte>, st: DState)
    requires WellFormed(d) && i < |d| && |st.m| == |d| && !FixedCount(d[i])
    requires d[i].htype.Oneof? ==> UnionKnown(d, d[i], st.m[Leader(d, i)])
    requires DecSlot(d[i], WireType(d[i]), b + rest, st.m[Leader(d, i)], st.count) == Read(Stored(slot, st.count), |b|)
    ensures Run(d, Key(d[i].tag, WireType(d[i])) + b + rest, st) ==
            Shift(Run(d, rest, st.(m := st.m[Leader(d, i) := slot], seen := st.seen + Marks(d, i))),
                |Key(d[i].tag, WireType(d[i])) + b|)
  {
    hide *;
    FieldStores(d, i, b, slot, rest, st);
    FindOwnTag(d, i);
    KeyOfEntry(d, i, WireType(d[i]));
    var kb := Key(d[i].tag, WireType(d[i]));
    assert kb + b + rest == kb + (b + rest);
    StepOfKey(d, kb, d[i].tag, WireType(d[i]), b + rest, st);
    KeyThen(kb, d[i].tag, WireType(d[i]), b + rest);
    KeyNonempty(kb, d[i].tag, WireType(d[i]));
    KeyedField(d, i, d[i].tag * 8 + WireType(d[i]), b + rest, st);
    assert (kb + (b + rest))[|kb| + |b|..] == rest;
    RunStep(d, kb + (b + rest), |kb| + |b|, st, st.(m := st.m[Leader(d, i) := slot], seen := st.seen + Marks(d, i)));
  }

  lemma {:induction false} FieldStores(d: Desc, i: nat, b: seq<Byte>, slot: Slot, rest: seq<Byte>, st: DState)
    requires i < |d| && |st.m| == |d| && !FixedCount(d[i])
    requires d[i].htype.Oneof? ==> UnionKnown(d, d[i], st.m[Leader(d, i)])
    requires DecSlot(d[i], WireType(d[i]), b + rest, st.m[Leader(d, i)], st.count) == Read(Stored(slot, st.count), |b|)
    ensures DecField(d, i, WireType(d[i]), b + rest, st) ==
            Next(st.(m := st.m[Leader(d, i) := slot], seen := st.seen + Marks(d, i)), |b|)
  {
    hide DecSlot;
    assert st.seen + {} == st.seen;
  }

  // ------------------------------------------------------------- single items

  /** The value an item is decoded over, in a structure that was reset to defaults. */
  predicate FreshBase(f: Field, base: Value) {
    f.ptr.Sub? ==> base == VMsg(Defaults(f.ptr.fields))
  }

  lemma {:induction false} ItemRoundTrip(f: Field, v: Value, base: Value, rest: seq<Byte>) returns (w: Value)
    requires WellFormedField(f) && StorableItem(f, v) && ReadableItem(f, v) && FreshBase(f, base)
    ensures EncItem(f, v).Some? && GotItem(f, v, w)
    ensures DecItem(f, EncItem(f, v).value + rest, base) == Read(w, |EncItem(f, v).value|)
    decreases f, 0
  {
    hide DecodeNoinit, EncFields, Defaults, Delimit, WellFormed, StorableMsg, GotMsg;
    if f.ltype.LSubmessage? {
      var sub := f.ptr.fields;
      var m := MessageReceived(sub, v.m);
      var body := Encode(sub, v.m).value;
      DelimitRoundTrip(body, rest);
      w := VMsg(m);
    } else {
      ScalarRoundTrip(f, v, rest);
      w := DecScalar(f, EncScalar(f, v).value + rest).val;
    }
  }

  /** The items of an array, with the bytes of each and what they decode to. */
  lemma {:induction false} ItemsRoundTrip(f: Field, items: seq<Value>) returns (chunks: seq<seq<Byte>>, ws: seq<Value>)
    requires WellFormedField(f) && forall j :: 0 <= j < |items| ==>
             StorableItem(f, items[j]) && ReadableItem(f, items[j])
    ensures Elements(f, chunks, ws) && |ws| == |items|
    ensures forall j :: 0 <= j < |items| ==> GotItem(f, items[j], ws[j])
    ensures EncEach(f, items) == Some(Singles(Key(f.tag, WireType(f)), chunks))
    ensures Packable(f) ==> EncPacked(f, items) == Some(Concat(chunks))
    decreases f, 1, |items|
  {
    if items == [] {
      chunks, ws := [], [];
    } else {
      var w := ItemRoundTrip(f, items[0], BlankValue(f), []);
      var chunk := EncItem(f, items[0]).value;
      assert chunk + [] == chunk;
      var chunks', ws' := ItemsRoundTrip(f, items[1..]);
      chunks, ws := [chunk] + chunks', [w] + ws';
      ElementsCons(f, chunk, w, chunks', ws');
      hide DecItem, EncItem, StorableItem, GotItem, WellFormedField, Elements;
      assert Singles(Key(f.tag, WireType(f)), chunks) ==
          Key(f.tag, WireType(f)) + chunk + Singles(Key(f.tag, WireType(f)), chunks');
    }
  }

  lemma {:induction false} ElementsCons(f: Field, chunk: seq<Byte>, w: Value, chunks: seq<seq<Byte>>, ws: seq<Value>)
    requires Element(f, chunk, w) && Elements(f, chunks, ws)
    ensures Elements(f, [chunk] + chunks, [w] + ws)
  {
  }

  // ----------------------------------------------------------------- messages

  /** Whether slot j has received its contents once the entries before i are decoded. */
  predicate Arrived(d: Desc, m: Msg, i: nat, j: nat)
    requires |m| == |d| && j < |d|
  {
    if !d[j].htype.Oneof? then j < i
    else if Leader(d, j) != j then true
    else m[j].Union? && m[j].which != 0 && FindTag(d, m[j].which).Some? && FindTag(d, m[j].which).value < i
  }

  /** Every slot holds what was sent if it has arrived, and is still at its default if not. */
  ghost predicate SlotProgress(d: Desc, m: Msg, i: nat, j: nat, slot: Slot)
    requires |m| == |d| && j < |d|
  {
    if Arrived(d, m, i, j) then GotSlot(d, j, m[j], slot) else slot == Defaults(d)[j]
  }

  ghost predicate Progress(d: Desc, m: Msg, i: nat, st: DState)
    requires |m| == |d| && i <= |d|
  {
    && |st.m| == |d|
    && (forall j :: 0 <= j < |d| ==> SlotProgress(d, m, i, j, st.m[j]))
    && (st.fixed.Some? ==> st.fixed.value < i && FixedComplete(d, st))
    && (forall k :: 0 <= k < i && Checked(d, k) ==> RequiredBefore(d, k) in st.seen)
  }

  /** Entry i concerns no slot but its own. */
  lemma {:induction false} ProgressElsewhere(d: Desc, m: Msg, i: nat, j: nat, slot: Slot)
    requires WellFormed(d) && StorableMsg(d, m) && i < |d| && j < |d| && j != Leader(d, i)
    requires SlotProgress(d, m, i, j, slot)
    ensures SlotProgress(d, m, i + 1, j, slot)
  {
    hide GotSlot, Defaults, StorableItem, WellFormed;
    assert StorableSlot(d, j, m[j]);
  }

  lemma {:induction false} ProgressStep(d: Desc, m: Msg, i: nat, st: DState, st': DState)
    requires WellFormed(d) && |m| == |d| && StorableMsg(d, m) && i < |d| && Progress(d, m, i, st)
    requires |st'.m| == |d| && st'.m == st.m[Leader(d, i) := st'.m[Leader(d, i)]]
    requires SlotProgress(d, m, i + 1, Leader(d, i), st'.m[Leader(d, i)])
    requires (st'.fixed == st.fixed && st'.count == st.count) || (st'.fixed == Some(i) && FixedComplete(d, st'))
    requires st'.seen == st.seen + Marks(d, i)
    ensures Progress(d, m, i + 1, st')
  {
    hide SlotProgress, WellFormed, StorableMsg;
    forall j | 0 <= j < |d|
      ensures SlotProgress(d, m, i + 1, j, st'.m[j])
    {
      if j != Leader(d, i) {
        ProgressElsewhere(d, m, i, j, st.m[j]);
      }
    }
  }

  /** The slot of a field that is present and holds one item. */
  function Holding(f: Field, v: Value): Slot {
    match f.htype
    case Optional => if HasFlag(f) then Opt(true, v) else Single(v)
    case Oneof => Union(f.tag, v)
    case _ => Single(v)
  }

  /** A field that is present and holds one item. */
  lemma {:induction false} OneItem(d: Desc, m: Msg, i: nat, v: Value, rest: seq<Byte>, st: DState) returns (st': DState)
    requires WellFormed(d) && |m| == |d| && StorableMsg(d, m) && i < |d| && Progress(d, m, i, st)
    requires !d[i].htype.Repeated? && StorableItem(d[i], v) && ReadableItem(d[i], v)
    requires m[Leader(d, i)] == Holding(d[i], v) && !Omitted(d[i], m[Leader(d, i)])
    ensures Progress(d, m, i + 1, st')
    ensures EncRecord(d[i], v).Some?
    ensures Run(d, EncRecord(d[i], v).value + rest, st) == Shift(Run(d, rest, st'), |EncRecord(d[i], v).value|)
    decreases d[i], 2
  {
    var f, l := d[i], Leader(d, i);
    assert SlotProgress(d, m, i, l, st.m[l]);
    LeaderLeads(d, i);
    FindOwnTag(d, i);
    FreshSlot(d, m, i, st.m[l]);
    var w := ItemRoundTrip(f, v, Base(f, st.m[l]), rest);
    var slot := Holding(f, w);
    var b := EncItem(f, v).value;
    SlotReads(f, b, rest, st.m[l], w, st.count);
    RecordRuns(d, i, b, slot, rest, st);
    st' := st.(m := st.m[l := slot], seen := st.seen + Marks(d, i));
    ArrivedSame(d, m, i, v, w);
    ProgressStep(d, m, i, st, st');
  }

  /** The slot of a field that has not arrived is at its default, ready for one item. */
  lemma {:induction false} FreshSlot(d: Desc, m: Msg, i: nat, slot: Slot)
    requires WellFormed(d) && |m| == |d| && i < |d|
    requires SlotProgress(d, m, i, Leader(d, i), slot)
    requires d[i].htype.Oneof? ==> m[Leader(d, i)].Union? && m[Leader(d, i)].which == d[i].tag
    ensures slot == DefaultSlot(d[i], true)
    ensures FreshBase(d[i], Base(d[i], slot))
  {
    hide *;
    NotArrived(d, m, i, slot);
    LeaderDefault(d, i);
    DefaultBase(d[i]);
  }

  lemma {:induction false} NotArrived(d: Desc, m: Msg, i: nat, slot: Slot)
    requires WellFormed(d) && |m| == |d| && i < |d|
    requires SlotProgress(d, m, i, Leader(d, i), slot)
    requires d[i].htype.Oneof? ==> m[Leader(d, i)].Union? && m[Leader(d, i)].which == d[i].tag
    ensures slot == DefaultSlot(d[Leader(d, i)], true)
  {
    hide GotSlot, DefaultSlot;
    LeaderLeads(d, i);
    FindOwnTag(d, i);
    assert WellFormedField(d[i]);
    assert !Arrived(d, m, i, Leader(d, i));
  }

  lemma {:induction false} LeaderDefault(d: Desc, i: nat)
    requires i < |d|
    ensures DefaultSlot(d[Leader(d, i)], true) == DefaultSlot(d[i], true)
  {
    LeaderLeads(d, i);
    if d[i].htype.Oneof? {
      EmptyUnion(d[i]);
      EmptyUnion(d[Leader(d, i)]);
    }
  }

  lemma {:induction false} DefaultBase(f: Field)
    ensures FreshBase(f, Base(f, DefaultSlot(f, true)))
  {
  }

  lemma {:induction false} EmptyUnion(f: Field)
    requires f.htype.Oneof?
    ensures DefaultSlot(f, true) == Union(0, VStale)
  {
  }

  lemma {:induction false} SlotReads(f: Field, b: seq<Byte>, rest: seq<Byte>, blank: Slot, w: Value, count: nat)
    requires !f.htype.Repeated? && blank == DefaultSlot(f, true)
    requires DecItem(f, b + rest, Base(f, blank)) == Read(w, |b|)
    ensures DecSlot(f, WireType(f), b + rest, blank, count) ==
            Read(Stored(Holding(f, w), count), |b|)
  {
    hide DecItem;
  }

  lemma {:induction false} ArrivedSame(d: Desc, m: Msg, i: nat, v: Value, w: Value)
    requires WellFormed(d) && |m| == |d| && i < |d| && !d[i].htype.Repeated? && GotItem(d[i], v, w)
    requires m[Leader(d, i)] == Holding(d[i], v) && !Omitted(d[i], m[Leader(d, i)])
    ensures SlotProgress(d, m, i + 1, Leader(d, i), Holding(d[i], w))
  {
    hide GotItem;
    LeaderLeads(d, i);
    FindOwnTag(d, i);
    assert WellFormedField(d[i]);
  }

  /** An array with at least one item. */
  lemma {:induction false} Array(d: Desc, m: Msg, i: nat, rest: seq<Byte>, st: DState) returns (st': DState)
    requires WellFormed(d) && |m| == |d| && StorableMsg(d, m) && i < |d| && Progress(d, m, i, st)
    requires ReadableSlot(d[i], m[Leader(d, i)])
    requires d[i].htype.Repeated? && m[i].Rep? && m[i].items != []
    ensures Progress(d, m, i + 1, st')
    ensures EncArray(d[i], m[i].items).Some?
    ensures Run(d, EncArray(d[i], m[i].items).value + rest, st) ==
            Shift(Run(d, rest, st'), |EncArray(d[i], m[i].items).value|)
    decreases d[i], 2
  {
    var f, items := d[i], m[i].items;
    assert StorableSlot(d, i, m[i]) && SlotProgress(d, m, i, i, st.m[i]) && WellFormedField(f);
    FindOwnTag(d, i);
    var chunks, ws := ItemsRoundTrip(f, items);
    FreshArray(d, m, i, ws, st);
    st' := Filled(d, i, ws, st).value;
    if Packable(f) {
      PackedArrayRuns(d, i, items, chunks, ws, rest, st);
    } else {
      KeyIsKey(f, WireType(f));
      SinglesFill(d, i, Key(f.tag, WireType(f)), chunks, ws, rest, st);
    }
    ArrayArrives(d, m, i, ws, st, st');
  }

  lemma {:induction false} PackedArrayRuns(d: Desc, i: nat, items: seq<Value>, chunks: seq<seq<Byte>>, ws: seq<Value>,
      rest: seq<Byte>, st: DState)
    requires WellFormed(d) && i < |d| && |st.m| == |d| && ArrayReady(d, i, st) && FindTag(d, d[i].tag) == Some(i)
    requires Packable(d[i]) && items != [] && |items| <= d[i].arraySize
    requires EncPacked(d[i], items) == Some(Concat(chunks)) && |Concat(chunks)| < TWO_32
    requires Elements(d[i], chunks, ws) && Filled(d, i, ws, st).Some?
    ensures EncArray(d[i], items).Some?
    ensures Run(d, EncArray(d[i], items).value + rest, st) ==
            Shift(Run(d, rest, Filled(d, i, ws, st).value), |EncArray(d[i], items).value|)
  {
    var kp, body := Key(d[i].tag, WT_STRING), Concat(chunks);
    var p, k := Delimit(body), |VarintBytes(|body|)|;
    KeyIsKey(d[i], WT_STRING);
    Varint32ReadsUnsigned(|body|, []);
    assert VarintBytes(|body|) + [] == VarintBytes(|body|);
    assert p[..k] == VarintBytes(|body|) && p[k..] == body;
    assert LengthPrefix(p, k);
    hide LengthPrefix, VarintBytes, DecVarint32, Run, Filled, IsKey, Elements, Concat, WellFormed, ArrayReady;
    PackedRuns(d, i, kp, p, k, chunks, ws, rest, st);
  }

  /** The slot of an array that has not arrived is ready for as many items as it was sent. */
  lemma {:induction false} FreshArray(d: Desc, m: Msg, i: nat, ws: seq<Value>, st: DState)
    requires WellFormed(d) && |m| == |d| && i < |d| && Progress(d, m, i, st) && d[i].htype.Repeated?
    requires |ws| <= d[i].arraySize && (FixedCount(d[i]) ==> |ws| == d[i].arraySize)
    ensures ArrayReady(d, i, st)
    ensures Filled(d, i, ws, st).Some?
    ensures var st' := Filled(d, i, ws, st).value;
            && st'.m == st.m[i := Rep(ws)] && st'.seen == st.seen
            && (if FixedCount(d[i]) then st'.fixed == Some(i) && st'.count == d[i].arraySize
                else st'.fixed == st.fixed && st'.count == st.count)
  {
    assert SlotProgress(d, m, i, i, st.m[i]);
    assert st.m[i] == DefaultSlot(d[i], true);
    hide SlotProgress, WellFormed, Defaults, GotSlot, DefaultSlot;
    FillBlank(d, i, ws, st);
  }

  lemma {:induction false} FillBlank(d: Desc, i: nat, ws: seq<Value>, st: DState)
    requires i < |d| && |st.m| == |d| && d[i].htype.Repeated? && st.m[i] == DefaultSlot(d[i], true)
    requires |ws| <= d[i].arraySize && (FixedCount(d[i]) ==> |ws| == d[i].arraySize)
    requires st.fixed.Some? ==> st.fixed.value != i && FixedComplete(d, st)
    ensures ArrayReady(d, i, st)
    ensures Filled(d, i, ws, st).Some?
    ensures var st' := Filled(d, i, ws, st).value;
            && st'.m == st.m[i := Rep(ws)] && st'.seen == st.seen
            && (if FixedCount(d[i]) then st'.fixed == Some(i) && st'.count == d[i].arraySize
                else st'.fixed == st.fixed && st'.count == st.count)
  {
    hide BlankValue;
    assert NextIndex(d, i, st) == Some(0);
    StoreBlank(d[i], st.m[i].items, ws);
  }

  lemma {:induction false} StoreBlank(f: Field, items: seq<Value>, ws: seq<Value>)
    requires if FixedCount(f) then |ws| == |items| else items == []
    ensures Store(f, items, 0, ws) == ws
  {
  }

  lemma {:induction false} ArrayArrives(d: Desc, m: Msg, i: nat, ws: seq<Value>, st: DState, st': DState)
    requires WellFormed(d) && |m| == |d| && StorableMsg(d, m) && i < |d| && Progress(d, m, i, st)
    requires d[i].htype.Repeated? && m[i].Rep? && |ws| == |m[i].items|
    requires forall j :: 0 <= j < |ws| ==> GotItem(d[i], m[i].items[j], ws[j])
    requires st'.m == st.m[i := Rep(ws)] && st'.seen == st.seen
    requires if FixedCount(d[i]) then st'.fixed == Some(i) && st'.count == d[i].arraySize
             else st'.fixed == st.fixed && st'.count == st.count
    ensures Progress(d, m, i + 1, st')
  {
    assert Leader(d, i) == i;
    assert GotSlot(d, i, m[i], Rep(ws));
    assert st.seen + {} == st.seen;
    hide GotSlot, GotItem, WellFormed, StorableMsg, Progress;
    assert |st'.m| == |d| by { assert |st.m| == |d|; }
    ProgressStep(d, m, i, st, st');
  }

  /** Whether the encoder writes nothing for a field. */
  predicate Omitted(f: Field, slot: Slot) {
    match f.htype
    case Required => false
    case Optional => if HasFlag(f) then slot.Opt? && !slot.has else slot.Single? && IsZeroValue(f, slot.v)
    case Repeated => slot.Rep? && slot.items == []
    case Oneof => slot.Union? && slot.which != f.tag
  }

  /** A field the encoder leaves out. */
  lemma {:induction false} LeftOut(d: Desc, m: Msg, i: nat, st: DState)
    requires WellFormed(d) && |m| == |d| && StorableMsg(d, m) && i < |d| && Progress(d, m, i, st)
    requires Omitted(d[i], m[Leader(d, i)])
    ensures Progress(d, m, i + 1, st)
  {
    var l := Leader(d, i);
    assert SlotProgress(d, m, i, l, st.m[l]) && StorableSlot(d, l, m[l]);
    LeaderLeads(d, i);
    LeftOutSlot(d, m, i, st.m[l]);
    hide SlotProgress, WellFormed, StorableMsg;
    assert st.m[l := st.m[l]] == st.m;
    assert st.seen + {} == st.seen;
    ProgressStep(d, m, i, st, st);
  }

  lemma {:induction false} LeftOutSlot(d: Desc, m: Msg, i: nat, slot: Slot)
    requires WellFormed(d) && |m| == |d| && i < |d| && StorableSlot(d, Leader(d, i), m[Leader(d, i)])
    requires SlotProgress(d, m, i, Leader(d, i), slot) && Omitted(d[i], m[Leader(d, i)])
    ensures SlotProgress(d, m, i + 1, Leader(d, i), slot)
  {
    assert WellFormedField(d[i]);
    if d[i].htype.Oneof? {
      hide WellFormed, StorableItem, GotItem, IsZeroValue, GotSlot, Defaults;
      LeaderLeads(d, i);
    } else {
      assert Leader(d, i) == i && slot == DefaultSlot(d[i], true);
      hide WellFormed, WellFormedField, StorableItem, GotItem, IsZeroValue, InitialValue, Defaults;
      assert GotSlot(d, i, m[i], slot);
    }
  }

  /** One descriptor entry: its bytes move the decoder one entry on. */
  lemma {:induction false} FieldRoundTrip(d: Desc, m: Msg, i: nat, rest: seq<Byte>, st: DState) returns (st': DState)
    requires WellFormed(d) && |m| == |d| && StorableMsg(d, m) && i < |d| && Progress(d, m, i, st)
    requires ReadableSlot(d[i], m[Leader(d, i)])
    ensures Progress(d, m, i + 1, st') && FieldWritten(d, m, i, rest, st, st')
    decreases d, 3
  {
    var f, slot := d[i], m[Leader(d, i)];
    assert WellFormedField(f);
    assert StorableSlot(d, Leader(d, i), slot);
    LeaderLeads(d, i);
    if Omitted(f, slot) {
      LeftOut(d, m, i, st);
      st' := st;
      assert [] + rest == rest;
      EncOmitted(d, m, i);
    } else if f.htype.Repeated? {
      st' := Array(d, m, i, rest, st);
    } else {
      FindOwnTag(d, i);
      st' := OneItem(d, m, i, slot.v, rest, st);
      EncPresent(f, slot);
    }
  }

  lemma {:induction false} EncOmitted(d: Desc, m: Msg, i: nat)
    requires |m| == |d| && i < |d| && Omitted(d[i], m[Leader(d, i)])
    requires StorableSlot(d, Leader(d, i), m[Leader(d, i)])
    ensures EncField(d[i], m[Leader(d, i)]) == Some([])
  {
  }

  lemma {:induction false} EncPresent(f: Field, slot: Slot)
    requires !f.htype.Repeated? && !Omitted(f, slot) && slot.Shadow? == slot.Rep? &&
             (slot.Single? || slot.Opt? || slot.Union?)
    requires slot == Holding(f, slot.v)
    ensures EncField(f, slot) == EncRecord(f, slot.v)
  {
  }

  /** The record of entry i, in front of rest, takes the loop from st to st'. */
  ghost predicate FieldWritten(d: Desc, m: Msg, i: nat, rest: seq<Byte>, st: DState, st': DState)
    requires |m| == |d| && i < |d| && |st.m| == |d| && |st'.m| == |d|
  {
    && EncField(d[i], m[Leader(d, i)]).Some?
    && var b := EncField(d[i], m[Leader(d, i)]).value;
       Run(d, b + rest, st) == Shift(Run(d, rest, st'), |b|)
  }

  /** The records of the entries from i on, in front of rest, take the loop from st to st'. */
  ghost predicate FieldsWritten(d: Desc, m: Msg, i: nat, rest: seq<Byte>, st: DState, st': DState)
    requires |m| == |d| && i <= |d| && |st.m| == |d| && |st'.m| == |d|
  {
    && EncFields(d, m, i).Some?
    && var b := EncFields(d, m, i).value;
       Run(d, b + rest, st) == Shift(Run(d, rest, st'), |b|)
  }

  lemma {:induction false} FieldsRoundTrip(d: Desc, m: Msg, i: nat, rest: seq<Byte>, st: DState) returns (st': DState)
    requires WellFormed(d) && |m| == |d| && StorableMsg(d, m) && i <= |d| && Progress(d, m, i, st) && ReadableMsg(d, m)
    ensures Progress(d, m, |d|, st') && |st'.m| == |d|
    ensures FieldsWritten(d, m, i, rest, st, st')
    decreases d, 4, |d| - i
  {
    hide *;
    ProgressSize(d, m, i, st);
    if i == |d| {
      FieldsEnd(d, m, rest, st);
      st' := st;
    } else {
      EntryReadable(d, m, i);
      var st1 := FieldRoundTrip(d, m, i, Behind(d, m, i + 1, rest), st);
      ProgressSize(d, m, i + 1, st1);
      st' := FieldsRoundTrip(d, m, i + 1, rest, st1);
      FieldsJoin(d, m, i, rest, st, st1, st');
    }
  }

  lemma {:induction false} EntryReadable(d: Desc, m: Msg, i: nat)
    requires |m| == |d| && i < |d| && ReadableMsg(d, m)
    ensures ReadableSlot(d[i], m[Leader(d, i)])
  {
  }

  lemma {:induction false} FieldsEnd(d: Desc, m: Msg, rest: seq<Byte>, st: DState)
    requires |m| == |d| && |st.m| == |d|
    ensures FieldsWritten(d, m, |d|, rest, st, st)
  {
    hide Run;
    assert [] + rest == rest;
  }

  lemma {:induction false} ProgressSize(d: Desc, m: Msg, i: nat, st: DState)
    requires |m| == |d| && i <= |d| && Progress(d, m, i, st)
    ensures |st.m| == |d|
  {
  }

  lemma {:induction false} FieldsJoin(d: Desc, m: Msg, i: nat, rest: seq<Byte>, st: DState, st1: DState, st2: DState)
    requires |m| == |d| && i < |d| && |st.m| == |d| && |st1.m| == |d| && |st2.m| == |d|
    requires FieldWritten(d, m, i, Behind(d, m, i + 1, rest), st, st1) && FieldsWritten(d, m, i + 1, rest, st1, st2)
    ensures FieldsWritten(d, m, i, rest, st, st2)
  {
    hide Run, EncField, Leader;
    var a, b := EncField(d[i], m[Leader(d, i)]).value, EncFields(d, m, i + 1).value;
    assert a + b + rest == a + (b + rest);
  }

  /** What the records of the entries before i are followed by. */
  function Behind(d: Desc, m: Msg, i: nat, rest: seq<Byte>): seq<Byte>
    requires |m| == |d| && i <= |d|
  {
    if EncFields(d, m, i).Some? then EncFields(d, m, i).value + rest else rest
  }

  lemma {:induction false} DefaultsProgress(d: Desc, m: Msg)
    requires WellFormed(d) && |m| == |d|
    ensures Progress(d, m, 0, Start(Defaults(d)))
  {
    hide WellFormed, Defaults;
    forall j | 0 <= j < |d|
      ensures SlotProgress(d, m, 0, j, Defaults(d)[j])
    {
      hide WellFormed, Defaults;
    }
  }

  lemma {:induction false} SlotArrived(d: Desc, m: Msg, j: nat, slot: Slot)
    requires |m| == |d| && j < |d| && StorableSlot(d, j, m[j]) && SlotProgress(d, m, |d|, j, slot)
    ensures GotSlot(d, j, m[j], slot)
  {
    hide StorableItem, GotItem;
    if d[j].htype.Oneof? && Leader(d, j) == j && m[j].which == 0 {
      assert !Arrived(d, m, |d|, j);
      assert slot == DefaultSlot(d[j], true);
    }
  }

  lemma {:induction false} AllArrived(d: Desc, m: Msg, st: DState)
    requires WellFormed(d) && |m| == |d| && StorableMsg(d, m) && Progress(d, m, |d|, st)
    ensures GotMsg(d, m, st.m) && AllSeen(d, st) && FixedComplete(d, st)
  {
    forall j | 0 <= j < |d|
      ensures GotSlot(d, j, m[j], st.m[j])
    {
      assert SlotProgress(d, m, |d|, j, st.m[j]) && StorableSlot(d, j, m[j]);
      hide *;
      SlotArrived(d, m, j, st.m[j]);
    }
    hide WellFormed, StorableMsg, GotSlot, SlotProgress;
    forall k | 0 <= k < Tracked(d)
      ensures k in st.seen
    {
      var i := NthRequired(d, |d|, k);
      assert Checked(d, i);
    }
  }

  /** The fields of a message, in front of anything else, take the loop to a state that holds what the receiver gets. */
  lemma {:induction false} MessageArrives(d: Desc, m: Msg, rest: seq<Byte>) returns (st: DState)
    requires WellFormed(d) && |m| == |d| && StorableMsg(d, m) && ReadableMsg(d, m)
    ensures Encode(d, m).Some? && |st.m| == |d|
    ensures GotMsg(d, m, st.m) && AllSeen(d, st) && FixedComplete(d, st)
    ensures Run(d, Encode(d, m).value + rest, Start(Defaults(d))) == Shift(Run(d, rest, st), |Encode(d, m).value|)
    decreases d, 5
  {
    hide Run, EncFields, Progress, WellFormed, StorableMsg, ReadableMsg, GotMsg, Defaults;
    DefaultsProgress(d, m);
    st := FieldsRoundTrip(d, m, 0, rest, Start(Defaults(d)));
    AllArrived(d, m, st);
  }

  /** Decoding an encoding into a reset structure succeeds and consumes all of it. */
  lemma {:induction false} MessageReceived(d: Desc, m: Msg) returns (w: Msg)
    requires WellFormed(d) && |m| == |d| && StorableMsg(d, m) && ReadableMsg(d, m)
    ensures Encode(d, m).Some? && GotMsg(d, m, w)
    ensures Decode(d, Encode(d, m).value) == Read(w, |Encode(d, m).value|)
    decreases d, 6
  {
    hide Run, Encode, WellFormed, StorableMsg, ReadableMsg, GotMsg, Defaults;
    var st := MessageArrives(d, m, []);
    w := st.m;
    assert Encode(d, m).value + [] == Encode(d, m).value;
    NothingLeft(d, st);
  }

  lemma {:induction false} NothingLeft(d: Desc, st: DState)
    requires |st.m| == |d|
    ensures Run(d, [], st) == Done(st, 0)
  {
  }

  /**
   * Round trip: for every well-formed static descriptor and every valid message, the encoder
   * succeeds, and decoding its output into a reset structure succeeds, consumes all of it and
   * gives the same message.
   */
  lemma {:induction false} MessageRoundTrip(d: Desc, m: Msg) returns (w: Msg)
    requires WellFormed(d) && |m| == |d| && ValidMsg(d, m)
    ensures Encode(d, m).Some? && SameMsg(d, m, w)
    ensures Decode(d, Encode(d, m).value) == Read(w, |Encode(d, m).value|)
  {
    hide Encode, Decode, WellFormed, StorableMsg, ReadableMsg, FaithfulMsg, GotMsg, SameMsg;
    w := MessageReceived(d, m);
    GotMsgSame(d, m, w);
  }

  /** A zero byte behind the message ends it, whatever comes after. */
  lemma {:induction false} NullTerminatedRoundTrip(d: Desc, m: Msg, rest: seq<Byte>) returns (w: Msg)
    requires WellFormed(d) && |m| == |d| && StorableMsg(d, m) && ReadableMsg(d, m)
    ensures Encode(d, m).Some? && (SameMsg(d, m, w) <==> FaithfulMsg(d, m))
    ensures Decode(d, Encode(d, m).value + [0] + rest) == Read(w, |Encode(d, m).value| + 1)
  {
    hide Run, Encode, WellFormed, StorableMsg, ReadableMsg, FaithfulMsg, GotMsg, SameMsg, Defaults;
    var st := MessageArrives(d, m, [0] + rest);
    w := st.m;
    assert Encode(d, m).value + [0] + rest == Encode(d, m).value + ([0] + rest);
    ZeroKeyStops(d, rest, st);
    GotMsgSame(d, m, w);
  }

  lemma {:induction false} ZeroKeyStops(d: Desc, rest: seq<Byte>, st: DState)
    requires |st.m| == |d|
    ensures Run(d, [0] + rest, st) == Done(st, 1)
  {
    assert DecVarint32([0] + rest) == Read(0, 1);
    assert DecStep(d, [0] + rest, st) == Stop(1);
  }

  /** A message behind its length is read back exactly, and the stream ends up exactly behind it. */
  lemma {:induction false} DelimitedRoundTrip(d: Desc, m: Msg, rest: seq<Byte>) returns (w: Msg)
    requires WellFormed(d) && |m| == |d| && StorableMsg(d, m) && ReadableMsg(d, m)
    requires Encode(d, m).Some? ==> |Encode(d, m).value| < TWO_32
    ensures Encode(d, m).Some? && (SameMsg(d, m, w) <==> FaithfulMsg(d, m))
    ensures var frame := Delimit(Encode(d, m).value);
            && Delimited(frame + rest) == Read(Encode(d, m).value, |frame|)
            && Decode(d, Delimited(frame + rest).val) == Read(w, |Encode(d, m).value|)
  {
    hide Delimit, Delimited, Encode, Decode, WellFormed, StorableMsg, ReadableMsg, FaithfulMsg, GotMsg, SameMsg;
    w := MessageReceived(d, m);
    GotMsgSame(d, m, w);
    DelimitRoundTrip(Encode(d, m).value, rest);
  }
}
