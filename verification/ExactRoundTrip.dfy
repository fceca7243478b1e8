/** Exactly which messages survive being sent, and what stops the others. */
module ExactRoundTrip {
  import opened Basics
  import opened Descriptors
  import opened Scalars
  import opened Encoding
  import opened OutputStream
  import opened Decoding
  import opened Framing
  import opened WireRecords
  import opened Packing
  import opened Messages
  import opened Shapes
  import opened Sending
  import opened RoundTrip

  // ------------------------------------------------------------ records refused

  /** A record whose data the decoder refuses, whatever the loop's own checks say. */
  lemma {:induction false} BadRecord(d: Desc, i: nat, wt: nat, b: seq<Byte>, rest: seq<Byte>, st: DState)
    requires WellFormed(d) && i < |d| && |st.m| == |d| && wt < 8
    requires forall c :: DecSlot(d[i], wt, b + rest, st.m[Leader(d, i)], c).Fail?
    ensures Run(d, Key(d[i].tag, wt) + b + rest, st).Refused?
  {
    hide *;
    var kb := Key(d[i].tag, wt);
    assert kb + b + rest == kb + (b + rest);
    FindOwnTag(d, i);
    KeyOfEntry(d, i, wt);
    StepOfKey(d, kb, d[i].tag, wt, b + rest, st);
    KeyThen(kb, d[i].tag, wt, b + rest);
    KeyedField(d, i, d[i].tag * 8 + wt, b + rest, st);
    FieldRefused(d, i, wt, b + rest, st);
    KeyNonempty(kb, d[i].tag, wt);
    StepRefused(d, kb + (b + rest), st);
  }

  lemma {:induction false} FieldRefused(d: Desc, i: nat, wt: nat, s: seq<Byte>, st: DState)
    requires i < |d| && |st.m| == |d|
    requires forall c :: DecSlot(d[i], wt, s, st.m[Leader(d, i)], c).Fail?
    ensures DecField(d, i, wt, s, st).Bad?
  {
    hide DecSlot, Prepare;
  }

  lemma {:induction false} StepRefused(d: Desc, s: seq<Byte>, st: DState)
    requires |st.m| == |d| && s != [] && DecStep(d, s, st).Bad?
    ensures Run(d, s, st).Refused?
  {
    hide DecStep;
  }

  // -------------------------------------------------------------- items refused

  /** An unreadable item is refused, whatever is behind it. */
  lemma {:induction false} ItemRefused(f: Field, v: Value, base: Value, rest: seq<Byte>)
    requires WellFormedField(f) && StorableItem(f, v) && !ReadableItem(f, v) && FreshBase(f, base)
    ensures EncItem(f, v).Some? && DecItem(f, EncItem(f, v).value + rest, base).Fail?
    decreases f, 0
  {
    hide DecodeNoinit, EncFields, Defaults, Delimit, Delimited, WellFormed, StorableMsg, ReadableMsg, DecScalar,
        CString;
    if f.ltype.LSubmessage? {
      var sub := f.ptr.fields;
      StorableEncodes(sub, v.m);
      var body := Encode(sub, v.m).value;
      if !ReadableMsg(sub, v.m) {
        MessageRefused(sub, v.m, []);
        assert body + [] == body;
      }
      DelimitExact(body, rest);
      if |body| < TWO_32 {
        DelimitRoundTrip(body, rest);
      }
    } else {
      StringReadBack(f, v.b, rest);
    }
  }

  lemma {:induction false} StorableEncodes(d: Desc, m: Msg)
    requires WellFormed(d) && |m| == |d| && StorableMsg(d, m)
    ensures Encode(d, m).Some?
  {
    hide WellFormed, StorableMsg, SendableMsg, EncFields;
    StorableSendable(d, m, true);
    SendableFieldsEncode(d, m, 0);
  }

  /** The slot of an entry that has not arrived refuses an unreadable item. */
  lemma {:induction false} SlotRefuses(f: Field, b: seq<Byte>, rest: seq<Byte>, blank: Slot, c: nat)
    requires !f.htype.Repeated? && blank == DefaultSlot(f, true)
    requires DecItem(f, b + rest, Base(f, blank)).Fail?
    ensures DecSlot(f, WireType(f), b + rest, blank, c).Fail?
  {
    hide DecItem;
  }

  /** A field that holds one unreadable item. */
  lemma {:induction false} OneRefused(d: Desc, m: Msg, i: nat, v: Value, rest: seq<Byte>, st: DState)
    requires WellFormed(d) && |m| == |d| && StorableMsg(d, m) && i < |d| && Progress(d, m, i, st)
    requires !d[i].htype.Repeated? && StorableItem(d[i], v) && !ReadableItem(d[i], v)
    requires m[Leader(d, i)] == Holding(d[i], v) && !Omitted(d[i], m[Leader(d, i)])
    ensures EncRecord(d[i], v).Some?
    ensures Run(d, EncRecord(d[i], v).value + rest, st).Refused?
    decreases d[i], 2
  {
    var f, l := d[i], Leader(d, i);
    hide StorableMsg, StorableItem, ReadableItem, EncItem, DecItem, Run, DecSlot, Defaults, GotSlot, FreshBase;
    assert SlotProgress(d, m, i, l, st.m[l]) && WellFormedField(f);
    FreshSlot(d, m, i, st.m[l]);
    ItemRefused(f, v, Base(f, st.m[l]), rest);
    var b := EncItem(f, v).value;
    forall c: nat
      ensures DecSlot(f, WireType(f), b + rest, st.m[l], c).Fail?
    {
      SlotRefuses(f, b, rest, st.m[l], c);
    }
    BadRecord(d, i, WireType(f), b, rest, st);
  }

  // ------------------------------------------------------------- arrays refused

  lemma {:induction false} EachSplit(f: Field, items: seq<Value>, k: nat)
    requires k <= |items|
    ensures EncEach(f, items) == Join(EncEach(f, items[..k]), EncEach(f, items[k..]))
    decreases k
  {
    hide EncItem, Key;
    if k == 0 {
      assert items[..0] == [] && items[0..] == items;
      JoinAssoc(EncEach(f, items), None, None);
    } else {
      EachSplit(f, items[1..], k - 1);
      assert items[..k][1..] == items[1..][..k - 1] && items[..k][0] == items[0] && items[k..] == items[1..][k - 1..];
      JoinAssoc(Join(Some(Key(f.tag, WireType(f))), EncItem(f, items[0])), EncEach(f, items[..k][1..]),
          EncEach(f, items[k..]));
    }
  }

  lemma {:induction false} FirstUnreadable(f: Field, items: seq<Value>) returns (k: nat)
    requires exists j :: 0 <= j < |items| && !ReadableItem(f, items[j])
    ensures k < |items| && !ReadableItem(f, items[k]) && forall j :: 0 <= j < k ==> ReadableItem(f, items[j])
    decreases |items|
  {
    hide ReadableItem;
    if !ReadableItem(f, items[0]) {
      k := 0;
    } else {
      assert forall j :: 0 < j < |items| ==> items[j] == items[1..][j - 1];
      var k' := FirstUnreadable(f, items[1..]);
      k := k' + 1;
    }
  }

  lemma {:induction false} UnreadableUnpacked(f: Field, v: Value)
    requires !ReadableItem(f, v)
    ensures !Packable(f)
  {
  }

  /** The next item of an array is refused, whatever has been stored in it. */
  lemma {:induction false} ArraySlotRefuses(f: Field, s: seq<Byte>, slot: Slot, c: nat)
    requires f.htype.Repeated? && !Packable(f) && DecItem(f, s, BlankValue(f)).Fail?
    ensures DecSlot(f, WireType(f), s, slot, c).Fail?
  {
    hide DecItem, BlankValue;
  }

  /** After the items before it, an array's first unreadable item is refused. */
  lemma {:induction false} ItemsRefused(d: Desc, i: nat, items: seq<Value>, k: nat, rest: seq<Byte>, st: DState)
    requires WellFormed(d) && i < |d| && |st.m| == |d| && d[i].htype.Repeated? && ArrayReady(d, i, st) &&
             NextIndex(d, i, st) == Some(0)
    requires |items| <= d[i].arraySize && forall j :: 0 <= j < |items| ==> StorableItem(d[i], items[j])
    requires k < |items| && !ReadableItem(d[i], items[k]) && forall j :: 0 <= j < k ==> ReadableItem(d[i], items[j])
    requires EncEach(d[i], items).Some?
    ensures Run(d, EncEach(d[i], items).value + rest, st).Refused?
    decreases d[i], 2
  {
    hide *;
    var f := d[i];
    EntryWellFormed(d, i);
    UnreadableUnpacked(f, items[k]);
    EachBehind(f, items, k);
    var later := AfterItem(f, items, k) + rest;
    BlankFresh(f);
    ItemRefused(f, items[k], BlankValue(f), later);
    var b := EncItem(f, items[k]).value;
    var chunks, ws := ItemsRoundTrip(f, items[..k]);
    EachBytes(f, items, k, chunks, rest);
    var bad := Key(f.tag, WireType(f)) + b + later;
    PrefixRuns(d, i, chunks, ws, bad, st);
    var st1 := AfterPrefix(d, i, ws, st);
    forall c: nat
      ensures DecSlot(f, WireType(f), b + later, st1.m[Leader(d, i)], c).Fail?
    {
      ArraySlotRefuses(f, b + later, st1.m[Leader(d, i)], c);
    }
    BadRecord(d, i, WireType(f), b, later, st1);
    ShiftTwice(Refused, 0, |Singles(Key(f.tag, WireType(f)), chunks)|);
  }

  lemma {:induction false} EntryWellFormed(d: Desc, i: nat)
    requires WellFormed(d) && i < |d|
    ensures WellFormedField(d[i])
  {
  }

  /** The bytes of the items behind item k. */
  function AfterItem(f: Field, items: seq<Value>, k: nat): seq<Byte>
    requires k < |items|
  {
    var enc := EncEach(f, items[k..][1..]);
    if enc.Some? then enc.value else []
  }

  lemma {:induction false} EachBehind(f: Field, items: seq<Value>, k: nat)
    requires k < |items| && EncEach(f, items).Some?
    ensures EncItem(f, items[k]).Some? && EncEach(f, items[..k]).Some?
    ensures EncEach(f, items).value ==
            EncEach(f, items[..k]).value +
            (Key(f.tag, WireType(f)) + EncItem(f, items[k]).value + AfterItem(f, items, k))
  {
    hide EncItem, Key;
    EachSplit(f, items, k);
    assert items[k..][0] == items[k];
  }

  lemma {:induction false} EachBytes(f: Field, items: seq<Value>, k: nat, chunks: seq<seq<Byte>>, rest: seq<Byte>)
    requires k < |items| && EncEach(f, items).Some?
    requires EncEach(f, items[..k]) == Some(Singles(Key(f.tag, WireType(f)), chunks))
    ensures EncItem(f, items[k]).Some?
    ensures EncEach(f, items).value + rest ==
            Singles(Key(f.tag, WireType(f)), chunks) +
                (Key(f.tag, WireType(f)) + EncItem(f, items[k]).value + (AfterItem(f, items, k) + rest))
  {
    hide *;
    EachBehind(f, items, k);
    var a, x, y := Singles(Key(f.tag, WireType(f)), chunks), Key(f.tag, WireType(f)) + EncItem(f, items[k]).value,
        AfterItem(f, items, k);
    assert a + (x + y) + rest == a + (x + (y + rest));
  }

  lemma {:induction false} BlankFresh(f: Field)
    ensures FreshBase(f, BlankValue(f))
  {
  }

  /** The loop's state when the readable items before the first unreadable one are stored. */
  function AfterPrefix(d: Desc, i: nat, ws: seq<Value>, st: DState): (r: DState)
    requires i < |d| && |st.m| == |d| && ArrayReady(d, i, st)
    ensures |r.m| == |d|
  {
    if ws == [] || Filled(d, i, ws, st).None? then st else Filled(d, i, ws, st).value
  }

  lemma {:induction false} PrefixRuns(d: Desc, i: nat, chunks: seq<seq<Byte>>, ws: seq<Value>, rest: seq<Byte>,
      st: DState)
    requires WellFormed(d) && i < |d| && |st.m| == |d| && ArrayReady(d, i, st) && NextIndex(d, i, st) == Some(0)
    requires Elements(d[i], chunks, ws) && |ws| <= d[i].arraySize
    ensures Run(d, Singles(Key(d[i].tag, WireType(d[i])), chunks) + rest, st) ==
            Shift(Run(d, rest, AfterPrefix(d, i, ws, st)), |Singles(Key(d[i].tag, WireType(d[i])), chunks)|)
  {
    hide Run, Element, Key, IsKey, FindTag;
    if ws == [] {
      assert Singles(Key(d[i].tag, WireType(d[i])), chunks) + rest == rest;
    } else {
      FindOwnTag(d, i);
      KeyOfEntry(d, i, WireType(d[i]));
      SinglesFill(d, i, Key(d[i].tag, WireType(d[i])), chunks, ws, rest, st);
    }
  }

  // ------------------------------------------------------------- fields refused

  ghost predicate FieldRefusedAt(d: Desc, m: Msg, i: nat, rest: seq<Byte>, st: DState)
    requires |m| == |d| && i < |d| && |st.m| == |d|
  {
    && EncField(d[i], m[Leader(d, i)]).Some?
    && Run(d, EncField(d[i], m[Leader(d, i)]).value + rest, st).Refused?
  }

  lemma {:induction false} FieldUnreadable(d: Desc, m: Msg, i: nat, rest: seq<Byte>, st: DState)
    requires WellFormed(d) && |m| == |d| && StorableMsg(d, m) && i < |d| && Progress(d, m, i, st)
    requires !ReadableSlot(d[i], m[Leader(d, i)])
    ensures |st.m| == |d| && FieldRefusedAt(d, m, i, rest, st)
    decreases d, 3
  {
    var f, slot := d[i], m[Leader(d, i)];
    hide StorableItem, ReadableItem, EncItem, Run, Progress, FreshBase, EncRecord, EncArray, WellFormedField,
        IsZeroValue, ArrayReady, NextIndex;
    ProgressSize(d, m, i, st);
    assert WellFormedField(f) && StorableSlot(d, Leader(d, i), slot);
    LeaderLeads(d, i);
    FindOwnTag(d, i);
    if f.htype.Repeated? {
      ArrayUnreadable(d, m, i, rest, st);
    } else {
      TagPositive(f);
      OneRefused(d, m, i, slot.v, rest, st);
      EncPresent(f, slot);
    }
  }

  lemma {:induction false} ArrayUnreadable(d: Desc, m: Msg, i: nat, rest: seq<Byte>, st: DState)
    requires WellFormed(d) && |m| == |d| && StorableMsg(d, m) && i < |d| && Progress(d, m, i, st) && |st.m| == |d|
    requires d[i].htype.Repeated? && !ReadableSlot(d[i], m[Leader(d, i)])
    ensures FieldRefusedAt(d, m, i, rest, st)
    decreases d[i], 3
  {
    var f, slot := d[i], m[i];
    hide StorableItem, ReadableItem, EncItem, Run, DecSlot, Progress, EncEach, EncPacked, FreshBase, IsZeroValue,
        ArrayReady, NextIndex;
    assert WellFormedField(f) && StorableSlot(d, i, slot);
    if Packable(f) {
      PackedReadable(f, slot.items);
      PackedUnreadable(d, i, slot, rest, st);
    } else {
      var k := FirstUnreadable(f, slot.items);
      FreshArrayReady(d, m, i, st);
      StorableEach(f, slot.items);
      ItemsRefused(d, i, slot.items, k, rest, st);
      EncUnpacked(f, slot);
    }
  }

  lemma {:induction false} PackedReadable(f: Field, items: seq<Value>)
    requires Packable(f)
    ensures forall j :: 0 <= j < |items| ==> ReadableItem(f, items[j])
  {
  }

  /** A packed array of 4 GiB or more is refused: its length does not fit in 32 bits. */
  lemma {:induction false} PackedUnreadable(d: Desc, i: nat, slot: Slot, rest: seq<Byte>, st: DState)
    requires WellFormed(d) && i < |d| && |st.m| == |d| && d[i].htype.Repeated? && Packable(d[i]) && slot.Rep?
    requires |slot.items| <= d[i].arraySize && (FixedCount(d[i]) ==> |slot.items| == d[i].arraySize)
    requires EncPacked(d[i], slot.items).Some? && TWO_32 <= |EncPacked(d[i], slot.items).value| < TWO_63
    ensures EncField(d[i], slot).Some? && Run(d, EncField(d[i], slot).value + rest, st).Refused?
  {
    var f, body := d[i], EncPacked(d[i], slot.items).value;
    hide WellFormed, DecSlot, Run, Key, Delimit, Delimited;
    assert slot.items != [] by { assert EncPacked(f, []) == Some([]); }
    DelimitExact(body, rest);
    forall c: nat
      ensures DecSlot(f, WT_STRING, Delimit(body) + rest, st.m[Leader(d, i)], c).Fail?
    {
      PackedSlotRefuses(f, Delimit(body) + rest, st.m[Leader(d, i)], c);
    }
    BadRecord(d, i, WT_STRING, Delimit(body), rest, st);
  }

  lemma {:induction false} PackedSlotRefuses(f: Field, s: seq<Byte>, slot: Slot, c: nat)
    requires f.htype.Repeated? && Packable(f) && Delimited(s).Fail?
    ensures DecSlot(f, WT_STRING, s, slot, c).Fail?
  {
    hide Delimited;
  }

  lemma {:induction false} EncUnpacked(f: Field, slot: Slot)
    requires f.htype.Repeated? && slot.Rep? && !Packable(f) && 0 < |slot.items| <= f.arraySize
    requires FixedCount(f) ==> |slot.items| == f.arraySize
    ensures EncField(f, slot) == EncEach(f, slot.items)
  {
    hide EncEach;
  }

  lemma {:induction false} StorableEach(f: Field, items: seq<Value>)
    requires WellFormedField(f) && forall j :: 0 <= j < |items| ==> StorableItem(f, items[j])
    ensures EncEach(f, items).Some?
  {
    hide StorableItem, SendableItem, WellFormedField, ItemAddressable, EncEach;
    forall j | 0 <= j < |items|
      ensures SendableItem(f, items[j], true)
    {
      StorableItemSendable(f, items[j], true);
    }
    SendableEachEncodes(f, items);
  }

  /** The slot of an array that has not arrived takes its first item at index 0. */
  lemma {:induction false} FreshArrayReady(d: Desc, m: Msg, i: nat, st: DState)
    requires WellFormed(d) && |m| == |d| && i < |d| && Progress(d, m, i, st) && d[i].htype.Repeated? && |st.m| == |d|
    ensures ArrayReady(d, i, st) && NextIndex(d, i, st) == Some(0)
  {
    hide *;
    ArrayBlank(d, m, i, st);
    BlankReady(d, i, st);
  }

  lemma {:induction false} ArrayBlank(d: Desc, m: Msg, i: nat, st: DState)
    requires |m| == |d| && i < |d| && Progress(d, m, i, st) && d[i].htype.Repeated?
    ensures st.m[i] == DefaultSlot(d[i], true) && (st.fixed.Some? ==> st.fixed.value < i && FixedComplete(d, st))
  {
    hide GotSlot, DefaultSlot;
    assert SlotProgress(d, m, i, i, st.m[i]);
  }

  lemma {:induction false} BlankReady(d: Desc, i: nat, st: DState)
    requires i < |d| && |st.m| == |d| && d[i].htype.Repeated? && st.m[i] == DefaultSlot(d[i], true)
    requires st.fixed.Some? ==> st.fixed.value < i && FixedComplete(d, st)
    ensures ArrayReady(d, i, st) && NextIndex(d, i, st) == Some(0)
  {
    hide BlankValue;
  }

  // ----------------------------------------------------------- messages refused

  lemma {:induction false} FieldsRefused(d: Desc, m: Msg, i: nat, rest: seq<Byte>, st: DState)
    requires WellFormed(d) && |m| == |d| && StorableMsg(d, m) && i <= |d| && Progress(d, m, i, st) && |st.m| == |d|
    requires exists k :: i <= k < |d| && !ReadableSlot(d[k], m[Leader(d, k)])
    requires EncFields(d, m, i).Some?
    ensures Run(d, EncFields(d, m, i).value + rest, st).Refused?
    decreases d, 4, |d| - i
  {
    hide *;
    var later := Behind(d, m, i + 1, rest);
    FieldsParts(d, m, i, rest);
    if ReadableSlot(d[i], m[Leader(d, i)]) {
      var st1 := FieldRoundTrip(d, m, i, later, st);
      ProgressSize(d, m, i + 1, st1);
      FieldsRefused(d, m, i + 1, rest, st1);
      StillRefused(d, m, i, rest, st, st1);
    } else {
      FieldUnreadable(d, m, i, later, st);
      RefusedHere(d, m, i, rest, st);
    }
  }

  lemma {:induction false} FieldsParts(d: Desc, m: Msg, i: nat, rest: seq<Byte>)
    requires |m| == |d| && i < |d| && EncFields(d, m, i).Some?
    ensures EncField(d[i], m[Leader(d, i)]).Some? && EncFields(d, m, i + 1).Some?
    ensures EncFields(d, m, i).value + rest == EncField(d[i], m[Leader(d, i)]).value + Behind(d, m, i + 1, rest)
    ensures Behind(d, m, i + 1, rest) == EncFields(d, m, i + 1).value + rest
  {
    hide EncField;
    var a, b := EncField(d[i], m[Leader(d, i)]).value, EncFields(d, m, i + 1).value;
    assert a + b + rest == a + (b + rest);
  }

  lemma {:induction false} StillRefused(d: Desc, m: Msg, i: nat, rest: seq<Byte>, st: DState, st1: DState)
    requires |m| == |d| && i < |d| && |st.m| == |d| && |st1.m| == |d| && EncFields(d, m, i).Some? &&
             EncFields(d, m, i + 1).Some?
    requires FieldWritten(d, m, i, Behind(d, m, i + 1, rest), st, st1)
    requires Run(d, EncFields(d, m, i + 1).value + rest, st1).Refused?
    ensures Run(d, EncFields(d, m, i).value + rest, st).Refused?
  {
    hide Run, EncField, EncFields;
    FieldsParts(d, m, i, rest);
  }

  lemma {:induction false} RefusedHere(d: Desc, m: Msg, i: nat, rest: seq<Byte>, st: DState)
    requires |m| == |d| && i < |d| && |st.m| == |d| && EncFields(d, m, i).Some?
    requires FieldRefusedAt(d, m, i, Behind(d, m, i + 1, rest), st)
    ensures Run(d, EncFields(d, m, i).value + rest, st).Refused?
  {
    hide Run, EncField, EncFields;
    FieldsParts(d, m, i, rest);
  }

  /**
   * A message with a string that is sent without room for a terminator, or with a payload of 4 GiB
   * or more, is encoded, and refused by the decoder.
   */
  lemma {:induction false} MessageRefused(d: Desc, m: Msg, rest: seq<Byte>)
    requires WellFormed(d) && |m| == |d| && StorableMsg(d, m) && !ReadableMsg(d, m)
    ensures Encode(d, m).Some? && Decode(d, Encode(d, m).value + rest).Fail?
    decreases d, 5
  {
    hide Run, EncFields, Progress, WellFormed, StorableMsg, ReadableSlot, Defaults, SendableMsg;
    StorableEncodes(d, m);
    DefaultsProgress(d, m);
    FieldsRefused(d, m, 0, rest, Start(Defaults(d)));
  }

  // --------------------------------------------------------------- exact round trip

  /**
   * Exactly which messages survive: the encoder accepts every storable message. Decoding the result
   * succeeds if and only if every string that is sent leaves room for its terminator, and every
   * payload is below 4 GiB. It then
   * consumes all of it, and gives the same message if and only if every proto3 singular field left
   * out as zero has a zero default.
   */
  lemma {:induction false} RoundTripExact(d: Desc, m: Msg)
    requires WellFormed(d) && |m| == |d| && StorableMsg(d, m)
    ensures Encode(d, m).Some?
    ensures var r := Decode(d, Encode(d, m).value);
            && (r.Read? <==> ReadableMsg(d, m))
            && (r.Read? ==> r.used == |Encode(d, m).value| && (SameMsg(d, m, r.val) <==> FaithfulMsg(d, m)))
  {
    hide Encode, Decode, WellFormed, StorableMsg, ReadableMsg, FaithfulMsg, SameMsg, GotMsg;
    if ReadableMsg(d, m) {
      var w := MessageReceived(d, m);
      GotMsgSame(d, m, w);
    } else {
      MessageRefused(d, m, []);
      assert Encode(d, m).value + [] == Encode(d, m).value;
    }
  }

  // ------------------------------------------------------ messages that do not survive

  /** A proto3 singular field of four bytes with the default 5. */
  const FIVE := Field(1, LUvarint, Optional, Static, 0, 0, 4, 0, Default(VInt(5)))

  /** Zero is not sent, and the receiver keeps 5; any other value survives. */
  lemma {:induction false} DefaultLost(n: nat)
    requires n < TWO_32
    ensures WellFormed([FIVE]) && StorableMsg([FIVE], [Single(VInt(n))]) && ReadableMsg([FIVE], [Single(VInt(n))])
    ensures Encode([FIVE], [Single(VInt(n))]).Some?
    ensures var r := Decode([FIVE], Encode([FIVE], [Single(VInt(n))]).value);
            r.Read? && (SameMsg([FIVE], [Single(VInt(n))], r.val) <==> n != 0)
  {
    hide Encode, Decode, SameMsg;
    var d, m := [FIVE], [Single(VInt(n))];
    assert d[0] == FIVE && m[0] == Single(VInt(n)) && Leader(d, 0) == 0;
    assert WellFormedField(FIVE);
    assert StorableSlot(d, 0, m[0]);
    assert ReadableItem(FIVE, VInt(n)) && ReadableSlot(FIVE, Single(VInt(n)));
    assert FaithfulSlot(d, 0, m[0]) <==> n != 0;
    RoundTripExact(d, m);
  }

  /** A string in a buffer of two bytes. */
  const TWO_BYTES := Field(1, LString, Required, Static, 0, 0, 2, 0, Null)

  /** A string that fills the buffer is encoded, and refused by the decoder. */
  lemma {:induction false} FullStringLost(a: Byte, b: Byte)
    requires a != 0
    ensures WellFormed([TWO_BYTES]) && StorableMsg([TWO_BYTES], [Single(VBytes([a, b]))])
    ensures Encode([TWO_BYTES], [Single(VBytes([a, b]))]).Some?
    ensures Decode([TWO_BYTES], Encode([TWO_BYTES], [Single(VBytes([a, b]))]).value).Read? <==> b == 0
  {
    hide Encode, Decode, SameMsg, FaithfulMsg;
    var d, m := [TWO_BYTES], [Single(VBytes([a, b]))];
    assert d[0] == TWO_BYTES && m[0] == Single(VBytes([a, b])) && Leader(d, 0) == 0;
    assert WellFormedField(TWO_BYTES);
    assert StorableSlot(d, 0, m[0]);
    assert [a, b][1..] == [b] && [b][1..] == [];
    assert CString([b]) == (if b == 0 then [] else [b]) && CString([a, b]) == [a] + CString([b]);
    assert ReadableSlot(d[0], m[Leader(d, 0)]) <==> b == 0;
    RoundTripExact(d, m);
  }
}
