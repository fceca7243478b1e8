/** Decoding any bytes whatever leaves a structure that fits its descriptor. */
module TypeSafety {
  import opened Basics
  import opened Varint
  import opened Descriptors
  import opened Scalars
  import opened Decoding
  import opened Shapes

  // ----------------------------------------------------------------- defaults

  lemma {:induction false} ScalarOkShape(f: Field, v: Value)
    requires ScalarOk(f, v)
    ensures ScalarShape(f, v)
  {
  }

  lemma {:induction false} BlankShape(f: Field, strict: bool)
    requires StaticField(f, strict)
    ensures ItemShape(f, BlankValue(f), strict) && ItemShape(f, InitialValue(f), strict)
    decreases f, 0
  {
    if f.ptr.Sub? {
      DefaultsShape(f.ptr.fields, strict);
    }
  }

  lemma {:induction false} DefaultSlotShape(d: Desc, i: nat, strict: bool)
    requires StaticDesc(d, strict) && i < |d|
    ensures SlotShape(d, i, DefaultSlot(d[i], Leader(d, i) == i), strict)
    decreases d, 1
  {
    hide ItemShape, BlankValue, InitialValue;
    StaticEntry(d, i, strict);
    BlankShape(d[i], strict);
    StaticTags(d, strict);
  }

  /** The structure pb_message_set_to_defaults leaves fits its descriptor. */
  lemma {:induction false} DefaultsShape(d: Desc, strict: bool)
    requires StaticDesc(d, strict)
    ensures MsgShape(d, Defaults(d), strict)
    decreases d, 2
  {
    hide SlotShape, DefaultSlot, StaticDesc;
    forall i | 0 <= i < |d|
      ensures SlotShape(d, i, Defaults(d)[i], strict)
    {
      hide SlotShape, DefaultSlot, StaticDesc;
      DefaultSlotShape(d, i, strict);
    }
  }

  // -------------------------------------------------------------- single items

  lemma {:induction false} LittleEndianBound(s: seq<Byte>)
    ensures FromLittleEndian(s) < Pow2(8 * |s|)
  {
    if s != [] {
      LittleEndianBound(s[1..]);
      Pow2Add(8 * |s[1..]|, 8);
      assert Pow2(8) == 256;
    }
  }

  lemma {:induction false} ScalarDecoded(f: Field, s: seq<Byte>)
    requires DecScalar(f, s).Read?
    ensures ScalarOk(f, DecScalar(f, s).val)
  {
    hide DecVarint, ToSigned, UnZigZag, DecVarint32;
    match f.ltype
    case LFixed32 =>
      LittleEndianBound(s[..4]);
      Pow2Values();
    case LFixed64 =>
      LittleEndianBound(s[..8]);
      Pow2Values();
    case LVarint | LUvarint | LSvarint =>
    case _ =>
  }

  lemma {:induction false} PackedDecoded(f: Field, s: seq<Byte>, room: nat)
    requires DecPacked(f, s, room).Some?
    ensures forall j :: 0 <= j < |DecPacked(f, s, room).value| ==> ScalarOk(f, DecPacked(f, s, room).value[j])
    decreases room
  {
    hide DecScalar, ScalarOk;
    if s != [] {
      ScalarDecoded(f, s);
      PackedDecoded(f, s[DecScalar(f, s).used..], room - 1);
    }
  }

  lemma {:induction false} ItemKept(f: Field, s: seq<Byte>, base: Value, strict: bool)
    requires StaticField(f, strict) && ItemShape(f, base, strict) && DecItem(f, s, base).Read?
    ensures ItemShape(f, DecItem(f, s, base).val, strict)
    decreases |s|, 0
  {
    if f.ltype.LSubmessage? {
      MsgKept(f.ptr.fields, Delimited(s).val, base.m, strict);
    } else {
      ScalarDecoded(f, s);
      ScalarOkShape(f, DecScalar(f, s).val);
    }
  }

  lemma {:induction false} RepeatedKept(f: Field, wt: nat, s: seq<Byte>, items: seq<Value>, count: nat, strict: bool)
    requires StaticField(f, strict) && DecRepeated(f, wt, s, items, count).Read?
    ensures forall j :: 0 <= j < |DecRepeated(f, wt, s, items, count).val| ==>
            ItemShape(f, DecRepeated(f, wt, s, items, count).val[j], strict)
    decreases |s|, 1
  {
    hide DecPacked, ScalarOk, ScalarShape, Delimited;
    if TakenPacked(f, wt) {
      PackedDecoded(f, Delimited(s).val, Room(f, count));
      forall j | 0 <= j < |DecRepeated(f, wt, s, items, count).val|
        ensures ItemShape(f, DecRepeated(f, wt, s, items, count).val[j], strict)
      {
        ScalarOkShape(f, DecRepeated(f, wt, s, items, count).val[j]);
      }
    } else {
      BlankShape(f, strict);
      ItemKept(f, s, BlankValue(f), strict);
    }
  }

  // ------------------------------------------------------------ slots, messages

  /** The slot of entry i, as far as entry i is concerned. */
  ghost predicate OwnShape(d: Desc, i: nat, slot: Slot, strict: bool)
    requires i < |d|
  {
    SlotShape(d, Leader(d, i), slot, strict)
  }

  lemma {:induction false} OneItemKept(d: Desc, i: nat, wt: nat, s: seq<Byte>, slot: Slot, count: nat, strict: bool)
    requires StaticDesc(d, strict) && i < |d| && OwnShape(d, i, slot, strict) && !d[i].htype.Repeated?
    requires DecSlot(d[i], wt, s, slot, count).Read?
    ensures OwnShape(d, i, DecSlot(d[i], wt, s, slot, count).val.slot, strict)
    decreases |s|, 2
  {
    hide DecItem, ItemShape, StaticField, BlankValue;
    StaticEntry(d, i, strict);
    LeaderLeads(d, i);
    BlankShape(d[i], strict);
    ItemKept(d[i], s, Base(d[i], slot), strict);
    if d[i].htype.Oneof? {
      forall k | 0 <= k < |d| && d[k].tag == d[i].tag
        ensures k == i
      {
      }
    }
  }

  lemma {:induction false} ArrayKept(d: Desc, i: nat, wt: nat, s: seq<Byte>, slot: Slot, count: nat, strict: bool)
    requires StaticDesc(d, strict) && i < |d| && OwnShape(d, i, slot, strict) && d[i].htype.Repeated?
    requires DecSlot(d[i], wt, s, slot, count).Read?
    ensures OwnShape(d, i, DecSlot(d[i], wt, s, slot, count).val.slot, strict)
    decreases |s|, 2
  {
    hide DecRepeated, ItemShape, StaticField;
    StaticEntry(d, i, strict);
    assert Leader(d, i) == i;
    RepeatedKept(d[i], wt, s, slot.items, if FixedCount(d[i]) then count else |slot.items|, strict);
  }

  lemma {:induction false} FieldKept(d: Desc, i: nat, wt: nat, s: seq<Byte>, st: DState, strict: bool)
    requires StaticDesc(d, strict) && i < |d| && |st.m| == |d| && MsgShape(d, st.m, strict)
    requires DecField(d, i, wt, s, st).Next?
    ensures MsgShape(d, DecField(d, i, wt, s, st).st.m, strict)
    decreases |s|, 3
  {
    hide DecSlot, SlotShape, StaticDesc;
    var slot, c := st.m[Leader(d, i)], Prepare(d, i, st).value.count;
    assert OwnShape(d, i, slot, strict);
    if d[i].htype.Repeated? {
      ArrayKept(d, i, wt, s, slot, c, strict);
    } else {
      OneItemKept(d, i, wt, s, slot, c, strict);
    }
  }

  lemma {:induction false} StepKept(d: Desc, s: seq<Byte>, st: DState, strict: bool)
    requires StaticDesc(d, strict) && |st.m| == |d| && MsgShape(d, st.m, strict) && DecStep(d, s, st).Next?
    ensures MsgShape(d, DecStep(d, s, st).st.m, strict)
    decreases |s|, 5
  {
    hide DecField, DecVarint32, MsgShape, StaticDesc;
    var key, k := DecVarint32(s).val, DecVarint32(s).used;
    if d != [] && FindTag(d, key / 8).Some? && DecField(d, FindTag(d, key / 8).value, key % 8, s[k..], st).Next? {
      FieldKept(d, FindTag(d, key / 8).value, key % 8, s[k..], st, strict);
    }
  }

  lemma {:induction false} RunKept(d: Desc, s: seq<Byte>, st: DState, strict: bool)
    requires StaticDesc(d, strict) && |st.m| == |d| && MsgShape(d, st.m, strict) && Run(d, s, st).Done?
    ensures MsgShape(d, Run(d, s, st).st.m, strict)
    decreases |s|, 6
  {
    hide DecStep, MsgShape, StaticDesc;
    if s != [] && DecStep(d, s, st).Next? {
      StepKept(d, s, st, strict);
      RunKept(d, s[DecStep(d, s, st).used..], DecStep(d, s, st).st, strict);
    }
  }

  /**
   * Type safety: whatever the bytes, a decode that succeeds leaves every slot with the type its
   * descriptor says, and (when strict) within its bounds: integers in the width of their field,
   * bytes and strings inside their buffers, counts at most array_size.
   */
  lemma {:induction false} MsgKept(d: Desc, s: seq<Byte>, m: Msg, strict: bool)
    requires StaticDesc(d, strict) && |m| == |d| && MsgShape(d, m, strict) && DecodeNoinit(d, s, m).Read?
    ensures MsgShape(d, DecodeNoinit(d, s, m).val, strict)
    decreases |s|, 7
  {
    hide Run, MsgShape, StaticDesc;
    RunKept(d, s, Start(m), strict);
  }
}
