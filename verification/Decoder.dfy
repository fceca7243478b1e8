/** pb_decode.c: the decoder over input streams and a destination structure updated in place. */
module Decoder {
  import opened Basics
  import opened Varint
  import opened Descriptors
  import opened Scalars
  import opened Decoding
  import opened Contents
  import opened Framing
  import opened WireRecords
  import opened Shapes
  import opened TypeSafety
  import opened FieldIterator
  import opened InputStream
  import opened RequiredBitmap
  import opened Presence

  /** The destination structure of a decode. */
  class Destination {
    var m: Msg

    constructor (init: Msg)
      ensures m == init
    {
      m := init;
    }
  }

  // ----------------------------------------------------------------- defaults

  /** pb_message_set_to_defaults. */
  method SetToDefaults(d: Desc, dest: Destination)
    requires StaticDesc(d, false) && |dest.m| == |d|
    modifies dest
    ensures dest.m == Defaults(d) && NothingSet(d, dest.m)
    decreases d, 1
  {
    hide Defaults, StaticDesc, NothingSet;
    DefaultMessage(d);
    StaticTags(d, false);
    var iter := new FieldIter(d, 0);
    if d == [] {
      return;
    }
    var more := true;
    while more
      invariant iter.Valid() && iter.start == d && iter.pos < |d| && fresh(iter)
      invariant |dest.m| == |d|
      invariant forall k :: 0 <= k < |d| && (!more || k < iter.pos) ==> dest.m[k] == Defaults(d)[k]
      decreases more, |d| - iter.pos
    {
      FieldSetToDefault(d, iter.pos, dest);
      more := iter.Next();
    }
  }

  /** pb_field_set_to_default. */
  method FieldSetToDefault(d: Desc, i: nat, dest: Destination)
    requires StaticDesc(d, false) && |dest.m| == |d| && i < |d|
    modifies dest
    ensures |dest.m| == |d|
    ensures dest.m[i] == Defaults(d)[i]
    ensures forall k :: 0 <= k < |d| && k != i ==> dest.m[k] == old(dest.m)[k] || dest.m[k] == Defaults(d)[k]
    decreases d, 0
  {
    var f := d[i];
    StaticEntry(d, i, false);
    LeaderLeads(d, i);
    match f.htype
    case Required =>
      var v := InitialData(f);
      dest.m := dest.m[i := Single(v)];
    case Optional =>
      // The flag is cleared, and the data reset all the same.
      var v := InitialData(f);
      dest.m := dest.m[i := if HasFlag(f) then Opt(false, v) else Single(v)];
    case Repeated =>
      dest.m := dest.m[i := if FixedCount(f) then Rep(seq(f.arraySize, _ => VStale)) else Rep([])];
    case Oneof =>
      // No member is current any more; the cell belongs to the first one.
      dest.m := dest.m[i := Shadow];
      dest.m := dest.m[Leader(d, i) := Union(0, VStale)];
  }

  /** The data of a required or optional field, set to its default, recursively. */
  method InitialData(f: Field) returns (v: Value)
    requires StaticField(f, false)
    ensures v == InitialValue(f)
    decreases f, 0
  {
    match f.ptr
    case Sub(sub) =>
      var store := new Destination(seq(|sub|, _ => Shadow));
      SetToDefaults(sub, store);
      v := VMsg(store.m);
    case Default(value) =>
      v := value;
    case Null =>
      v := ZeroValue(f);
  }

  // -------------------------------------------------------------------- items

  /** PB_DECODERS. */
  method DecodeItem(stream: IStream, f: Field, base: Value) returns (ok: bool, v: Value)
    requires stream.Valid() && StaticField(f, false) && ItemShape(f, base, false)
    requires f.htype.Repeated? ==> base == BlankValue(f)
    modifies stream
    ensures stream.Valid() && stream.Within()
    ensures ok <==> DecItem(f, old(stream.Rest()), base).Read?
    ensures ok ==> v == DecItem(f, old(stream.Rest()), base).val
    ensures ok ==> stream.Took(DecItem(f, old(stream.Rest()), base).used)
    decreases stream.bytesLeft, 1
  {
    hide DecScalar;
    if f.ltype.LSubmessage? {
      ok, v := DecodeSubmessage(stream, f, base);
    } else {
      ok, v := stream.DecodeScalar(f);
    }
  }

  /**
   * pb_dec_submessage: decode a window on the payload, then move past the payload whatever the
   * inner decode used of it. Array items are reset first; other submessages are merged into.
   */
  method DecodeSubmessage(stream: IStream, f: Field, base: Value) returns (ok: bool, v: Value)
    requires stream.Valid() && StaticField(f, false) && ItemShape(f, base, false) && f.ltype.LSubmessage?
    requires f.htype.Repeated? ==> base == BlankValue(f)
    modifies stream
    ensures stream.Valid() && stream.Within()
    ensures ok <==> DecItem(f, old(stream.Rest()), base).Read?
    ensures ok ==> v == DecItem(f, old(stream.Rest()), base).val
    ensures ok ==> stream.Took(DecItem(f, old(stream.Rest()), base).used)
    decreases stream.bytesLeft, 0
  {
    v := base;
    var substream;
    ok, substream := stream.MakeSubstream();
    if !ok {
      return;
    }
    if !f.ptr.Sub? {
      return false, v; // invalid field descriptor
    }
    var store := new Destination(base.m);
    if f.htype.Repeated? {
      SetToDefaults(f.ptr.fields, store);
    }
    var status := DecodeMsg(substream, f.ptr.fields, store);
    var closed := stream.CloseSubstream(substream);
    if !closed {
      return false, v;
    }
    return status, VMsg(store.m);
  }

  // ------------------------------------------------------------------- arrays

  /** The elements of the whole array, given those decoded so far, the payload left and the room left. */
  ghost predicate PackedSoFar(f: Field, all: Option<seq<Value>>, vs: seq<Value>, s: seq<Byte>, room: nat) {
    var rest := DecPacked(f, s, room);
    if rest.None? then all.None? else all == Some(vs + rest.value)
  }

  lemma {:induction false} PackedNext(f: Field, all: Option<seq<Value>>, vs: seq<Value>, s: seq<Byte>, room: nat)
    requires PackedSoFar(f, all, vs, s, room) && s != [] && room > 0
    ensures DecScalar(f, s).Fail? ==> all.None?
    ensures DecScalar(f, s).Read? ==>
            PackedSoFar(f, all, vs + [DecScalar(f, s).val], s[DecScalar(f, s).used..], room - 1)
  {
    hide DecScalar;
    if DecScalar(f, s).Read? {
      var v, n := DecScalar(f, s).val, DecScalar(f, s).used;
      var rest := DecPacked(f, s[n..], room - 1);
      if rest.Some? {
        assert vs + ([v] + rest.value) == vs + [v] + rest.value;
      }
    }
  }

  lemma {:induction false} PackedEnd(f: Field, all: Option<seq<Value>>, vs: seq<Value>, s: seq<Byte>, room: nat)
    requires PackedSoFar(f, all, vs, s, room) && (s == [] || room == 0)
    ensures all == if s == [] then Some(vs) else None
  {
    assert vs + [] == vs;
  }

  lemma {:induction false} PackedStart(f: Field, s: seq<Byte>, room: nat)
    ensures PackedSoFar(f, DecPacked(f, s, room), [], s, room)
  {
    hide DecPacked;
    var all := DecPacked(f, s, room);
    if all.Some? {
      assert [] + all.value == all.value;
    }
  }

  /** The loop over a packed array: as many elements as there is payload and room. */
  method DecodePacked(substream: IStream, f: Field, count: nat) returns (ok: bool, vs: seq<Value>)
    requires substream.Valid() && Packable(f)
    modifies substream
    ensures substream.Valid() && substream.Within()
    ensures ok <==> DecPacked(f, old(substream.Rest()), Room(f, count)).Some?
    ensures ok ==> vs == DecPacked(f, old(substream.Rest()), Room(f, count)).value && substream.bytesLeft == 0
    ensures ok ==> substream.state == old(substream.state + substream.bytesLeft)
  {
    hide DecPacked, PackedSoFar;
    ghost var all := DecPacked(f, substream.Rest(), Room(f, count));
    PackedStart(f, substream.Rest(), Room(f, count));
    vs := [];
    var size: nat := count;
    while substream.bytesLeft > 0 && size < f.arraySize
      invariant substream.Valid() && substream.Within()
      invariant substream.state + substream.bytesLeft == old(substream.state + substream.bytesLeft)
      invariant PackedSoFar(f, all, vs, substream.Rest(), Room(f, size))
      decreases substream.bytesLeft
    {
      var v;
      ok, v := DecodeElement(substream, f, all, vs, Room(f, size));
      if !ok {
        return;
      }
      vs := vs + [v];
      size := size + 1;
    }
    PackedEnd(f, all, vs, substream.Rest(), Room(f, size));
    return substream.bytesLeft == 0, vs; // array overflow if anything is left
  }

  /** One turn of that loop. */
  method DecodeElement(substream: IStream, f: Field, ghost all: Option<seq<Value>>, ghost vs: seq<Value>,
      ghost room: nat) returns (ok: bool, v: Value)
    requires substream.Valid() && Packable(f) && substream.bytesLeft > 0 && room > 0
    requires PackedSoFar(f, all, vs, substream.Rest(), room)
    modifies substream
    ensures substream.Valid() && substream.Within()
    ensures !ok ==> all.None?
    ensures ok ==> substream.bytesLeft < old(substream.bytesLeft)
    ensures ok ==> substream.state + substream.bytesLeft == old(substream.state + substream.bytesLeft)
    ensures ok ==> PackedSoFar(f, all, vs + [v], substream.Rest(), room - 1)
    ensures var r := DecScalar(f, old(substream.Rest()));
            (ok <==> r.Read?) && (ok ==> substream.Rest() == old(substream.Rest())[r.used..])
  {
    hide DecScalar, PackedSoFar;
    ghost var s := substream.Rest();
    PackedNext(f, all, vs, s, room);
    ok, v := substream.DecodeScalar(f);
    if ok {
      substream.RestAfter(DecScalar(f, s).used);
    }
  }

  /** The repeated case of decode_static_field: a packed array, or one more item. */
  method DecodeRepeated(stream: IStream, f: Field, wt: nat, items: seq<Value>, count: nat)
      returns (ok: bool, vs: seq<Value>)
    requires stream.Valid() && StaticField(f, false) && f.htype.Repeated?
    modifies stream
    ensures stream.Valid() && stream.Within()
    ensures ok <==> DecRepeated(f, wt, old(stream.Rest()), items, count).Read?
    ensures ok ==> vs == DecRepeated(f, wt, old(stream.Rest()), items, count).val
    ensures ok ==> stream.Took(DecRepeated(f, wt, old(stream.Rest()), items, count).used)
    decreases stream.bytesLeft, 2
  {
    hide DecPacked, Delimited, DecItem, StaticField, ItemShape, BlankValue;
    vs := [];
    if wt == WT_STRING && Packable(f) {
      var substream;
      ok, substream := stream.MakeSubstream();
      if !ok {
        return;
      }
      var status, elements := DecodePacked(substream, f, count);
      if !status {
        return false, vs;
      }
      var closed := stream.CloseSubstream(substream);
      return closed, elements;
    } else {
      if count >= f.arraySize {
        return false, vs; // array overflow
      }
      BlankShape(f, false);
      var v;
      ok, v := DecodeItem(stream, f, BlankValue(f));
      vs := [v];
    }
  }

  // ------------------------------------------------------------------- fields

  /** decode_static_field, on the contents of the field's slot; count is the counter of a fixed-count array. */
  method DecodeStaticField(stream: IStream, d: Desc, i: nat, wt: nat, slot: Slot, count: nat)
      returns (ok: bool, slot': Slot, count': nat)
    requires stream.Valid() && StaticDesc(d, false) && i < |d| && OwnShape(d, i, slot, false)
    modifies stream
    ensures stream.Valid() && stream.Within()
    ensures ok <==> DecSlot(d[i], wt, old(stream.Rest()), slot, count).Read?
    ensures ok ==> DecSlot(d[i], wt, old(stream.Rest()), slot, count).val == Stored(slot', count')
    ensures ok ==> stream.Took(DecSlot(d[i], wt, old(stream.Rest()), slot, count).used)
    decreases stream.bytesLeft, 3
  {
    var f := d[i];
    StaticEntry(d, i, false);
    OwnShapes(d, i, slot);
    hide DecItem, StaticField, ItemShape, StaticDesc, OwnShape, BlankValue, DecRepeated;
    slot', count' := slot, count;
    match f.htype
    case Required =>
      var v;
      ok, v := DecodeItem(stream, f, slot.v);
      slot' := Single(v);
    case Optional =>
      var v;
      ok, v := DecodeItem(stream, f, slot.v);
      slot' := if HasFlag(f) then Opt(true, v) else Single(v);
    case Repeated =>
      var size := if FixedCount(f) then count else |slot.items|;
      var vs;
      ok, vs := DecodeRepeated(stream, f, wt, slot.items, size);
      if ok {
        slot' := Rep(Store(f, slot.items, count, vs));
        count' := if FixedCount(f) then count + |vs| else count;
      }
    case Oneof =>
      // The union is given to this member; a submessage starts from its defaults.
      BlankShapeOf(d, i);
      var v;
      ok, v := DecodeItem(stream, f, BlankValue(f));
      slot' := Union(f.tag, v);
  }

  lemma {:induction false} BlankShapeOf(d: Desc, i: nat)
    requires StaticDesc(d, false) && i < |d|
    ensures ItemShape(d[i], BlankValue(d[i]), false)
  {
    StaticEntry(d, i, false);
    BlankShape(d[i], false);
  }

  lemma {:induction false} OwnShapes(d: Desc, i: nat, slot: Slot)
    requires i < |d| && OwnShape(d, i, slot, false)
    ensures var f := d[i];
            match f.htype
            case Required => slot.Single? && ItemShape(f, slot.v, false)
            case Optional => (if HasFlag(f) then slot.Opt? else slot.Single?) && ItemShape(f, slot.v, false)
            case Repeated => slot.Rep? && (FixedCount(f) ==> |slot.items| == f.arraySize)
            case Oneof => slot.Union?
  {
    hide ItemShape;
    LeaderLeads(d, i);
  }

  /** The two words of fields_seen hold the given set of required-field indices. */
  ghost predicate SeenWords(words: seq<nat>, seen: set<nat>) {
    |words| == 2 && words[0] == Word(seen, 0, 32) && words[1] == Word(seen, 32, 32)
  }

  /** Set the bit of a required field. */
  method MarkSeen(words: seq<nat>, index: nat, ghost seen: set<nat>) returns (words': seq<nat>)
    requires SeenWords(words, seen) && index < PB_MAX_REQUIRED_FIELDS
    ensures SeenWords(words', seen + {index})
  {
    hide Word, BitOr, Pow2;
    var tmp := Pow2(index % 32);
    words' := words[index / 32 := BitOr(words[index / 32], tmp)];
    if index < 32 {
      OrBit(seen, 0, 32, index);
      WordFrame(seen, 32, 32, index);
    } else {
      OrBit(seen, 32, 32, index - 32);
      WordFrame(seen, 0, 32, index);
    }
  }

  /**
   * pb_release_union_field: the old member of the union must be one the descriptor knows (there is
   * nothing to free in a static one); the iterator is brought back to the new member.
   */
  method ReleaseUnionField(iter: FieldIter, oldTag: nat) returns (ok: bool)
    requires iter.Valid() && DistinctTags(iter.start) && iter.pos < |iter.start| && iter.pSize.InStruct?
    modifies iter
    ensures iter.Valid() && iter.pSize.InStruct?
    ensures ok <==> oldTag == 0 || exists k :: 0 <= k < |iter.start| && iter.start[k].tag == oldTag
    ensures ok ==> iter.pos == old(iter.pos)
  {
    var newTag := iter.At(iter.pos).tag;
    if oldTag == 0 {
      return true; // nothing to give up
    }
    if oldTag == newTag {
      return true; // the same member again
    }
    hide FieldIter.Valid;
    ok := iter.Find(oldTag);
    if !ok {
      return false; // invalid union tag
    }
    ok := iter.Find(newTag);
  }

  /**
   * A repeated fixed-count field has no count in the structure, which shows as pSize == pData: its
   * elements are counted outside, and it may only start when the previous one is complete.
   */
  method EnterFixed(iter: FieldIter, fixedField: Option<nat>, fixedCount: nat)
    returns (ok: bool, fixedField': Option<nat>, fixedCount': nat)
    requires iter.Valid() && iter.pos < |iter.start|
    requires iter.pSize.FixedCounter? ==> fixedField == Some(iter.pos)
    requires fixedField.Some? ==> fixedField.value < |iter.start|
    modifies iter`pSize
    ensures iter.Valid()
    ensures FixedCount(iter.start[iter.pos]) ==>
              && (ok <==>
                    || fixedField == Some(iter.pos) || fixedField.None?
                    || fixedCount == iter.start[fixedField.value].arraySize)
              && (ok ==> fixedField' == Some(iter.pos))
              && (ok ==> fixedCount' == if fixedField == Some(iter.pos) then fixedCount else 0)
    ensures !FixedCount(iter.start[iter.pos]) ==>
            ok && fixedField' == fixedField && fixedCount' == fixedCount && iter.pSize.InStruct?
  {
    var i := iter.pos;
    fixedField', fixedCount' := fixedField, fixedCount;
    if iter.At(i).htype.Repeated? && iter.pSize == InStruct(iter.pData) {
      if fixedField != Some(i) {
        if fixedField.Some? && fixedCount != iter.At(fixedField.value).arraySize {
          return false, fixedField', fixedCount'; // the array before it is incomplete
        }
        fixedField', fixedCount' := Some(i), 0;
      }
      iter.pSize := FixedCounter;
    }
    return true, fixedField', fixedCount';
  }

  /** What pb_decode_noinit does between finding a field and decoding its data. */
  method PrepareField(iter: FieldIter, m: Msg, fixedField: Option<nat>, fixedCount: nat, words: seq<nat>,
      ghost seen: set<nat>)
    returns (ok: bool, fixedField': Option<nat>, fixedCount': nat, words': seq<nat>, ghost seen': set<nat>)
    requires iter.Valid() && DistinctTags(iter.start) && iter.pos < |iter.start| && |m| == |iter.start|
    requires iter.start[iter.pos].htype.Oneof? ==> m[Leader(iter.start, iter.pos)].Union?
    requires SeenWords(words, seen)
    requires iter.pSize.FixedCounter? ==> fixedField == Some(iter.pos)
    requires fixedField.Some? ==> fixedField.value < |iter.start|
    modifies iter
    ensures iter.Valid()
    ensures ok ==> iter.pos == old(iter.pos) && SeenWords(words', seen')
    ensures ok ==> iter.pSize.FixedCounter? ==> fixedField' == Some(iter.pos)
    ensures var r := Prepare(iter.start, old(iter.pos), DState(m, fixedField, fixedCount, seen));
            && (ok <==> r.Some?)
            && (ok ==> r.value == DState(m, fixedField', fixedCount', seen'))
  {
    var f := iter.At(iter.pos);
    assert iter.requiredFieldIndex == RequiredBefore(iter.start, iter.pos);
    hide SeenWords, FieldIter.Valid, FindTag, RequiredBefore, DistinctTags;
    words', seen' := words, seen;
    ok, fixedField', fixedCount' := EnterFixed(iter, fixedField, fixedCount);
    if !ok {
      return;
    }
    if f.htype.Required? && iter.requiredFieldIndex < PB_MAX_REQUIRED_FIELDS {
      words' := MarkSeen(words', iter.requiredFieldIndex, seen');
      seen' := seen' + {iter.requiredFieldIndex};
    }
    if f.htype.Oneof? {
      ok := ReleaseUnionField(iter, m[Leader(iter.start, iter.pos)].which);
    }
  }

  /** The part of the main loop that handles a record of the field the iterator has found. */
  method DecodeField(stream: IStream, iter: FieldIter, dest: Destination, wt: nat,
                     fixedField: Option<nat>, fixedCount: nat, words: seq<nat>, ghost seen: set<nat>)
    returns (ok: bool, fixedField': Option<nat>, fixedCount': nat, words': seq<nat>, ghost seen': set<nat>)
    requires stream.Valid() && iter.Valid() && StaticDesc(iter.start, false) && iter.pos < |iter.start|
    requires |dest.m| == |iter.start| && MsgShape(iter.start, dest.m, false) && SeenWords(words, seen)
    requires iter.pSize.FixedCounter? ==> fixedField == Some(iter.pos)
    requires fixedField.Some? ==> fixedField.value < |iter.start|
    modifies stream, iter, dest
    ensures stream.Valid() && stream.Within() && iter.Valid()
    ensures ok ==> iter.pos == old(iter.pos) && SeenWords(words', seen')
    ensures ok ==> iter.pSize.FixedCounter? ==> fixedField' == Some(iter.pos)
    ensures var r := DecField(iter.start, old(iter.pos), wt, old(stream.Rest()),
            DState(old(dest.m), fixedField, fixedCount, seen));
            && (ok <==> r.Next?)
            && (ok ==> r.st == DState(dest.m, fixedField', fixedCount', seen') && stream.Took(r.used))
    decreases stream.bytesLeft, 4
  {
    var i := iter.pos;
    SlotOwned(iter.start, dest.m, i);
    assert DistinctTags(iter.start);
    hide DecSlot, StaticDesc, MsgShape, SeenWords, OwnShape, FieldIter.Valid, Prepare, DistinctTags;
    ok, fixedField', fixedCount', words', seen' := PrepareField(iter, dest.m, fixedField, fixedCount, words, seen);
    if !ok {
      return;
    }
    var slot';
    ok, slot', fixedCount' := DecodeStaticField(stream, iter.start, i, wt, dest.m[Leader(iter.start, i)], fixedCount');
    if ok {
      dest.m := dest.m[Leader(iter.start, i) := slot'];
    }
  }

  lemma {:induction false} SlotOwned(d: Desc, m: Msg, i: nat)
    requires i < |d| && |m| == |d| && MsgShape(d, m, false)
    ensures OwnShape(d, i, m[Leader(d, i)], false)
    ensures d[i].htype.Oneof? ==> m[Leader(d, i)].Union?
  {
    OwnShapes(d, i, m[Leader(d, i)]);
  }

  // ---------------------------------------------------------------- main loop

  lemma {:induction false} FoundIsTag(d: Desc, tag: nat, found: bool, pos: nat)
    requires DistinctTags(d) && d != []
    requires found <==> exists k :: 0 <= k < |d| && d[k].tag == tag
    requires found ==> pos < |d| && d[pos].tag == tag
    ensures FindTag(d, tag) == if found then Some(pos) else None
  {
    if found {
      FindFromDistinct(d, pos, 0);
    }
  }

  /** What the main loop does with a record once its key has been read. */
  method DecodeRecord(stream: IStream, iter: FieldIter, dest: Destination, wt: nat, tag: nat,
                      fixedField: Option<nat>, fixedCount: nat, words: seq<nat>, ghost seen: set<nat>)
    returns (ok: bool, fixedField': Option<nat>, fixedCount': nat, words': seq<nat>, ghost seen': set<nat>)
    requires stream.Valid() && iter.Valid() && StaticDesc(iter.start, false) && wt < 8
    requires |dest.m| == |iter.start| && MsgShape(iter.start, dest.m, false) && SeenWords(words, seen)
    requires iter.pSize.FixedCounter? ==> fixedField == Some(iter.pos)
    requires fixedField.Some? ==> fixedField.value < |iter.start|
    modifies stream, iter, dest
    ensures stream.Valid() && stream.Within() && iter.Valid()
    ensures ok ==> SeenWords(words', seen')
    ensures ok ==> iter.pSize.FixedCounter? ==> fixedField' == Some(iter.pos)
    ensures var r := DecKeyed(iter.start, tag * 8 + wt, old(stream.Rest()),
            DState(old(dest.m), fixedField, fixedCount, seen));
            && (ok <==> r.Next?)
            && (ok ==> r.st == DState(dest.m, fixedField', fixedCount', seen'))
            && (ok ==> stream.Took(r.used))
    decreases stream.bytesLeft, 5
  {
    ghost var d := iter.start;
    assert DistinctTags(d) && (tag * 8 + wt) / 8 == tag && (tag * 8 + wt) % 8 == wt;
    hide StaticDesc, MsgShape, SeenWords, DecField, Skip, FindTag, DecVarint32, DistinctTags;
    fixedField', fixedCount', words', seen' := fixedField, fixedCount, words, seen;
    IterPosition(iter);
    var found := iter.Find(tag);
    IterPosition(iter);
    hide FieldIter.Valid;
    if d != [] {
      FoundIsTag(d, tag, found, iter.pos);
    }
    if !found {
      // Not a tag of this message type.
      ok := stream.SkipField(wt);
    } else if iter.pos >= |iter.start| {
      // The terminator of an empty message type reads like a required bool; there is no field to store it in.
      var value, eof;
      ok, value, eof := stream.DecodeVarint32Eof();
    } else {
      ok, fixedField', fixedCount', words', seen' :=
          DecodeField(stream, iter, dest, wt, fixedField, fixedCount, words, seen);
    }
  }

  lemma {:induction false} IterPosition(iter: FieldIter)
    requires iter.Valid()
    ensures if iter.start == [] then iter.pos == 0 && iter.pSize.InStruct? else iter.pos < |iter.start|
    ensures iter.Settled() ==> iter.pSize.InStruct?
  {
  }

  /** Where the loop stands: what is left to read decides what the whole input comes to. */
  ghost predicate OnTrack(d: Desc, s: seq<Byte>, m: Msg, rest: seq<Byte>, st: DState, used: nat) {
    && |m| == |d| && |st.m| == |d| && MsgShape(d, st.m, false)
    && Run(d, s, Start(m)) == Shift(Run(d, rest, st), used)
    && (st.fixed.Some? ==> st.fixed.value < |d|)
  }

  /** One accepted record further on. */
  lemma {:induction false} TrackNext(d: Desc, s: seq<Byte>, m: Msg, rest: seq<Byte>, st: DState, used: nat, key: nat,
      k: nat, tail: seq<Byte>)
    requires StaticDesc(d, false) && OnTrack(d, s, m, rest, st, used)
    requires rest != [] && DecVarint32(rest) == Read(key, k) && key != 0 && tail == rest[k..]
    ensures var r := DecKeyed(d, key, tail, st);
            && (r.Bad? ==> Run(d, s, Start(m)).Refused?)
            && (r.Next? ==> OnTrack(d, s, m, tail[r.used..], r.st, used + k + r.used))
  {
    hide DecKeyed, DecVarint32, DecStep, StaticDesc, MsgShape, OnTrack, Run;
    TrackShape(d, s, m, rest, st, used);
    var r := DecKeyed(d, key, tail, st);
    StepKeyed(d, rest, st, key, k);
    if r.Next? {
      assert tail[r.used..] == rest[k + r.used..];
      KeyedFixed(d, key, tail, st);
    }
    TrackStep(d, s, m, rest, st, used);
  }

  lemma {:induction false} TrackStep(d: Desc, s: seq<Byte>, m: Msg, rest: seq<Byte>, st: DState, used: nat)
    requires StaticDesc(d, false) && OnTrack(d, s, m, rest, st, used) && rest != []
    requires var r := DecStep(d, rest, st); r.Next? && r.st.fixed.Some? ==> r.st.fixed.value < |d|
    ensures var r := DecStep(d, rest, st);
            && (r.Bad? ==> Run(d, s, Start(m)).Refused?)
            && (r.Next? ==> OnTrack(d, s, m, rest[r.used..], r.st, used + r.used))
  {
    hide DecStep, StaticDesc, MsgShape, Run;
    RunBad(d, rest, st);
    var r := DecStep(d, rest, st);
    if r.Next? {
      StepKept(d, rest, st, false);
      RunStep(d, rest, r.used, st, r.st);
    }
  }

  lemma {:induction false} RunBad(d: Desc, s: seq<Byte>, st: DState)
    requires |st.m| == |d| && s != []
    ensures DecStep(d, s, st).Bad? ==> Run(d, s, st).Refused?
  {
    hide DecStep;
  }

  lemma {:induction false} StepKeyed(d: Desc, s: seq<Byte>, st: DState, key: nat, k: nat)
    requires |st.m| == |d| && DecVarint32(s) == Read(key, k) && key != 0
    ensures DecStep(d, s, st) ==
            match DecKeyed(d, key, s[k..], st)
            case Bad => Bad
            case Next(st', n) => Next(st', k + n)
  {
    hide DecKeyed, DecVarint32;
  }

  lemma {:induction false} KeyedFixed(d: Desc, key: nat, s: seq<Byte>, st: DState)
    requires |st.m| == |d| && DecKeyed(d, key, s, st).Next?
    requires st.fixed.Some? ==> st.fixed.value < |d|
    ensures DecKeyed(d, key, s, st).st.fixed.Some? ==> DecKeyed(d, key, s, st).st.fixed.value < |d|
  {
    hide DecSlot, DecVarint32;
  }

  /** The loop has come to the end of its input or to a zero key. */
  lemma {:induction false} TrackEnd(d: Desc, s: seq<Byte>, m: Msg, rest: seq<Byte>, st: DState, used: nat)
    requires OnTrack(d, s, m, rest, st, used)
    ensures rest == [] ==> Run(d, s, Start(m)) == Done(st, used)
    ensures rest != [] && DecVarint32(rest).Fail? ==> Run(d, s, Start(m)).Refused?
    ensures rest != [] && DecVarint32(rest).Read? && DecVarint32(rest).val == 0 ==>
              Run(d, s, Start(m)) == Done(st, used + DecVarint32(rest).used)
  {
    hide DecVarint32, MsgShape, DecKeyed;
    if rest != [] {
      if DecVarint32(rest).Fail? {
        assert DecStep(d, rest, st).Bad?;
        assert Run(d, rest, st).Refused?;
      } else if DecVarint32(rest).val == 0 {
        assert DecStep(d, rest, st) == Stop(DecVarint32(rest).used);
        assert Run(d, rest, st) == Done(st, DecVarint32(rest).used);
      }
    }
  }

  /** The rest of a turn of the main loop, after the key. */
  method DecodeAfterKey(stream: IStream, iter: FieldIter, dest: Destination, wt: nat, tag: nat,
                        fixedField: Option<nat>, fixedCount: nat, words: seq<nat>, ghost seen: set<nat>,
                        ghost s: seq<Byte>, ghost m: Msg, ghost used: nat, ghost rest: seq<Byte>, ghost k: nat)
    returns (ok: bool, fixedField': Option<nat>, fixedCount': nat, words': seq<nat>, ghost seen': set<nat>,
        ghost n: nat)
    requires stream.Valid() && iter.Valid() && StaticDesc(iter.start, false) && wt < 8
    requires SeenWords(words, seen) && |dest.m| == |iter.start|
    requires iter.pSize.FixedCounter? ==> fixedField == Some(iter.pos)
    requires OnTrack(iter.start, s, m, rest, DState(dest.m, fixedField, fixedCount, seen), used)
    requires rest != [] && DecVarint32(rest) == Read(tag * 8 + wt, k) && tag * 8 + wt != 0 && stream.Rest() == rest[k..]
    modifies stream, iter, dest
    ensures stream.Valid() && stream.Within() && iter.Valid()
    ensures !ok ==> Run(iter.start, s, Start(m)).Refused?
    ensures ok ==> |dest.m| == |iter.start| && SeenWords(words', seen') && stream.Took(n)
    ensures ok ==> iter.pSize.FixedCounter? ==> fixedField' == Some(iter.pos)
    ensures ok ==> OnTrack(iter.start, s, m, stream.Rest(), DState(dest.m, fixedField', fixedCount', seen'),
            used + k + n)
    decreases stream.bytesLeft, 6
  {
    hide *;
    ghost var d, st := iter.start, DState(dest.m, fixedField, fixedCount, seen);
    TrackShape(d, s, m, rest, st, used);
    ghost var tail := stream.Rest();
    TrackNext(d, s, m, rest, st, used, tag * 8 + wt, k, tail);
    ghost var r := DecKeyed(d, tag * 8 + wt, tail, st);
    ok, fixedField', fixedCount', words', seen' :=
        DecodeRecord(stream, iter, dest, wt, tag, fixedField, fixedCount, words, seen);
    n := 0;
    if ok {
      n := r.used;
      stream.RestAfter(n);
    }
  }

  /** One turn of the main loop of pb_decode_noinit; stop is the break at a zero key. */
  method DecodeNext(stream: IStream, iter: FieldIter, dest: Destination,
                    fixedField: Option<nat>, fixedCount: nat, words: seq<nat>, ghost seen: set<nat>,
                    ghost s: seq<Byte>, ghost m: Msg, ghost used: nat)
    returns (ok: bool, stop: bool, fixedField': Option<nat>, fixedCount': nat, words': seq<nat>, ghost seen': set<nat>,
        ghost n: nat)
    requires stream.Valid() && stream.bytesLeft > 0 && iter.Valid() && StaticDesc(iter.start, false)
    requires SeenWords(words, seen) && |dest.m| == |iter.start|
    requires iter.pSize.FixedCounter? ==> fixedField == Some(iter.pos)
    requires OnTrack(iter.start, s, m, stream.Rest(), DState(dest.m, fixedField, fixedCount, seen), used)
    modifies stream, iter, dest
    ensures stream.Valid() && stream.Within() && iter.Valid()
    ensures !ok ==> Run(iter.start, s, Start(m)).Refused?
    ensures ok ==> |dest.m| == |iter.start| && SeenWords(words', seen') && n > 0 && stream.Took(n)
    ensures ok && stop ==>
              Run(iter.start, s, Start(m)) == Done(DState(dest.m, fixedField', fixedCount', seen'), used + n)
    ensures ok && stop ==> fixedField'.Some? ==> fixedField'.value < |iter.start|
    ensures ok && !stop ==> iter.pSize.FixedCounter? ==> fixedField' == Some(iter.pos)
    ensures ok && !stop ==> OnTrack(iter.start, s, m, stream.Rest(), DState(dest.m, fixedField', fixedCount', seen'),
            used + n)
    decreases stream.bytesLeft, 7
  {
    hide OnTrack, SeenWords, StaticDesc, MsgShape, FieldIter.Valid, DecVarint32, Run;
    ghost var rest := stream.Rest();
    fixedField', fixedCount', words', seen', n, stop := fixedField, fixedCount, words, seen, 0, false;
    TrackEnd(iter.start, s, m, rest, DState(dest.m, fixedField, fixedCount, seen), used);
    TrackShape(iter.start, s, m, rest, DState(dest.m, fixedField, fixedCount, seen), used);
    var wt, tag, eof;
    ok, wt, tag, eof := stream.DecodeTag();
    if !ok {
      if eof {
        ok, stop, n := true, true, DecVarint32(rest).used;
      }
      return;
    }
    ghost var k := DecVarint32(rest).used;
    stream.RestAfter(k);
    ok, fixedField', fixedCount', words', seen', n :=
      DecodeAfterKey(stream, iter, dest, wt, tag, fixedField, fixedCount, words, seen, s, m, used, rest, k);
    n := k + n;
  }

  /** The main loop of pb_decode_noinit. */
  method DecodeLoop(stream: IStream, iter: FieldIter, dest: Destination)
    returns (ok: bool, fixedField: Option<nat>, fixedCount: nat, words: seq<nat>, ghost seen: set<nat>)
    requires stream.Valid() && iter.Valid() && iter.pSize.InStruct? && StaticDesc(iter.start, false)
    requires |dest.m| == |iter.start| && MsgShape(iter.start, dest.m, false)
    modifies stream, iter, dest
    ensures stream.Valid() && stream.Within() && iter.Valid()
    ensures var r := Run(iter.start, old(stream.Rest()), Start(old(dest.m)));
            && (ok <==> r.Done?)
            && (ok ==> r.st == DState(dest.m, fixedField, fixedCount, seen) && stream.Took(r.used))
    ensures ok ==> SeenWords(words, seen) && (fixedField.Some? ==> fixedField.value < |iter.start|)
    decreases stream.bytesLeft, 8
  {
    hide OnTrack, SeenWords, StaticDesc, MsgShape, FieldIter.Valid, Run;
    ghost var d, s, m := iter.start, stream.Rest(), dest.m;
    fixedField, fixedCount, words, seen := None, 0, [0, 0], {};
    ghost var used: nat := 0;
    NothingSeen();
    TrackStart(d, s, m);
    while stream.bytesLeft > 0
      invariant stream.Valid() && stream.Within() && stream.Took(used) && iter.Valid()
      invariant |dest.m| == |d| && SeenWords(words, seen)
      invariant iter.pSize.FixedCounter? ==> fixedField == Some(iter.pos)
      invariant OnTrack(d, s, m, stream.Rest(), DState(dest.m, fixedField, fixedCount, seen), used)
      decreases stream.bytesLeft
    {
      var stop;
      ghost var n;
      ok, stop, fixedField, fixedCount, words, seen, n :=
          DecodeNext(stream, iter, dest, fixedField, fixedCount, words, seen, s, m, used);
      if !ok || stop {
        return;
      }
      used := used + n;
    }
    TrackEnd(d, s, m, stream.Rest(), DState(dest.m, fixedField, fixedCount, seen), used);
    TrackShape(d, s, m, stream.Rest(), DState(dest.m, fixedField, fixedCount, seen), used);
    ok := true;
  }

  lemma {:induction false} NothingSeen()
    ensures SeenWords([0, 0], {})
  {
    WordEmpty(0, 32);
    WordEmpty(32, 32);
  }

  lemma {:induction false} TrackStart(d: Desc, s: seq<Byte>, m: Msg)
    requires |m| == |d| && MsgShape(d, m, false)
    ensures OnTrack(d, s, m, s, Start(m), 0)
  {
    hide Run, MsgShape;
  }

  lemma {:induction false} TrackShape(d: Desc, s: seq<Byte>, m: Msg, rest: seq<Byte>, st: DState, used: nat)
    requires OnTrack(d, s, m, rest, st, used)
    ensures |st.m| == |d| && MsgShape(d, st.m, false) && (st.fixed.Some? ==> st.fixed.value < |d|)
  {
  }

  // ------------------------------------------------------- required fields check

  /** The number of required fields to check, found by moving the iterator to the end of the descriptor. */
  method CountRequired(iter: FieldIter) returns (count: nat)
    requires iter.Valid()
    modifies iter
    ensures count == Tracked(iter.start)
  {
    ghost var d := iter.start;
    count := 0;
    var lastType := Required;
    var more := true;
    while more
      invariant iter.Valid()
      invariant !more ==> iter.pos == 0 && lastType == (if d == [] then LAST_FIELD else d[|d| - 1]).htype
      invariant !more ==> count == if d == [] then 0 else RequiredBefore(d, |d| - 1)
      decreases more, |d| - iter.pos
    {
      count := iter.requiredFieldIndex;
      lastType := iter.At(iter.pos).htype;
      more := iter.Next();
    }
    // The index does not include the entry it is at.
    if lastType.Required? && iter.At(iter.pos).tag != 0 {
      count := count + 1;
    }
    if count > PB_MAX_REQUIRED_FIELDS {
      count := PB_MAX_REQUIRED_FIELDS;
    }
  }

  lemma {:induction false} LowPart(p: nat, q: nat)
    requires p > 0 && p * q == TWO_32
    ensures (TWO_32 - 1) / q == p - 1
  {
    assert q > 0 && TWO_32 - 1 == (p - 1) * q + (q - 1);
    QuotientIs(p - 1, q, q - 1);
  }

  /** allbits >> (32 - r) is the word with the low r bits set. */
  lemma {:induction false} LowBits(r: nat)
    requires r <= 32
    ensures (TWO_32 - 1) / Pow2(32 - r) == Pow2(r) - 1
  {
    hide Pow2;
    Pow2Values();
    Pow2Add(r, 32 - r);
    LowPart(Pow2(r), Pow2(32 - r));
  }

  /** One word of fields_seen has its low r bits set, and no other, exactly when those fields were seen. */
  lemma {:induction false} WordCheck(d: Desc, words: seq<nat>, seen: set<nat>, i: nat, r: nat)
    requires SeenWords(words, seen) && SeenTracked(d, seen) && i < 2 && r <= 32
    requires 32 * i + r == Tracked(d) || (r == 32 && 32 * i + r <= Tracked(d))
    ensures words[i] == (TWO_32 - 1) / Pow2(32 - r) <==> forall k :: 32 * i <= k < 32 * i + r ==> k in seen
  {
    hide Pow2, Tracked;
    LowBits(r);
    assert words[i] == Word(seen, 32 * i, 32);
    WordAllOnes(seen, 32 * i, 32, r);
  }

  /** The two parts of the check: whole words, then the remaining bits of the word after them. */
  method CheckRequired(count: nat, words: seq<nat>, ghost d: Desc, ghost seen: set<nat>) returns (ok: bool)
    requires SeenWords(words, seen) && SeenTracked(d, seen) && count == Tracked(d)
    ensures ok <==> forall k :: 0 <= k < Tracked(d) ==> k in seen
  {
    hide *;
    SeenSize(d, words, seen);
    var allbits := TWO_32 - 1;
    if count > 0 {
      for i := 0 to count / 32
        invariant forall k :: 0 <= k < 32 * i ==> k in seen
      {
        WordCheck(d, words, seen, i, 32);
        assert Pow2(0) == 1 by { NoShift(); }
        if words[i] != allbits {
          return false; // missing required field
        }
      }
      if count % 32 != 0 {
        WordCheck(d, words, seen, count / 32, count % 32);
        if words[count / 32] != allbits / Pow2(32 - count % 32) {
          return false; // missing required field
        }
      }
    }
    return true;
  }

  lemma {:induction false} SeenSize(d: Desc, words: seq<nat>, seen: set<nat>)
    requires SeenWords(words, seen)
    ensures |words| == 2 && Tracked(d) <= 64
  {
  }

  lemma {:induction false} NoShift()
    ensures Pow2(0) == 1
  {
  }

  // -------------------------------------------------------------- whole messages

  /** pb_decode_noinit. */
  method DecodeMsg(stream: IStream, d: Desc, dest: Destination) returns (ok: bool)
    requires stream.Valid() && StaticDesc(d, false) && MsgShape(d, dest.m, false) && |dest.m| == |d|
    modifies stream, dest
    ensures stream.Valid() && stream.Within()
    ensures ok <==> DecodeNoinit(d, old(stream.Rest()), old(dest.m)).Read?
    ensures ok ==> var r := DecodeNoinit(d, old(stream.Rest()), old(dest.m)); dest.m == r.val && stream.Took(r.used)
    decreases stream.bytesLeft, 9
  {
    StaticTags(d, false);
    ghost var s, m := stream.Rest(), dest.m;
    var iter := new FieldIter(d, 0);
    IterPosition(iter);
    Verdict(d, s, m);
    hide *;
    var fixedField, fixedCount, words;
    ghost var seen;
    ok, fixedField, fixedCount, words, seen := DecodeLoop(stream, iter, dest);
    if !ok {
      return;
    }
    // An array that was started has to be complete.
    if fixedField.Some? && fixedCount != iter.At(fixedField.value).arraySize {
      return false;
    }
    var count := CountRequired(iter);
    ok := CheckRequired(count, words, d, seen);
  }

  /** What decides a decode once the loop is over. */
  lemma {:induction false} Verdict(d: Desc, s: seq<Byte>, m: Msg)
    requires |m| == |d|
    ensures Run(d, s, Start(m)).Refused? ==> DecodeNoinit(d, s, m).Fail?
    ensures Run(d, s, Start(m)).Done? ==>
              var r := Run(d, s, Start(m));
              var complete := r.st.fixed.Some? && r.st.fixed.value < |d| ==>
                  r.st.count == d[r.st.fixed.value].arraySize;
              && SeenTracked(d, r.st.seen)
              && DecodeNoinit(d, s, m) ==
                 if complete && (forall k :: 0 <= k < Tracked(d) ==> k in r.st.seen) then Read(r.st.m, r.used) else Fail
  {
    hide Run, SeenTracked;
    if Run(d, s, Start(m)).Done? {
      StartTracked(d, s, m);
    }
  }

  lemma {:induction false} StartTracked(d: Desc, s: seq<Byte>, m: Msg)
    requires |m| == |d| && Run(d, s, Start(m)).Done?
    ensures SeenTracked(d, Run(d, s, Start(m)).st.seen)
  {
    RunSeenTracked(d, s, Start(m));
  }

  /** pb_decode: on a structure of any contents. */
  method DecodeInto(stream: IStream, d: Desc, dest: Destination) returns (ok: bool)
    requires stream.Valid() && StaticDesc(d, false) && |dest.m| == |d|
    modifies stream, dest
    ensures stream.Valid() && stream.Within()
    ensures ok <==> Decode(d, old(stream.Rest())).Read?
    ensures ok ==> var r := Decode(d, old(stream.Rest())); dest.m == r.val && stream.Took(r.used)
  {
    hide Defaults, MsgShape, StaticDesc, DecodeNoinit;
    SetToDefaults(d, dest);
    DefaultsShape(d, false);
    ok := DecodeMsg(stream, d, dest);
  }

  /** pb_decode_delimited: a length prefix, then the message; the stream moves exactly past both. */
  method DecodeDelimited(stream: IStream, d: Desc, dest: Destination) returns (ok: bool)
    requires stream.Valid() && StaticDesc(d, false) && |dest.m| == |d|
    modifies stream, dest
    ensures stream.Valid() && stream.Within()
    ensures ok <==> Delimited(old(stream.Rest())).Read? && Decode(d, Delimited(old(stream.Rest())).val).Read?
    ensures ok ==> dest.m == Decode(d, Delimited(old(stream.Rest())).val).val
    ensures ok ==> stream.Took(Delimited(old(stream.Rest())).used)
  {
    hide Delimited, Decode, StaticDesc;
    var substream;
    ok, substream := stream.MakeSubstream();
    if !ok {
      return;
    }
    var status := DecodeInto(substream, d, dest);
    var closed := stream.CloseSubstream(substream);
    return closed && status;
  }
}
