/**
 * The wire form of a message as the standard describes it ("Encoding", message structure): a list
 * of records, written without the encoder, and that the encoder emits exactly these.
 */
module WireForm {
  import opened Basics
  import opened Varint
  import opened Descriptors
  import opened Scalars
  import opened Integers
  import opened Encoding
  import opened Messages

  /** A record: a field number, a wire type, and what comes behind the key. */
  datatype Record = Record(tag: nat, wt: nat, payload: seq<Byte>)

  /** Records on the wire, each behind its key. */
  function Flatten(rs: seq<Record>): seq<Byte> {
    if rs == [] then [] else VarintBytes(8 * rs[0].tag + rs[0].wt) + rs[0].payload + Flatten(rs[1..])
  }

  lemma {:induction false} FlattenAppend(a: seq<Record>, b: seq<Record>)
    ensures Flatten(a + b) == Flatten(a) + Flatten(b)
  {
    hide VarintBytes;
    if a == [] {
      assert a + b == b;
    } else {
      assert (a + b)[1..] == a[1..] + b;
      FlattenAppend(a[1..], b);
    }
  }

  lemma {:induction false} FlattenOne(r: Record)
    ensures Flatten([r]) == VarintBytes(8 * r.tag + r.wt) + r.payload
  {
    hide VarintBytes;
    assert [r][1..] == [];
  }

  // ------------------------------------------------------------------- payloads

  /** A length and that many bytes. */
  function Prefixed(s: seq<Byte>): seq<Byte> {
    VarintBytes(|s|) + s
  }

  /** The k low bytes of a number, least significant first. */
  function Bytes(n: int, k: nat): seq<Byte> {
    seq(k, i requires 0 <= i < k => n / Pow2(8 * i) % 256)
  }

  function Number(v: Value): int {
    if v.VInt? then v.n else 0
  }

  function Contents(v: Value): seq<Byte> {
    if v.VBytes? then v.b else []
  }

  /** What stands for a value that is not a submessage. Plain negative numbers have 64 bits. */
  function ScalarPayload(f: Field, v: Value): seq<Byte> {
    match f.ltype
    case LBool => if Number(v) == 0 then [0] else [1]
    case LVarint | LUvarint => VarintBytes(Number(v) % 0x1_0000_0000_0000_0000)
    case LSvarint => VarintBytes(if Number(v) < 0 then -2 * Number(v) - 1 else 2 * Number(v))
    case LFixed32 => Bytes(Number(v), 4)
    case LFixed64 => Bytes(Number(v), 8)
    case LBytes | LFixedLengthBytes => Prefixed(Contents(v))
    case LString => Prefixed(CString(Contents(v)))
    case LSubmessage => []
  }

  /** A C string ends in front of the first zero byte. */
  lemma {:induction false} CStringEnds(b: seq<Byte>, k: nat)
    requires k <= |b| && 0 !in b[..k] && (k < |b| ==> b[k] == 0)
    ensures CString(b) == b[..k]
    decreases k
  {
    if k > 0 {
      assert b[..k][0] == b[0] && b[..k][1..] == b[1..][..k - 1];
      CStringEnds(b[1..], k - 1);
    }
  }

  lemma {:induction false} ScalarSent(f: Field, v: Value)
    requires ScalarOk(f, v)
    ensures EncScalar(f, v) == Some(ScalarPayload(f, v))
  {
    hide VarintBytes, LittleEndian, Bytes, CString, ZigZag;
    match f.ltype
    case LBool => OneByte();
    case LSvarint => ZigZagValue(v.n);
    case LFixed32 => FixedSent(v.n, 4);
    case LFixed64 => FixedSent(v.n, 8);
    case _ =>
  }

  lemma {:induction false} OneByte()
    ensures VarintBytes(0) == [0] && VarintBytes(1) == [1]
  {
  }

  lemma {:induction false} FixedSent(n: nat, k: nat)
    ensures LittleEndian(n, k) == Bytes(n, k)
  {
    hide LittleEndian, Pow2;
    forall i | 0 <= i < k
      ensures LittleEndian(n, k)[i] == Bytes(n, k)[i]
    {
      LittleEndianByte(n, k, i);
    }
  }

  // -------------------------------------------------------------- the reference

  /** The wire types of the standard. */
  function TypeNumber(f: Field): nat {
    match f.ltype
    case LBool | LVarint | LUvarint | LSvarint => 0
    case LFixed64 => 1
    case LBytes | LString | LSubmessage | LFixedLengthBytes => 2
    case LFixed32 => 5
  }

  /** The elements of a packed array, one after another. */
  function Elements(f: Field, items: seq<Value>): seq<Byte> {
    if items == [] then [] else ScalarPayload(f, items[0]) + Elements(f, items[1..])
  }

  function PayloadOf(f: Field, v: Value): seq<Byte>
    decreases f, 0
  {
    if !f.ltype.LSubmessage? then ScalarPayload(f, v)
    else Prefixed(if f.ptr.Sub? && v.VMsg? then Flatten(RecordsFrom(f.ptr.fields, v.m, 0)) else [])
  }

  function RecordOf(f: Field, v: Value): Record
    decreases f, 1
  {
    Record(f.tag, TypeNumber(f), PayloadOf(f, v))
  }

  /** A proto3 singular field has nothing in it: it is zero or empty, or nothing in it would be sent. */
  predicate Nothing(f: Field, v: Value)
    decreases f, 0
  {
    match v
    case VInt(n) => n == 0
    case VBytes(b) => b == [] || (f.ltype.LString? && b[0] == 0)
    case VMsg(m) => f.ptr.Sub? && RecordsFrom(f.ptr.fields, m, 0) == []
    case VStale => false
  }

  /** The records of one field, given the slot it is stored in. */
  function FieldRecords(f: Field, slot: Slot): seq<Record>
    decreases f, 2
  {
    match slot
    case Single(v) => if f.htype.Optional? && Nothing(f, v) then [] else [RecordOf(f, v)]
    case Opt(has, v) => if has then [RecordOf(f, v)] else []
    case Union(which, v) => if which == f.tag then [RecordOf(f, v)] else []
    case Rep(items) =>
      if items == [] then []
      else if TypeNumber(f) == 2 then seq(|items|, j requires 0 <= j < |items| => RecordOf(f, items[j]))
      else [Record(f.tag, 2, Prefixed(Elements(f, items)))]
    case Shadow => []
  }

  /** The records of a message from entry i on, in the order of the descriptor. */
  function RecordsFrom(d: Desc, m: Msg, i: nat): seq<Record>
    decreases d, 3, |d| - i
  {
    if i >= |d| || |m| != |d| then [] else FieldRecords(d[i], m[Leader(d, i)]) + RecordsFrom(d, m, i + 1)
  }

  /** The records of a message. */
  function RecordsOf(d: Desc, m: Msg): seq<Record> {
    RecordsFrom(d, m, 0)
  }

  // ---------------------------------------------------------------- the encoder

  /** What a field finds in its slot, in a message that can be stored. */
  ghost predicate EntryStorable(f: Field, slot: Slot) {
    match f.htype
    case Required => slot.Single? && StorableItem(f, slot.v)
    case Optional =>
      if HasFlag(f) then slot.Opt? && (slot.has ==> StorableItem(f, slot.v))
      else slot.Single? && StorableItem(f, slot.v)
    case Repeated =>
      && slot.Rep? && |slot.items| <= f.arraySize && (FixedCount(f) ==> |slot.items| == f.arraySize)
      && (forall j :: 0 <= j < |slot.items| ==> StorableItem(f, slot.items[j]))
    case Oneof => slot.Union? && (slot.which == f.tag ==> StorableItem(f, slot.v))
  }

  lemma {:induction false} EntryOf(d: Desc, m: Msg, i: nat)
    requires WellFormed(d) && StorableMsg(d, m) && i < |d|
    ensures WellFormedField(d[i]) && EntryStorable(d[i], m[Leader(d, i)])
  {
    hide StorableItem, WellFormedField;
    var l := Leader(d, i);
    assert WellFormedField(d[i]) && StorableSlot(d, l, m[l]);
    LeaderLeads(d, i);
    if d[i].htype.Oneof? && m[l].which == d[i].tag {
      FindOwnTag(d, i);
      TagPositive(d[i]);
    }
  }

  lemma {:induction false} ItemSent(f: Field, v: Value)
    requires WellFormedField(f) && StorableItem(f, v)
    ensures EncItem(f, v) == Some(PayloadOf(f, v))
    decreases f, 0
  {
    if f.ltype.LSubmessage? {
      FieldsSent(f.ptr.fields, v.m, 0);
    } else {
      ScalarSent(f, v);
    }
  }

  lemma {:induction false} ElementsSent(f: Field, items: seq<Value>)
    requires forall j :: 0 <= j < |items| ==> ScalarOk(f, items[j])
    ensures EncPacked(f, items) == Some(Elements(f, items))
  {
    hide EncScalar, ScalarOk, ScalarPayload;
    if items != [] {
      ScalarSent(f, items[0]);
      ElementsSent(f, items[1..]);
    }
  }

  lemma {:induction false} RecordSent(f: Field, v: Value)
    requires WellFormedField(f) && StorableItem(f, v)
    ensures EncRecord(f, v) == Some(Flatten([RecordOf(f, v)]))
    decreases f, 1
  {
    hide EncItem, PayloadOf, VarintBytes, StorableItem, WellFormedField;
    ItemSent(f, v);
    FlattenOne(RecordOf(f, v));
  }

  /** The records of several items of an unpacked array. */
  function EachOf(f: Field, items: seq<Value>): (rs: seq<Record>)
    ensures |rs| == |items|
  {
    seq(|items|, j requires 0 <= j < |items| => RecordOf(f, items[j]))
  }

  lemma {:induction false} EachSent(f: Field, items: seq<Value>)
    requires WellFormedField(f) && forall j :: 0 <= j < |items| ==> StorableItem(f, items[j])
    ensures EncEach(f, items) == Some(Flatten(EachOf(f, items)))
    decreases f, 2, |items|
  {
    hide EncItem, RecordOf, VarintBytes, StorableItem, WellFormedField;
    if items != [] {
      RecordSent(f, items[0]);
      EachSent(f, items[1..]);
      assert EachOf(f, items) == [RecordOf(f, items[0])] + EachOf(f, items[1..]);
      FlattenAppend([RecordOf(f, items[0])], EachOf(f, items[1..]));
    }
  }

  lemma {:induction false} ArraySent(f: Field, items: seq<Value>)
    requires WellFormedField(f) && |items| <= f.arraySize && forall j :: 0 <= j < |items| ==> StorableItem(f, items[j])
    ensures EncArray(f, items) == Some(Flatten(FieldRecords(f, Rep(items))))
    decreases f, 3
  {
    hide EncItem, RecordOf, VarintBytes, ScalarOk, WellFormedField, EncPacked, EncEach, Elements;
    if items == [] {
    } else if Packable(f) {
      ElementsSent(f, items);
      FlattenOne(Record(f.tag, 2, Prefixed(Elements(f, items))));
    } else {
      EachSent(f, items);
      assert FieldRecords(f, Rep(items)) == EachOf(f, items);
    }
  }

  /** The proto3 check agrees with what would be sent. */
  lemma {:induction false} ZeroIsNothing(f: Field, v: Value)
    requires WellFormedField(f) && StorableItem(f, v)
    ensures IsZeroValue(f, v) <==> Nothing(f, v)
    decreases f, 0
  {
    if f.ltype.LSubmessage? {
      OmittedExactly(f.ptr.fields, v.m);
    }
  }

  lemma {:induction false} FieldSent(f: Field, slot: Slot)
    requires WellFormedField(f) && EntryStorable(f, slot)
    ensures EncField(f, slot) == Some(Flatten(FieldRecords(f, slot)))
    decreases f, 4
  {
    hide StorableItem, WellFormedField, EncArray, EncRecord, RecordOf, IsZeroValue, Nothing, VarintBytes;
    match slot
    case Rep(items) => ArraySent(f, items);
    case Single(v) =>
      RecordSent(f, v);
      ZeroIsNothing(f, v);
    case Opt(has, v) =>
      if has {
        RecordSent(f, v);
      }
    case Union(which, v) =>
      if which == f.tag {
        RecordSent(f, v);
      }
  }

  lemma {:induction false} FieldsSent(d: Desc, m: Msg, i: nat)
    requires WellFormed(d) && StorableMsg(d, m) && i <= |d|
    ensures EncFields(d, m, i) == Some(Flatten(RecordsFrom(d, m, i)))
    decreases d, 5, |d| - i
  {
    hide WellFormedField, EncField, FieldRecords, EntryStorable, StorableSlot;
    if i < |d| {
      EntryOf(d, m, i);
      FieldSent(d[i], m[Leader(d, i)]);
      FieldsSent(d, m, i + 1);
      FlattenAppend(FieldRecords(d[i], m[Leader(d, i)]), RecordsFrom(d, m, i + 1));
    }
  }

  /** Every message that can be stored is sent as exactly its records, in the order of the descriptor. */
  lemma {:induction false} EncodesAsRecords(d: Desc, m: Msg)
    requires WellFormed(d) && StorableMsg(d, m)
    ensures Encode(d, m) == Some(Flatten(RecordsOf(d, m)))
  {
    FieldsSent(d, m, 0);
  }

  // -------------------------------------------------------------- what is left out

  lemma {:induction false} NoRecords(d: Desc, m: Msg, i: nat)
    requires |m| == |d| && i <= |d|
    ensures RecordsFrom(d, m, i) == [] <==> forall k :: i <= k < |d| ==> FieldRecords(d[k], m[Leader(d, k)]) == []
    decreases |d| - i
  {
    hide FieldRecords, Leader;
    if i < |d| {
      NoRecords(d, m, i + 1);
      var a, b := FieldRecords(d[i], m[Leader(d, i)]), RecordsFrom(d, m, i + 1);
      assert a + b == [] <==> a == [] && b == [];
    }
  }

  lemma {:induction false} FieldOmitted(f: Field, slot: Slot)
    requires WellFormedField(f) && EntryStorable(f, slot)
    ensures !f.htype.Oneof? ==> (IsProto3Default(f, slot) <==> FieldRecords(f, slot) == [])
    ensures f.htype.Oneof? ==>
              && (IsProto3Default(f, slot) ==> FieldRecords(f, slot) == [])
              && (slot.which == f.tag ==> FieldRecords(f, slot) != [])
    decreases f, 1
  {
    TagPositive(f);
    if FixedCount(f) {
      FixedNotEmpty(f);
    }
    hide StorableItem, WellFormedField, IsZeroValue, Nothing, RecordOf;
    if slot.Single? {
      ZeroIsNothing(f, slot.v);
    }
  }

  lemma {:induction false} FixedNotEmpty(f: Field)
    requires WellFormedField(f) && FixedCount(f)
    ensures f.arraySize > 0
  {
    TimesMono(f.arraySize, 0, f.dataSize);
  }

  /** The proto3 check finds a submessage all default exactly when nothing in it would be sent. */
  lemma {:induction false} OmittedExactly(d: Desc, m: Msg)
    requires WellFormed(d) && StorableMsg(d, m)
    ensures AllProto3Default(d, m) <==> RecordsOf(d, m) == []
    decreases d, 2
  {
    hide WellFormedField, FieldRecords, EntryStorable, IsProto3Default, StorableSlot;
    NoRecords(d, m, 0);
    forall i | 0 <= i < |d|
      ensures IsProto3Default(d[i], m[Leader(d, i)]) ==> FieldRecords(d[i], m[Leader(d, i)]) == []
    {
      EntryOf(d, m, i);
      FieldOmitted(d[i], m[Leader(d, i)]);
    }
    if !AllProto3Default(d, m) {
      var i :| 0 <= i < |d| && !IsProto3Default(d[i], m[Leader(d, i)]);
      var k := SentEntry(d, m, i);
    }
  }

  /** An entry that is not default has records, or another member of its union does. */
  lemma {:induction false} SentEntry(d: Desc, m: Msg, i: nat) returns (k: nat)
    requires WellFormed(d) && StorableMsg(d, m) && i < |d| && !IsProto3Default(d[i], m[Leader(d, i)])
    ensures k < |d| && FieldRecords(d[k], m[Leader(d, k)]) != []
    decreases d, 1
  {
    hide WellFormedField, FieldRecords, EntryStorable;
    EntryOf(d, m, i);
    FieldOmitted(d[i], m[Leader(d, i)]);
    k := i;
    if d[i].htype.Oneof? {
      k := CurrentMember(d, m, i);
      EntryOf(d, m, k);
      FieldOmitted(d[k], m[Leader(d, k)]);
    }
  }

  lemma {:induction false} CurrentMember(d: Desc, m: Msg, i: nat) returns (k: nat)
    requires WellFormed(d) && StorableMsg(d, m) && i < |d| && d[i].htype.Oneof?
    requires !IsProto3Default(d[i], m[Leader(d, i)])
    ensures k < |d| && d[k].htype.Oneof? && m[Leader(d, k)].Union? && m[Leader(d, k)].which == d[k].tag
  {
    hide WellFormedField, StorableItem;
    var l := Leader(d, i);
    assert StorableSlot(d, l, m[l]);
    LeaderLeads(d, i);
    k := FindTag(d, m[l].which).value;
    LeaderLeads(d, k);
  }

  // -------------------------------------------------------------------- an example

  /** The first example of the standard: 150 in field 1. */
  lemma {:induction false} OneNumberExample()
    ensures Encode([Field(1, LVarint, Required, Static, 0, 0, 4, 0, Null)], [Single(VInt(150))]) ==
            Some([0x08, 0x96, 0x01])
  {
    var d, m := [Field(1, LVarint, Required, Static, 0, 0, 4, 0, Null)], [Single(VInt(150))];
    assert d[0].tag == 1 && m[0] == Single(VInt(150)) && Leader(d, 0) == 0;
    assert VarintBytes(8) == [0x08] && VarintBytes(150) == [0x96, 0x01];
    assert EncRecord(d[0], VInt(150)) == Some([0x08] + [0x96, 0x01]);
    assert EncFields(d, m, 1) == Some([]);
    assert [0x08] + [0x96, 0x01] + [] == [0x08, 0x96, 0x01];
  }
}
