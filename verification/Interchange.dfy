/** What other readers of the wire format make of an encoded message: its records, one after another. */
module Interchange {
  import opened Basics
  import opened Varint
  import opened Descriptors
  import opened Scalars
  import opened Encoding
  import opened Decoding
  import opened Messages
  import opened WireRecords
  import opened WireForm
  import opened Contents

  // -------------------------------------------------------- payloads are framed

  lemma {:induction false} VarintFramed(n: nat)
    ensures WellFramed(0, VarintBytes(n))
  {
    hide WellFramed;
    VarintBytesRead(n, []);
    assert VarintBytes(n) + [] == VarintBytes(n);
    VarintWhole(VarintBytes(n));
    assert VarintBytes(n)[..|VarintBytes(n)|] == VarintBytes(n);
  }

  lemma {:induction false} PrefixedFramed(s: seq<Byte>)
    requires |s| < TWO_32
    ensures WellFramed(2, Prefixed(s))
  {
    hide VarintBytes, DecVarint32;
    var k := |VarintBytes(|s|)|;
    Varint32ReadsUnsigned(|s|, []);
    assert VarintBytes(|s|) + [] == VarintBytes(|s|) == Prefixed(s)[..k];
    assert LengthPrefix(Prefixed(s), k);
  }

  lemma {:induction false} OneByteFramed(b: Byte)
    requires b < 128
    ensures WellFramed(0, [b])
  {
  }

  lemma {:induction false} ScalarFramed(f: Field, v: Value)
    requires WellFormedField(f) && ScalarOk(f, v)
    ensures WellFramed(TypeNumber(f), ScalarPayload(f, v))
  {
    hide VarintBytes, WellFramed, Pow2, CString;
    match f.ltype
    case LBool => OneByteFramed(if v.n == 0 then 0 else 1);
    case LVarint | LUvarint => VarintFramed(v.n % 0x1_0000_0000_0000_0000);
    case LSvarint => VarintFramed(if v.n < 0 then -2 * v.n - 1 else 2 * v.n);
    case LFixed32 | LFixed64 => FixedFramed(f, v);
    case LBytes | LFixedLengthBytes => PrefixedFramed(v.b);
    case LString => PrefixedFramed(CString(v.b));
  }

  lemma {:induction false} FixedFramed(f: Field, v: Value)
    requires f.ltype.LFixed32? || f.ltype.LFixed64?
    ensures WellFramed(TypeNumber(f), ScalarPayload(f, v))
  {
    hide Pow2;
  }

  lemma {:induction false} PayloadFramed(f: Field, v: Value)
    requires WellFormedField(f) && StorableItem(f, v) && ReadableItem(f, v)
    ensures WellFramed(TypeNumber(f), PayloadOf(f, v))
  {
    hide WellFramed;
    if f.ltype.LSubmessage? {
      EncodesAsRecords(f.ptr.fields, v.m);
      PrefixedFramed(Flatten(RecordsFrom(f.ptr.fields, v.m, 0)));
    } else {
      ScalarFramed(f, v);
    }
  }

  // ------------------------------------------------------- records of a message

  /** A record of a field: its number, and a payload its wire type frames. */
  ghost predicate Framed(f: Field, r: Record) {
    && r.tag == f.tag && (r.wt == TypeNumber(f) || (f.htype.Repeated? && r.wt == 2))
    && WellFramed(r.wt, r.payload)
  }

  lemma {:induction false} RecordFramed(f: Field, v: Value)
    requires WellFormedField(f) && StorableItem(f, v) && ReadableItem(f, v)
    ensures Framed(f, RecordOf(f, v))
  {
    hide WellFramed, PayloadOf;
    PayloadFramed(f, v);
  }

  lemma {:induction false} FieldFramed(f: Field, slot: Slot)
    requires WellFormedField(f) && EntryStorable(f, slot) && ReadableSlot(f, slot)
    ensures forall k :: 0 <= k < |FieldRecords(f, slot)| ==> Framed(f, FieldRecords(f, slot)[k])
  {
    hide WellFramed, StorableItem, ReadableItem, RecordOf, WellFormedField, IsZeroValue, Nothing, EncPacked, Elements;
    match slot
    case Rep(items) =>
      if items == [] {
      } else if TypeNumber(f) == 2 {
        forall j | 0 <= j < |items|
          ensures Framed(f, RecordOf(f, items[j]))
        {
          RecordFramed(f, items[j]);
        }
      } else {
        PackedFramed(f, items);
      }
    case Single(v) =>
      ZeroIsNothing(f, v);
      if FieldRecords(f, slot) != [] {
        RecordFramed(f, v);
      }
    case Opt(has, v) =>
      if has {
        RecordFramed(f, v);
      }
    case Union(which, v) =>
      if which == f.tag {
        RecordFramed(f, v);
      }
  }

  lemma {:induction false} PackedFramed(f: Field, items: seq<Value>)
    requires f.htype.Repeated? && TypeNumber(f) != 2 && ReadableLength(EncPacked(f, items))
    requires forall j :: 0 <= j < |items| ==> StorableItem(f, items[j])
    ensures Framed(f, Record(f.tag, 2, Prefixed(Elements(f, items))))
  {
    hide WellFramed, ScalarOk;
    forall j | 0 <= j < |items|
      ensures ScalarOk(f, items[j])
    {
      assert StorableItem(f, items[j]);
    }
    ElementsSent(f, items);
    PrefixedFramed(Elements(f, items));
  }

  /** The record is of one of the fields. */
  ghost predicate OfField(d: Desc, r: Record) {
    exists i :: 0 <= i < |d| && Framed(d[i], r)
  }

  lemma {:induction false} RecordsFramed(d: Desc, m: Msg, i: nat)
    requires WellFormed(d) && StorableMsg(d, m) && ReadableMsg(d, m)
    ensures forall k :: 0 <= k < |RecordsFrom(d, m, i)| ==> OfField(d, RecordsFrom(d, m, i)[k])
    decreases |d| - i
  {
    hide WellFormedField, FieldRecords, EntryStorable, ReadableSlot, StorableSlot, Framed;
    if i < |d| {
      EntryOf(d, m, i);
      assert ReadableSlot(d[i], m[Leader(d, i)]);
      FieldFramed(d[i], m[Leader(d, i)]);
      RecordsFramed(d, m, i + 1);
      var a, b := FieldRecords(d[i], m[Leader(d, i)]), RecordsFrom(d, m, i + 1);
      forall k | 0 <= k < |a + b|
        ensures OfField(d, (a + b)[k])
      {
        if k < |a| {
          assert Framed(d[i], a[k]);
        }
      }
    }
  }

  // ------------------------------------------------------------------- as pieces

  function PieceOf(r: Record): Piece {
    Piece(VarintBytes(8 * r.tag + r.wt), r.tag, r.wt, r.payload)
  }

  function PiecesOf(rs: seq<Record>): (ps: seq<Piece>)
    ensures |ps| == |rs| && forall k :: 0 <= k < |rs| ==> ps[k] == PieceOf(rs[k])
  {
    seq(|rs|, k requires 0 <= k < |rs| => PieceOf(rs[k]))
  }

  lemma {:induction false} JoinedIsFlat(rs: seq<Record>)
    ensures Joined(PiecesOf(rs)) == Flatten(rs)
  {
    hide VarintBytes;
    if rs != [] {
      assert PiecesOf(rs)[1..] == PiecesOf(rs[1..]);
      JoinedIsFlat(rs[1..]);
    }
  }

  lemma {:induction false} KeyOfRecord(d: Desc, r: Record)
    requires WellFormed(d) && OfField(d, r)
    ensures IsKey(PieceOf(r).key, r.tag, r.wt) && r.tag > 0 && WellFramed(r.wt, r.payload)
  {
    hide VarintBytes, DecVarint32, WellFramed;
    var i :| 0 <= i < |d| && Framed(d[i], r);
    assert WellFormedField(d[i]);
    Varint32ReadsUnsigned(8 * r.tag + r.wt, []);
    assert PieceOf(r).key + [] == PieceOf(r).key;
  }

  lemma {:induction false} OwnPiece(d: Desc, r: Record)
    requires WellFormed(d) && OfField(d, r)
    ensures Whole(d, PieceOf(r))
  {
    KeyOfRecord(d, r);
    hide WellFramed, IsKey, PieceOf, FindTag;
    var i :| 0 <= i < |d| && Framed(d[i], r);
    FindOwnTag(d, i);
    assert PieceOf(r).tag == r.tag && PieceOf(r).wt == r.wt && PieceOf(r).payload == r.payload by { PieceIs(r); }
  }

  lemma {:induction false} PieceIs(r: Record)
    ensures PieceOf(r).tag == r.tag && PieceOf(r).wt == r.wt && PieceOf(r).payload == r.payload
  {
  }

  /** The decoder takes an encoding apart into exactly the records of the message. */
  lemma {:induction false} EncodingSplits(d: Desc, m: Msg)
    requires WellFormed(d) && StorableMsg(d, m) && ReadableMsg(d, m)
    ensures Encode(d, m).Some? && Splits(d, Encode(d, m).value, PiecesOf(RecordsOf(d, m)), |Encode(d, m).value|)
  {
    hide WellFormed, StorableMsg, ReadableMsg, Encode, PieceOf, Whole, OfField, DecVarint32;
    var rs := RecordsOf(d, m);
    EncodesAsRecords(d, m);
    RecordsFramed(d, m, 0);
    JoinedIsFlat(rs);
    forall k | 0 <= k < |rs|
      ensures Whole(d, PiecesOf(rs)[k])
    {
      OwnPiece(d, rs[k]);
    }
    assert Flatten(rs)[|Flatten(rs)|..] == [];
  }

  // -------------------------------------------------------------- other receivers

  /** No field in common. */
  predicate Strangers(d: Desc, e: Desc) {
    forall i, j :: 0 <= i < |d| && 0 <= j < |e| ==> d[i].tag != e[j].tag
  }

  lemma {:induction false} StrangePiece(d: Desc, e: Desc, r: Record, st: DState)
    requires WellFormed(d) && OfField(d, r) && Strangers(d, e) && |st.m| == |e|
    ensures Whole(e, PieceOf(r)) && AfterPiece(e, PieceOf(r), st) == Some(st)
  {
    KeyOfRecord(d, r);
    PieceIs(r);
    hide WellFramed, IsKey, PieceOf, DecVarint32;
    var i :| 0 <= i < |d| && Framed(d[i], r);
    assert FindTag(e, r.tag).None?;
  }

  lemma {:induction false} StrangePieces(d: Desc, e: Desc, rs: seq<Record>, st: DState)
    requires WellFormed(d) && Strangers(d, e) && |st.m| == |e| && forall k :: 0 <= k < |rs| ==> OfField(d, rs[k])
    ensures AllWhole(e, PiecesOf(rs)) && AfterAll(e, PiecesOf(rs), st) == Some(st)
  {
    hide WellFormed, PieceOf, Whole, AfterPiece, Strangers, OfField;
    if rs != [] {
      StrangePiece(d, e, rs[0], st);
      StrangePieces(d, e, rs[1..], st);
      assert PiecesOf(rs)[1..] == PiecesOf(rs[1..]);
      forall k | 0 <= k < |rs|
        ensures Whole(e, PiecesOf(rs)[k])
      {
        assert k > 0 ==> PiecesOf(rs)[k] == PiecesOf(rs[1..])[k - 1];
      }
    }
  }

  /**
   * A receiver that knows none of the fields reads the whole message and keeps its own structure as
   * it was, if it requires nothing.
   */
  lemma {:induction false} StrangerSkips(d: Desc, m: Msg, e: Desc, w: Msg)
    requires WellFormed(d) && StorableMsg(d, m) && ReadableMsg(d, m) && Strangers(d, e) && |w| == |e|
    requires forall j :: 0 <= j < |e| ==> !e[j].htype.Required?
    ensures Encode(d, m).Some? && DecodeNoinit(e, Encode(d, m).value, w) == Read(w, |Encode(d, m).value|)
  {
    hide WellFormed, StorableMsg, ReadableMsg, Encode, Strangers, OfField, AfterAll, Run, RequiredBefore, AllWhole;
    var rs := RecordsOf(d, m);
    EncodesAsRecords(d, m);
    RecordsFramed(d, m, 0);
    JoinedIsFlat(rs);
    StrangePieces(d, e, rs, Start(w));
    assert Flatten(rs)[|Flatten(rs)|..] == [];
    RunOfSplit(e, Flatten(rs), PiecesOf(rs), |Flatten(rs)|, Start(w));
    NoneRequired(e, |e|);
  }

  lemma {:induction false} NoneRequired(e: Desc, i: nat)
    requires i <= |e| && forall j :: 0 <= j < |e| ==> !e[j].htype.Required?
    ensures RequiredBefore(e, i) == 0
  {
    if i > 0 {
      NoneRequired(e, i - 1);
    }
  }
}
