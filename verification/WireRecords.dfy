/** Well-formed records of the wire format, defined without the decoder, and what it makes of them. */
module WireRecords {
  import opened Basics
  import opened Varint
  import opened Descriptors
  import opened Decoding
  import opened Framing

  /**
   * The payloads of the wire format ("Encoding", message structure), by the numbers of the wire
   * types: 0 is a varint, 1 eight bytes, 5 four bytes, and 2 a length and that many bytes.
   */
  ghost predicate WellFramed(wt: nat, p: seq<Byte>) {
    match wt
    case 0 => |p| >= 1 && AllContinue(p[..|p| - 1]) && p[|p| - 1] < 128
    case 1 => |p| == 8
    case 2 => exists k :: LengthPrefix(p, k)
    case 5 => |p| == 4
    case _ => false
  }

  /** The first k bytes are a varint giving the length of the rest. */
  predicate LengthPrefix(p: seq<Byte>, k: nat) {
    0 < k <= |p| && DecVarint32(p[..k]) == Read(|p| - k, k)
  }

  /** A key is any varint the decoder accepts, not only a minimal one. */
  predicate IsKey(kb: seq<Byte>, tag: nat, wt: nat) {
    wt < 8 && tag * 8 + wt != 0 && DecVarint32(kb) == Read(tag * 8 + wt, |kb|)
  }

  /** A wire type the encoder may use for the field: its own, or a packed array of it. */
  predicate WellTyped(f: Field, wt: nat) {
    wt == WireType(f) || TakenPacked(f, wt)
  }

  // ------------------------------------------------------- exact consumption

  lemma {:induction false} FramedVarint(p: seq<Byte>, t: seq<Byte>)
    requires WellFramed(WT_VARINT, p)
    ensures VarintLen(p + t) == |p|
  {
    var i := |p| - 1;
    assert (p + t)[..i] == p[..i];
    VarintLenAt(p + t, i);
  }

  lemma {:induction false} Varint32RestUsed(s: seq<Byte>, bitpos: nat, result: nat)
    requires DecVarint32Rest(s, bitpos, result).Read?
    ensures DecVarint32Rest(s, bitpos, result).used == VarintLen(s)
    decreases |s|
  {
    if s[0] >= 128 {
      Varint32RestUsed(s[1..], (bitpos + 7) % 256, Accumulate32(result, s[0], bitpos));
    }
  }

  lemma {:induction false} Varint32Used(s: seq<Byte>)
    requires DecVarint32(s).Read?
    ensures DecVarint32(s).used == VarintLen(s)
  {
    if s[0] >= 128 {
      Varint32RestUsed(s[1..], 7, s[0] % 128);
    }
  }

  lemma {:induction false} PrefixSplit(p: seq<Byte>, k: nat, t: seq<Byte>)
    requires LengthPrefix(p, k)
    ensures DecVarint32(p + t) == Read(|p| - k, k)
  {
    DecVarint32Local(p[..k], p[k..] + t);
    assert p[..k][..k] == p[..k];
    assert p + t == p[..k] + (p[k..] + t);
  }

  /** A decoder of the field's own wire type that succeeds takes exactly the framed payload. */
  lemma {:induction false} FramedItem(f: Field, p: seq<Byte>, base: Value, t: seq<Byte>)
    requires WellFramed(WireType(f), p)
    ensures DecItem(f, p + t, base).Read? ==> DecItem(f, p + t, base).used == |p|
  {
    if WireType(f) == WT_VARINT {
      FramedVarint(p, t);
      if DecVarint32(p + t).Read? {
        Varint32Used(p + t);
      }
    } else if WireType(f) == WT_STRING {
      var k :| LengthPrefix(p, k);
      PrefixSplit(p, k, t);
    }
  }

  lemma {:induction false} FramedSlot(f: Field, wt: nat, p: seq<Byte>, slot: Slot, count: nat, t: seq<Byte>)
    requires WellTyped(f, wt) && WellFramed(wt, p)
    ensures DecSlot(f, wt, p + t, slot, count).Read? ==> DecSlot(f, wt, p + t, slot, count).used == |p|
  {
    if TakenPacked(f, wt) {
      var k :| LengthPrefix(p, k);
      PrefixSplit(p, k, t);
    } else if f.htype.Repeated? {
      FramedItem(f, p, BlankValue(f), t);
    } else {
      FramedItem(f, p, Base(f, slot), t);
    }
  }

  /** A well-typed payload gives the same result whatever follows it. */
  lemma {:induction false} SlotExact(f: Field, wt: nat, p: seq<Byte>, slot: Slot, count: nat, t: seq<Byte>)
    requires WellTyped(f, wt) && WellFramed(wt, p)
    ensures DecSlot(f, wt, p + t, slot, count) == DecSlot(f, wt, p, slot, count)
    ensures DecSlot(f, wt, p, slot, count).Read? ==> DecSlot(f, wt, p, slot, count).used == |p|
  {
    FramedSlot(f, wt, p, slot, count, t);
    FramedSlot(f, wt, p, slot, count, []);
    assert p + [] == p;
    assert (p + t)[..|p|] + [] == p;
    assert p[..|p|] + t == p + t;
    if DecSlot(f, wt, p + t, slot, count).Read? {
      DecSlotLocal(f, wt, p + t, slot, count, []);
    } else if DecSlot(f, wt, p, slot, count).Read? {
      DecSlotLocal(f, wt, p, slot, count, t);
    }
  }

  /** The state a record of entry i leaves, given its payload alone. */
  function After(d: Desc, i: nat, wt: nat, p: seq<Byte>, st: DState): (r: Option<DState>)
    requires i < |d| && |st.m| == |d|
    ensures r.Some? ==> |r.value.m| == |d|
  {
    match DecField(d, i, wt, p, st)
    case Next(st', _) => Some(st')
    case _ => None
  }

  lemma {:induction false} KeyThen(kb: seq<Byte>, tag: nat, wt: nat, rest: seq<Byte>)
    requires IsKey(kb, tag, wt)
    ensures DecVarint32(kb + rest) == Read(tag * 8 + wt, |kb|)
    ensures (kb + rest)[|kb|..] == rest
    ensures (tag * 8 + wt) / 8 == tag && (tag * 8 + wt) % 8 == wt
  {
    DecVarint32Local(kb, rest);
    assert kb[..|kb|] == kb;
  }

  lemma {:induction false} FieldExact(d: Desc, i: nat, wt: nat, p: seq<Byte>, rest: seq<Byte>, st: DState)
    requires i < |d| && |st.m| == |d| && WellTyped(d[i], wt) && WellFramed(wt, p)
    ensures DecField(d, i, wt, p + rest, st) ==
            match After(d, i, wt, p, st)
            case None => Bad
            case Some(st') => Next(st', |p|)
  {
    hide DecSlot, Prepare, WellTyped, WellFramed;
    if Prepare(d, i, st).Some? {
      SlotExact(d[i], wt, p, st.m[Leader(d, i)], Prepare(d, i, st).value.count, rest);
    }
  }

  lemma {:induction false} StepOfKey(d: Desc, kb: seq<Byte>, tag: nat, wt: nat, rest: seq<Byte>, st: DState)
    requires |st.m| == |d| && IsKey(kb, tag, wt)
    ensures DecStep(d, kb + rest, st) ==
            match DecKeyed(d, tag * 8 + wt, rest, st)
            case Bad => Bad
            case Next(st', n) => Next(st', |kb| + n)
  {
    hide DecVarint32, DecKeyed;
    KeyThen(kb, tag, wt, rest);
  }

  /** A well-typed record of a known field: one turn of the loop, with the payload alone deciding. */
  lemma {:induction false} RecordStep(d: Desc, i: nat, kb: seq<Byte>, wt: nat, p: seq<Byte>, rest: seq<Byte>,
      st: DState)
    requires i < |d| && |st.m| == |d| && FindTag(d, d[i].tag) == Some(i)
    requires IsKey(kb, d[i].tag, wt) && WellTyped(d[i], wt) && WellFramed(wt, p)
    ensures DecStep(d, kb + p + rest, st) ==
            match After(d, i, wt, p, st)
            case None => Bad
            case Some(st') => Next(st', |kb| + |p|)
  {
    hide DecVarint32, DecField, After, FindTag, WellTyped, WellFramed, DecStep;
    FieldExact(d, i, wt, p, rest, st);
    assert kb + p + rest == kb + (p + rest);
    StepOfKey(d, kb, d[i].tag, wt, p + rest, st);
    KeyThen(kb, d[i].tag, wt, p + rest);
  }

  lemma {:induction false} RunStep(d: Desc, s: seq<Byte>, n: nat, st: DState, st': DState)
    requires |st.m| == |d| && s != [] && DecStep(d, s, st) == Next(st', n)
    ensures n <= |s| && |st'.m| == |d|
    ensures Run(d, s, st) == Shift(Run(d, s[n..], st'), n)
  {
    hide DecStep;
  }

  lemma {:induction false} KeyedField(d: Desc, i: nat, key: nat, s: seq<Byte>, st: DState)
    requires i < |d| && |st.m| == |d| && FindTag(d, key / 8) == Some(i)
    ensures DecKeyed(d, key, s, st) == DecField(d, i, key % 8, s, st)
  {
    hide DecField;
  }

  lemma {:induction false} RunRecord(d: Desc, i: nat, kb: seq<Byte>, wt: nat, p: seq<Byte>, rest: seq<Byte>, st: DState)
    requires i < |d| && |st.m| == |d| && FindTag(d, d[i].tag) == Some(i)
    requires IsKey(kb, d[i].tag, wt) && WellTyped(d[i], wt) && WellFramed(wt, p)
    ensures Run(d, kb + p + rest, st) ==
            match After(d, i, wt, p, st)
            case None => Refused
            case Some(st') => Shift(Run(d, rest, st'), |kb| + |p|)
  {
    RecordStep(d, i, kb, wt, p, rest, st);
    assert (kb + p + rest)[|kb| + |p|..] == rest;
    assert |kb| > 0;
  }

  // ----------------------------------------------------------- unknown fields

  lemma {:induction false} FramedSkip(wt: nat, p: seq<Byte>, t: seq<Byte>)
    requires WellFramed(wt, p)
    ensures Skip(wt, p + t) == Some(|p|)
  {
    if wt == WT_VARINT {
      FramedVarint(p, t);
    } else if wt == WT_STRING {
      var k :| LengthPrefix(p, k);
      PrefixSplit(p, k, t);
    }
  }

  /** The key of an entry the descriptor does not list. The empty descriptor matches tag 0. */
  predicate Unlisted(d: Desc, tag: nat) {
    FindTag(d, tag).None? && (d == [] ==> tag != 0)
  }

  /**
   * A record with an unlisted tag is transparent to the loop, in whatever state the loop is,
   * including in the middle of a fixed-count array.
   */
  lemma {:induction false} UnknownSkipped(d: Desc, tag: nat, wt: nat, kb: seq<Byte>, p: seq<Byte>, rest: seq<Byte>,
      st: DState)
    requires |st.m| == |d| && Unlisted(d, tag) && IsKey(kb, tag, wt) && WellFramed(wt, p)
    ensures Run(d, kb + p + rest, st) == Shift(Run(d, rest, st), |kb| + |p|)
  {
    hide DecVarint32, Skip, DecStep;
    assert kb + p + rest == kb + (p + rest);
    KeyThen(kb, tag, wt, p + rest);
    StepOfKey(d, kb, tag, wt, p + rest, st);
    FramedSkip(wt, p, rest);
    assert (kb + p + rest)[|kb| + |p|..] == rest;
    assert |kb| > 0;
  }

  /** Inserting such a record at a record boundary changes neither the verdict nor the message. */
  lemma {:induction false} UnknownTransparent(d: Desc, m: Msg, a: seq<Byte>, tag: nat, wt: nat, kb: seq<Byte>,
      p: seq<Byte>, b: seq<Byte>)
    requires |m| == |d| && Records(d, a, Start(m)).Some?
    requires Unlisted(d, tag) && IsKey(kb, tag, wt) && WellFramed(wt, p)
    ensures DecodeNoinit(d, a + (kb + p + b), m) ==
            match DecodeNoinit(d, a + b, m)
            case Fail => Fail
            case Read(m', n) => Read(m', n + |kb| + |p|)
  {
    var st := Records(d, a, Start(m)).value;
    RunAfterRecords(d, a, kb + p + b, Start(m));
    RunAfterRecords(d, a, b, Start(m));
    UnknownSkipped(d, tag, wt, kb, p, b, st);
  }

  // ------------------------------------------------------------- commutation

  /** The required-field bit a record of entry i sets. */
  function Marks(d: Desc, i: nat): set<nat>
    requires i < |d|
  {
    if d[i].htype.Required? && RequiredBefore(d, i) < PB_MAX_REQUIRED_FIELDS then {RequiredBefore(d, i)} else {}
  }

  /** What a record of an entry that is not a fixed-count array does to its slot. */
  function Effect(d: Desc, i: nat, wt: nat, p: seq<Byte>, slot: Slot): Option<Slot>
    requires i < |d|
  {
    if d[i].htype.Oneof? && !UnionKnown(d, d[i], slot) then None
    else
      match DecSlot(d[i], wt, p, slot, 0)
      case Fail => None
      case Read(stored, _) => Some(stored.slot)
  }

  lemma {:induction false} AfterPlain(d: Desc, i: nat, wt: nat, p: seq<Byte>, st: DState)
    requires i < |d| && |st.m| == |d| && !FixedCount(d[i])
    ensures After(d, i, wt, p, st) ==
            match Effect(d, i, wt, p, st.m[Leader(d, i)])
            case None => None
            case Some(slot) => Some(st.(m := st.m[Leader(d, i) := slot], seen := st.seen + Marks(d, i)))
  {
    hide DecSlot;
    SlotCountFree(d[i], wt, p, st.m[Leader(d, i)], 0, st.count);
    assert st.seen + {} == st.seen;
  }

  /** What a record of a fixed-count array does, given the array being filled and its element count. */
  function FixedEffect(d: Desc, i: nat, wt: nat, p: seq<Byte>, slot: Slot, fixed: Option<nat>,
      count: nat): Option<Stored>
    requires i < |d|
  {
    if fixed != Some(i) && !(fixed.Some? && fixed.value < |d| ==> count == d[fixed.value].arraySize) then None
    else
      match DecSlot(d[i], wt, p, slot, if fixed == Some(i) then count else 0)
      case Fail => None
      case Read(stored, _) => Some(stored)
  }

  lemma {:induction false} AfterFixed(d: Desc, i: nat, wt: nat, p: seq<Byte>, st: DState)
    requires i < |d| && |st.m| == |d| && FixedCount(d[i])
    ensures After(d, i, wt, p, st) ==
            match FixedEffect(d, i, wt, p, st.m[Leader(d, i)], st.fixed, st.count)
            case None => None
            case Some(e) => Some(DState(st.m[Leader(d, i) := e.slot], Some(i), e.count, st.seen))
  {
    hide DecSlot;
  }

  /**
   * Records of two fields that do not share storage, not both fixed-count arrays, commute. Decoding
   * an array item or a union member resets it, and with a smaller array in it than ArraysFit asks
   * for, the reset would reach the fields behind it.
   */
  lemma {:induction false} FieldsCommute(d: Desc, i: nat, wi: nat, p: seq<Byte>, j: nat, wj: nat, q: seq<Byte>,
      st: DState)
    requires ArraysFit(d) && i < |d| && j < |d| && |st.m| == |d| && Leader(d, i) != Leader(d, j)
    requires !(FixedCount(d[i]) && FixedCount(d[j]))
    ensures Both(d, i, wi, p, j, wj, q, st) == Both(d, j, wj, q, i, wi, p, st)
  {
    if FixedCount(d[i]) {
      FixedCommutes(d, i, wi, p, j, wj, q, st);
    } else if FixedCount(d[j]) {
      FixedCommutes(d, j, wj, q, i, wi, p, st);
    } else {
      PlainCommutes(d, i, wi, p, j, wj, q, st);
    }
  }

  function Both(d: Desc, i: nat, wi: nat, p: seq<Byte>, j: nat, wj: nat, q: seq<Byte>, st: DState): (r: Option<DState>)
    requires i < |d| && j < |d| && |st.m| == |d|
    ensures r.Some? ==> |r.value.m| == |d|
  {
    match After(d, i, wi, p, st)
    case None => None
    case Some(st') => After(d, j, wj, q, st')
  }

  lemma {:induction false} PlainCommutes(d: Desc, i: nat, wi: nat, p: seq<Byte>, j: nat, wj: nat, q: seq<Byte>,
      st: DState)
    requires i < |d| && j < |d| && |st.m| == |d| && Leader(d, i) != Leader(d, j)
    requires !FixedCount(d[i]) && !FixedCount(d[j])
    ensures Both(d, i, wi, p, j, wj, q, st) == Both(d, j, wj, q, i, wi, p, st)
  {
    hide After, Effect, Marks, Leader;
    AfterPlain(d, i, wi, p, st);
    AfterPlain(d, j, wj, q, st);
    var a := After(d, i, wi, p, st);
    var b := After(d, j, wj, q, st);
    if a.Some? {
      AfterPlain(d, j, wj, q, a.value);
    }
    if b.Some? {
      AfterPlain(d, i, wi, p, b.value);
    }
    if a.Some? && b.Some? {
      var li, lj := Leader(d, i), Leader(d, j);
      var x, y := Effect(d, i, wi, p, st.m[li]).value, Effect(d, j, wj, q, st.m[lj]).value;
      assert st.m[li := x][lj := y] == st.m[lj := y][li := x];
      assert st.seen + Marks(d, i) + Marks(d, j) == st.seen + Marks(d, j) + Marks(d, i);
    }
  }

  lemma {:induction false} FixedCommutes(d: Desc, i: nat, wi: nat, p: seq<Byte>, j: nat, wj: nat, q: seq<Byte>,
      st: DState)
    requires i < |d| && j < |d| && |st.m| == |d| && Leader(d, i) != Leader(d, j)
    requires FixedCount(d[i]) && !FixedCount(d[j])
    ensures Both(d, i, wi, p, j, wj, q, st) == Both(d, j, wj, q, i, wi, p, st)
  {
    hide After, Effect, FixedEffect, Marks, Leader;
    AfterFixed(d, i, wi, p, st);
    AfterPlain(d, j, wj, q, st);
    var a := After(d, i, wi, p, st);
    var b := After(d, j, wj, q, st);
    if a.Some? {
      AfterPlain(d, j, wj, q, a.value);
    }
    if b.Some? {
      AfterFixed(d, i, wi, p, b.value);
    }
    if a.Some? && b.Some? {
      var li, lj := Leader(d, i), Leader(d, j);
      var x, y := FixedEffect(d, i, wi, p, st.m[li], st.fixed, st.count).value.slot,
          Effect(d, j, wj, q, st.m[lj]).value;
      assert st.m[li := x][lj := y] == st.m[lj := y][li := x];
    }
  }

  /** Only a fixed-count array looks at the running element count or changes it. */
  lemma {:induction false} SlotCountFree(f: Field, wt: nat, p: seq<Byte>, slot: Slot, c: nat, c': nat)
    requires !FixedCount(f)
    ensures var r := DecSlot(f, wt, p, slot, c);
            var r' := DecSlot(f, wt, p, slot, c');
            if r.Fail? then r'.Fail?
            else r'.Read? && r.val.count == c && r'.val.count == c' && r'.val.slot == r.val.slot && r'.used == r.used
  {
  }

  /**
   * Swapping two adjacent well-typed records of different fields leaves the verdict, the message
   * and the bytes consumed unchanged, whatever came before and whatever follows.
   */
  lemma {:induction false} RecordsCommute(d: Desc, i: nat, ki: seq<Byte>, wi: nat, p: seq<Byte>,
                       j: nat, kj: seq<Byte>, wj: nat, q: seq<Byte>, rest: seq<Byte>, st: DState)
    requires ArraysFit(d) && i < |d| && j < |d| && |st.m| == |d|
    requires FindTag(d, d[i].tag) == Some(i) && FindTag(d, d[j].tag) == Some(j)
    requires Leader(d, i) != Leader(d, j) && !(FixedCount(d[i]) && FixedCount(d[j]))
    requires IsKey(ki, d[i].tag, wi) && WellTyped(d[i], wi) && WellFramed(wi, p)
    requires IsKey(kj, d[j].tag, wj) && WellTyped(d[j], wj) && WellFramed(wj, q)
    ensures Run(d, ki + p + (kj + q + rest), st) == Run(d, kj + q + (ki + p + rest), st)
  {
    hide *;
    TwoRecords(d, i, ki, wi, p, j, kj, wj, q, rest, st);
    TwoRecords(d, j, kj, wj, q, i, ki, wi, p, rest, st);
    FieldsCommute(d, i, wi, p, j, wj, q, st);
  }

  lemma {:induction false} TwoRecords(d: Desc, i: nat, ki: seq<Byte>, wi: nat, p: seq<Byte>,
                   j: nat, kj: seq<Byte>, wj: nat, q: seq<Byte>, rest: seq<Byte>, st: DState)
    requires i < |d| && j < |d| && |st.m| == |d|
    requires FindTag(d, d[i].tag) == Some(i) && FindTag(d, d[j].tag) == Some(j)
    requires IsKey(ki, d[i].tag, wi) && WellTyped(d[i], wi) && WellFramed(wi, p)
    requires IsKey(kj, d[j].tag, wj) && WellTyped(d[j], wj) && WellFramed(wj, q)
    ensures var both := Both(d, i, wi, p, j, wj, q, st);
            Run(d, ki + p + (kj + q + rest), st) ==
            if both.None? then Refused else Shift(Run(d, rest, both.value), |ki| + |p| + |kj| + |q|)
  {
    hide After, Run, DecVarint32;
    RunRecord(d, i, ki, wi, p, kj + q + rest, st);
    if After(d, i, wi, p, st).Some? {
      RunRecord(d, j, kj, wj, q, rest, After(d, i, wi, p, st).value);
    }
  }

  // ---------------------------------------------------------------- last one wins

  /** A record of entry j leaves nothing of what a record of entry i stored. */
  predicate Overrides(d: Desc, i: nat, j: nat)
    requires i < |d| && j < |d|
  {
    if d[j].htype.Oneof? then d[i].htype.Oneof? && Leader(d, i) == Leader(d, j)
    else i == j && !d[j].htype.Repeated? && !d[j].ltype.LSubmessage?
  }

  lemma {:induction false} EffectLast(d: Desc, i: nat, wi: nat, p: seq<Byte>, j: nat, wj: nat, q: seq<Byte>, slot: Slot)
    requires i < |d| && j < |d| && Overrides(d, i, j) && FindTag(d, d[i].tag) == Some(i)
    requires Effect(d, i, wi, p, slot).Some? && (d[j].htype.Oneof? ==> UnionKnown(d, d[j], slot))
    ensures Effect(d, j, wj, q, Effect(d, i, wi, p, slot).value) == Effect(d, j, wj, q, slot)
  {
    hide DecItem, FindTag;
    var slot1 := Effect(d, i, wi, p, slot).value;
    if d[j].htype.Oneof? {
      assert slot.Union? && slot1.Union? && slot1.which == d[i].tag;
      assert Base(d[j], slot) == Base(d[j], slot1);
    } else {
      SameScalarItem(d[j], q, Base(d[j], slot), Base(d[j], slot1));
    }
    assert DecItem(d[j], q, Base(d[j], slot)) == DecItem(d[j], q, Base(d[j], slot1));
    assert slot.Union? == slot1.Union? && slot.Single? == slot1.Single? && slot.Opt? == slot1.Opt?;
  }

  lemma {:induction false} SameScalarItem(f: Field, s: seq<Byte>, base: Value, base': Value)
    requires !f.ltype.LSubmessage?
    ensures DecItem(f, s, base) == DecItem(f, s, base')
  {
  }

  lemma {:induction false} EffectKnown(d: Desc, i: nat, wt: nat, p: seq<Byte>, slot: Slot)
    requires i < |d| && d[i].htype.Oneof? && Effect(d, i, wt, p, slot).Some?
    ensures UnionKnown(d, d[i], slot)
  {
  }

  lemma {:induction false} UnionKnownBoth(d: Desc, i: nat, j: nat, slot: Slot)
    requires i < |d| && j < |d| && FindTag(d, d[i].tag) == Some(i) && UnionKnown(d, d[i], slot)
    ensures UnionKnown(d, d[j], slot)
  {
  }

  /**
   * "Last One Wins": a record of a singular scalar field, or of a union member, makes an accepted
   * earlier record of the same field, or of any member of the same union, as if it had not been
   * there.
   */
  lemma {:induction false} LastOneWins(d: Desc, i: nat, ki: seq<Byte>, wi: nat, p: seq<Byte>,
                       j: nat, kj: seq<Byte>, wj: nat, q: seq<Byte>, rest: seq<Byte>, st: DState)
    requires ArraysFit(d) && i < |d| && j < |d| && |st.m| == |d| && Overrides(d, i, j)
    requires FindTag(d, d[i].tag) == Some(i) && FindTag(d, d[j].tag) == Some(j)
    requires IsKey(ki, d[i].tag, wi) && WellTyped(d[i], wi) && WellFramed(wi, p)
    requires IsKey(kj, d[j].tag, wj) && WellTyped(d[j], wj) && WellFramed(wj, q)
    ensures Run(d, ki + p + (kj + q + rest), st) ==
            if After(d, i, wi, p, st).None? then Refused else Shift(Run(d, kj + q + rest, st), |ki| + |p|)
  {
    hide *;
    TwoRecords(d, i, ki, wi, p, j, kj, wj, q, rest, st);
    BothIs(d, i, wi, p, j, wj, q, st);
    if After(d, i, wi, p, st).Some? {
      RunRecord(d, j, kj, wj, q, rest, st);
      AfterLast(d, i, wi, p, j, wj, q, st);
      ShiftTwice(Run(d, rest, AfterOr(d, j, wj, q, st)), |kj| + |q|, |ki| + |p|);
    }
  }

  function AfterOr(d: Desc, i: nat, wt: nat, p: seq<Byte>, st: DState): (r: DState)
    requires i < |d| && |st.m| == |d|
    ensures |r.m| == |d|
    ensures After(d, i, wt, p, st).Some? ==> r == After(d, i, wt, p, st).value
  {
    match After(d, i, wt, p, st)
    case None => st
    case Some(r) => r
  }

  lemma {:induction false} BothIs(d: Desc, i: nat, wi: nat, p: seq<Byte>, j: nat, wj: nat, q: seq<Byte>, st: DState)
    requires i < |d| && j < |d| && |st.m| == |d|
    ensures var first := After(d, i, wi, p, st);
            Both(d, i, wi, p, j, wj, q, st) == if first.None? then None else After(d, j, wj, q, first.value)
  {
    hide After;
  }

  lemma {:induction false} AfterLast(d: Desc, i: nat, wi: nat, p: seq<Byte>, j: nat, wj: nat, q: seq<Byte>, st: DState)
    requires i < |d| && j < |d| && |st.m| == |d| && Overrides(d, i, j)
    requires FindTag(d, d[i].tag) == Some(i) && After(d, i, wi, p, st).Some?
    ensures After(d, j, wj, q, After(d, i, wi, p, st).value) == After(d, j, wj, q, st)
  {
    hide After, Effect, FindTag, UnionKnown;
    var l := Leader(d, i);
    LeaderLeads(d, i);
    LeaderLeads(d, j);
    AfterPlain(d, i, wi, p, st);
    var st1 := After(d, i, wi, p, st).value;
    AfterPlain(d, j, wj, q, st1);
    AfterPlain(d, j, wj, q, st);
    if d[j].htype.Oneof? {
      EffectKnown(d, i, wi, p, st.m[l]);
      UnionKnownBoth(d, i, j, st.m[l]);
    }
    EffectLast(d, i, wi, p, j, wj, q, st.m[l]);
    if Effect(d, j, wj, q, st.m[l]).Some? {
      var slot := Effect(d, j, wj, q, st.m[l]).value;
      assert st1.m[l := slot] == st.m[l := slot];
      assert st1.seen + Marks(d, j) == st.seen + Marks(d, j);
    }
  }
}
