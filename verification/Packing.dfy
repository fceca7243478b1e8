/** Packed and unpacked arrays are interchangeable ("Packed Repeated Fields"). */
module Packing {
  import opened Basics
  import opened Varint
  import opened Descriptors
  import opened Scalars
  import opened Decoding
  import opened Framing
  import opened WireRecords
  import opened Merging

  /** Byte strings that each decode, as a whole, to one element. */
  predicate Elements(f: Field, chunks: seq<seq<Byte>>, vs: seq<Value>) {
    |chunks| == |vs| && forall j :: 0 <= j < |vs| ==> Element(f, chunks[j], vs[j])
  }

  predicate Element(f: Field, chunk: seq<Byte>, v: Value) {
    DecItem(f, chunk, BlankValue(f)) == Read(v, |chunk|)
  }

  function Concat(chunks: seq<seq<Byte>>): seq<Byte> {
    if chunks == [] then [] else chunks[0] + Concat(chunks[1..])
  }

  /** One record per element, all with the same key. */
  function Singles(kb: seq<Byte>, chunks: seq<seq<Byte>>): seq<Byte> {
    if chunks == [] then [] else kb + chunks[0] + Singles(kb, chunks[1..])
  }

  lemma {:induction false} ElementRead(f: Field, c: seq<Byte>, v: Value, t: seq<Byte>)
    requires Element(f, c, v)
    ensures DecItem(f, c + t, BlankValue(f)) == Read(v, |c|) && |c| > 0
  {
    DecItemLocal(f, c, BlankValue(f), t);
    assert c[..|c|] == c;
  }

  lemma {:induction false} PackedReads(f: Field, chunks: seq<seq<Byte>>, vs: seq<Value>, room: nat)
    requires Elements(f, chunks, vs) && Packable(f)
    ensures DecPacked(f, Concat(chunks), room) == if |vs| <= room then Some(vs) else None
    decreases |vs|
  {
    hide DecScalar;
    if vs != [] {
      var rest := Concat(chunks[1..]);
      ElementRead(f, chunks[0], vs[0], rest);
      assert (chunks[0] + rest)[|chunks[0]|..] == rest;
      if room > 0 {
        PackedReads(f, chunks[1..], vs[1..], room - 1);
        assert vs == [vs[0]] + vs[1..];
      }
    }
  }

  /** The index at which an array takes its next element; None when it may not be started. */
  function NextIndex(d: Desc, i: nat, st: DState): Option<nat>
    requires i < |d| && |st.m| == |d|
  {
    if FixedCount(d[i]) then Enter(d, i, st.fixed, st.count)
    else if st.m[Leader(d, i)].Rep? then Some(|st.m[Leader(d, i)].items|) else None
  }

  /** The array's slot holds an array, of full length if it has a fixed count. */
  predicate ArrayReady(d: Desc, i: nat, st: DState)
    requires i < |d| && |st.m| == |d|
  {
    var slot := st.m[Leader(d, i)];
    && d[i].htype.Repeated? && slot.Rep?
    && (FixedCount(d[i]) ==> |slot.items| == d[i].arraySize)
    && (NextIndex(d, i, st).Some? ==> NextIndex(d, i, st).value <= d[i].arraySize)
  }

  /** The state with vs appended to the array, if there is room. */
  function Filled(d: Desc, i: nat, vs: seq<Value>, st: DState): (r: Option<DState>)
    requires i < |d| && |st.m| == |d| && ArrayReady(d, i, st)
    ensures r.Some? ==> |r.value.m| == |d| && ArrayReady(d, i, r.value)
  {
    var l := Leader(d, i);
    match NextIndex(d, i, st)
    case None => None
    case Some(k) =>
      if k + |vs| > d[i].arraySize then None
      else
        var m' := st.m[l := Rep(Store(d[i], st.m[l].items, k, vs))];
        Some(if FixedCount(d[i]) then DState(m', Some(i), k + |vs|, st.seen) else st.(m := m'))
  }

  lemma {:induction false} FilledTwice(d: Desc, i: nat, v: Value, vs: seq<Value>, st: DState)
    requires i < |d| && |st.m| == |d| && ArrayReady(d, i, st)
    ensures Filled(d, i, [v] + vs, st) ==
            match Filled(d, i, [v], st)
            case None => None
            case Some(st') => Filled(d, i, vs, st')
  {
    var l := Leader(d, i);
    if Filled(d, i, [v], st).Some? {
      var st' := Filled(d, i, [v], st).value;
      var k := NextIndex(d, i, st).value;
      var items := st.m[l].items;
      assert NextIndex(d, i, st') == Some(k + 1);
      if k + 1 + |vs| <= d[i].arraySize {
        StoreTwice(d[i], items, k, v, vs);
        var slot := Rep(Store(d[i], items, k, [v] + vs));
        assert st.m[l := st'.m[l]][l := slot] == st.m[l := slot];
      }
    }
  }

  lemma {:induction false} StoreTwice(f: Field, items: seq<Value>, k: nat, v: Value, vs: seq<Value>)
    requires FixedCount(f) ==> k + 1 + |vs| <= |items|
    ensures Store(f, Store(f, items, k, [v]), k + 1, vs) == Store(f, items, k, [v] + vs)
  {
    if vs == [] {
      assert [v] + vs == [v];
    } else if FixedCount(f) {
      var once := Store(f, items, k, [v]);
      assert once[..k + 1] == items[..k] + [v];
      assert once[k + 1 + |vs|..] == items[k + 1 + |vs|..];
      assert items[..k] + [v] + vs == items[..k] + ([v] + vs);
    } else {
      assert items + [v] + vs == items + ([v] + vs);
    }
  }

  /** The turn of the loop that reads the given elements into the array. */
  function FillStep(d: Desc, i: nat, r: Parse<seq<Value>>, st: DState): Step
    requires i < |d| && |st.m| == |d| && ArrayReady(d, i, st)
  {
    if r.Fail? || Filled(d, i, r.val, st).None? then Bad else Next(Filled(d, i, r.val, st).value, r.used)
  }

  /** A record of an array stores whatever elements it holds. */
  lemma {:induction false} FieldArray(d: Desc, i: nat, wt: nat, s: seq<Byte>, st: DState)
    requires i < |d| && |st.m| == |d| && ArrayReady(d, i, st)
    ensures DecField(d, i, wt, s, st) ==
            match NextIndex(d, i, st)
            case None => Bad
            case Some(k) => FillStep(d, i, DecRepeated(d[i], wt, s, st.m[Leader(d, i)].items, k), st)
  {
    hide DecRepeated;
    if FixedCount(d[i]) {
      FieldFixed(d, i, wt, s, st);
    } else {
      SlotCounted(d[i], wt, s, st.m[Leader(d, i)], st.count);
      hide DecSlot;
    }
  }

  lemma {:induction false} SlotCounted(f: Field, wt: nat, s: seq<Byte>, slot: Slot, count: nat)
    requires f.htype.Repeated? && !FixedCount(f) && slot.Rep?
    ensures DecSlot(f, wt, s, slot, count) ==
            var r := DecRepeated(f, wt, s, slot.items, |slot.items|);
            if r.Fail? then Fail else Read(Stored(Rep(slot.items + r.val), count), r.used)
  {
    assert slot.items + [] == slot.items;
  }

  /** A single record stores its element. */
  lemma {:induction false} SingleFills(d: Desc, i: nat, c: seq<Byte>, v: Value, rest: seq<Byte>, st: DState)
    requires i < |d| && |st.m| == |d| && ArrayReady(d, i, st)
    requires Element(d[i], c, v)
    ensures DecField(d, i, WireType(d[i]), c + rest, st) ==
            match Filled(d, i, [v], st)
            case None => Bad
            case Some(st') => Next(st', |c|)
  {
    hide DecItem, DecField, Store;
    ElementRead(d[i], c, v, rest);
    FieldArray(d, i, WireType(d[i]), c + rest, st);
  }

  /** A packed record stores all its elements. */
  lemma {:induction false} PackedFills(d: Desc, i: nat, p: seq<Byte>, k: nat, chunks: seq<seq<Byte>>, vs: seq<Value>,
      rest: seq<Byte>, st: DState)
    requires i < |d| && |st.m| == |d| && ArrayReady(d, i, st) && Packable(d[i])
    requires LengthPrefix(p, k) && p[k..] == Concat(chunks) && Elements(d[i], chunks, vs)
    ensures DecField(d, i, WT_STRING, p + rest, st) ==
            match Filled(d, i, vs, st)
            case None => Bad
            case Some(st') => Next(st', |p|)
  {
    PrefixSplit(p, k, rest);
    assert (p + rest)[k..|p|] == p[k..];
    assert Delimited(p + rest) == Read(Concat(chunks), |p|);
    FieldArray(d, i, WT_STRING, p + rest, st);
    hide DecScalar, DecVarint32, DecPacked, DecField, Delimited, Store;
    if NextIndex(d, i, st).Some? {
      PackedReads(d[i], chunks, vs, Room(d[i], NextIndex(d, i, st).value));
    }
  }

  lemma {:induction false} SingleRuns(d: Desc, i: nat, kb: seq<Byte>, c: seq<Byte>, v: Value, more: seq<Byte>,
      st: DState)
    requires i < |d| && |st.m| == |d| && ArrayReady(d, i, st) && FindTag(d, d[i].tag) == Some(i)
    requires IsKey(kb, d[i].tag, WireType(d[i])) && Element(d[i], c, v)
    ensures Run(d, kb + (c + more), st) ==
            match Filled(d, i, [v], st)
            case None => Refused
            case Some(st') => Shift(Run(d, more, st'), |kb| + |c|)
  {
    hide DecField, DecVarint32, FindTag, Filled, Element, ArrayReady, IsKey, DecStep;
    StepOfKey(d, kb, d[i].tag, WireType(d[i]), c + more, st);
    KeyThen(kb, d[i].tag, WireType(d[i]), c + more);
    KeyNonempty(kb, d[i].tag, WireType(d[i]));
    SingleFills(d, i, c, v, more, st);
    assert (kb + (c + more))[|kb| + |c|..] == more;
  }

  lemma {:induction false} SinglesFill(d: Desc, i: nat, kb: seq<Byte>, chunks: seq<seq<Byte>>, vs: seq<Value>,
      rest: seq<Byte>, st: DState)
    requires i < |d| && |st.m| == |d| && ArrayReady(d, i, st) && FindTag(d, d[i].tag) == Some(i)
    requires IsKey(kb, d[i].tag, WireType(d[i])) && Elements(d[i], chunks, vs)
    requires FixedCount(d[i]) ==> vs != []
    ensures Run(d, Singles(kb, chunks) + rest, st) ==
            match Filled(d, i, vs, st)
            case None => Refused
            case Some(st') => Shift(Run(d, rest, st'), |Singles(kb, chunks)|)
    decreases |vs|
  {
    hide FindTag, Filled, Element, ArrayReady, IsKey, Run;
    if vs == [] {
      assert Singles(kb, chunks) + rest == rest;
      FilledNone(d, i, st);
    } else {
      var c, v, more := chunks[0], vs[0], Singles(kb, chunks[1..]) + rest;
      assert Singles(kb, chunks) + rest == kb + (c + more);
      SingleRuns(d, i, kb, c, v, more, st);
      assert vs == [v] + vs[1..];
      FilledTwice(d, i, v, vs[1..], st);
      if Filled(d, i, [v], st).Some? {
        if vs[1..] == [] {
          assert more == rest;
          FilledFixedNone(d, i, v, st);
        } else {
          SinglesFill(d, i, kb, chunks[1..], vs[1..], rest, Filled(d, i, [v], st).value);
        }
      }
    }
  }

  lemma {:induction false} KeyNonempty(kb: seq<Byte>, tag: nat, wt: nat)
    requires IsKey(kb, tag, wt)
    ensures |kb| > 0
  {
  }

  lemma {:induction false} FilledNone(d: Desc, i: nat, st: DState)
    requires i < |d| && |st.m| == |d| && ArrayReady(d, i, st) && !FixedCount(d[i])
    ensures Filled(d, i, [], st) == Some(st)
  {
    assert st.m[Leader(d, i) := st.m[Leader(d, i)]] == st.m;
  }

  lemma {:induction false} FilledFixedNone(d: Desc, i: nat, v: Value, st: DState)
    requires i < |d| && |st.m| == |d| && ArrayReady(d, i, st) && Filled(d, i, [v], st).Some?
    ensures Filled(d, i, [], Filled(d, i, [v], st).value) == Filled(d, i, [v], st)
  {
    var st' := Filled(d, i, [v], st).value;
    assert st'.m[Leader(d, i) := st'.m[Leader(d, i)]] == st'.m;
  }

  /**
   * One packed record of n elements and n single records have the same effect: the loop refuses
   * both when the array cannot take n more elements, and otherwise goes on from the same state.
   * For n = 0 that is so exactly when an empty packed record changes nothing, which is to say,
   * unless it starts a fixed-count array: no record at all does not.
   */
  lemma {:induction false} PackedEqualsUnpacked(d: Desc, i: nat, ks: seq<Byte>, kp: seq<Byte>, p: seq<Byte>, k: nat,
                             chunks: seq<seq<Byte>>, vs: seq<Value>, rest: seq<Byte>, st: DState)
    requires i < |d| && |st.m| == |d| && ArrayReady(d, i, st) && Packable(d[i]) && FindTag(d, d[i].tag) == Some(i)
    requires IsKey(ks, d[i].tag, WireType(d[i])) && IsKey(kp, d[i].tag, WT_STRING)
    requires LengthPrefix(p, k) && p[k..] == Concat(chunks) && Elements(d[i], chunks, vs)
    ensures var filled := Filled(d, i, vs, st);
            && (filled.Some? <==> NextIndex(d, i, st).Some? && NextIndex(d, i, st).value + |vs| <= d[i].arraySize)
            && Run(d, kp + p + rest, st) == AfterFilling(d, filled, rest, |kp| + |p|)
            && (vs != [] ==>
                  Run(d, Singles(ks, chunks) + rest, st) == AfterFilling(d, filled, rest, |Singles(ks, chunks)|))
            && (vs == [] ==> Run(d, Singles(ks, chunks) + rest, st) == Run(d, rest, st))
            && (vs == [] ==> (filled == Some(st) <==> !FixedCount(d[i]) || st.fixed == Some(i)))
  {
    hide Run, Element, IsKey;
    PackedRuns(d, i, kp, p, k, chunks, vs, rest, st);
    if vs == [] {
      assert Singles(ks, chunks) + rest == rest;
      FilledWithNothing(d, i, st);
    } else {
      SinglesFill(d, i, ks, chunks, vs, rest, st);
    }
  }

  /** The rest of a run once an array has been filled, or the record refused. */
  function AfterFilling(d: Desc, filled: Option<DState>, rest: seq<Byte>, used: nat): Outcome
    requires filled.Some? ==> |filled.value.m| == |d|
  {
    if filled.None? then Refused else Shift(Run(d, rest, filled.value), used)
  }

  lemma {:induction false} FilledWithNothing(d: Desc, i: nat, st: DState)
    requires i < |d| && |st.m| == |d| && ArrayReady(d, i, st)
    ensures Filled(d, i, [], st) == Some(st) <==> !FixedCount(d[i]) || st.fixed == Some(i)
  {
    assert st.m[Leader(d, i) := st.m[Leader(d, i)]] == st.m;
  }

  /** An empty packed record starts an array of one number, which is then incomplete; no record does not. */
  lemma {:induction false} EmptyPackedRefused(v: Value)
    ensures DecodeNoinit([ONE_NUMBER], [10, 0], [Rep([v])]).Fail?
    ensures DecodeNoinit([ONE_NUMBER], [], [Rep([v])]) == Read([Rep([v])], 0)
  {
    hide DecField, DecVarint32Rest;
    var d, m := [ONE_NUMBER], [Rep([v])];
    var s, p: seq<Byte> := [10, 0], [0];
    assert d[0] == ONE_NUMBER && FindTag(d, 1) == Some(0);
    assert DecVarint32(s) == Read(10, 1) && s[1..] == p;
    EmptyPackedField(v);
    assert DecKeyed(d, 10, p, Start(m)) == DecField(d, 0, 2, p, Start(m));
    var st := DState(m, Some(0), 0, {});
    assert DecStep(d, s, Start(m)) == Next(st, 2) && s[2..] == [];
    assert Run(d, [], st) == Done(st, 0) && Run(d, s, Start(m)) == Done(st, 2);
    assert RequiredBefore(d, 1) == RequiredBefore(d, 0) == 0;
    assert Run(d, [], Start(m)) == Done(Start(m), 0);
  }

  lemma {:induction false} EmptyPackedField(v: Value)
    ensures DecField([ONE_NUMBER], 0, WT_STRING, [0], Start([Rep([v])])) == Next(DState([Rep([v])], Some(0), 0, {}), 1)
  {
    var p: seq<Byte> := [0];
    assert DecVarint32(p) == Read(0, 1) && p[1..1] == [];
    assert Delimited(p) == Read([], 1);
    hide Delimited, DecVarint32;
    assert DecRepeated(ONE_NUMBER, WT_STRING, p, [v], 0) == Read([], 1);
    hide DecRepeated;
    assert DecSlot(ONE_NUMBER, WT_STRING, p, Rep([v]), 0) == Read(Stored(Rep([v]), 0), 1);
    assert Leader([ONE_NUMBER], 0) == 0 && [Rep([v])][0 := Rep([v])] == [Rep([v])];
  }

  lemma {:induction false} PackedRuns(d: Desc, i: nat, kp: seq<Byte>, p: seq<Byte>, k: nat, chunks: seq<seq<Byte>>,
      vs: seq<Value>, rest: seq<Byte>, st: DState)
    requires i < |d| && |st.m| == |d| && ArrayReady(d, i, st) && Packable(d[i]) && FindTag(d, d[i].tag) == Some(i)
    requires IsKey(kp, d[i].tag, WT_STRING)
    requires LengthPrefix(p, k) && p[k..] == Concat(chunks) && Elements(d[i], chunks, vs)
    ensures Run(d, kp + p + rest, st) ==
            match Filled(d, i, vs, st)
            case None => Refused
            case Some(st') => Shift(Run(d, rest, st'), |kp| + |p|)
  {
    hide DecField, DecVarint32, FindTag, Filled, DecScalar, ArrayReady, DecStep, LengthPrefix, Elements, IsKey;
    assert kp + p + rest == kp + (p + rest);
    StepOfKey(d, kp, d[i].tag, WT_STRING, p + rest, st);
    KeyThen(kp, d[i].tag, WT_STRING, p + rest);
    PackedFills(d, i, p, k, chunks, vs, rest, st);
    assert (kp + p + rest)[|kp| + |p|..] == rest;
    KeyNonempty(kp, d[i].tag, WT_STRING);
  }
}
