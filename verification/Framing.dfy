/** Framing: a record is decoded from its own bytes alone, so decoding splits at record boundaries. */
module Framing {
  import opened Basics
  import opened Varint
  import opened Descriptors
  import opened Scalars
  import opened Decoding

  // ---------------------------------------------------------------- locality

  lemma {:induction false} SkipLocal(wt: nat, s: seq<Byte>, t: seq<Byte>)
    requires Skip(wt, s).Some?
    ensures Skip(wt, s[..Skip(wt, s).value] + t) == Skip(wt, s)
  {
    if wt == WT_VARINT {
      VarintLenLocal(s, t);
    } else if wt == WT_STRING {
      DelimitedLocal(s, t);
    }
  }

  lemma {:induction false} DecItemLocal(f: Field, s: seq<Byte>, base: Value, t: seq<Byte>)
    requires DecItem(f, s, base).Read?
    ensures DecItem(f, s[..DecItem(f, s, base).used] + t, base) == DecItem(f, s, base)
  {
    if f.ltype.LSubmessage? {
      DelimitedLocal(s, t);
    } else {
      DecScalarLocal(f, s, t);
    }
  }

  lemma {:induction false} DecRepeatedLocal(f: Field, wt: nat, s: seq<Byte>, items: seq<Value>, count: nat,
      t: seq<Byte>)
    requires DecRepeated(f, wt, s, items, count).Read?
    ensures DecRepeated(f, wt, s[..DecRepeated(f, wt, s, items, count).used] + t, items, count) ==
            DecRepeated(f, wt, s, items, count)
  {
    if TakenPacked(f, wt) {
      DelimitedLocal(s, t);
    } else {
      DecItemLocal(f, s, BlankValue(f), t);
    }
  }

  lemma {:induction false} DecSlotLocal(f: Field, wt: nat, s: seq<Byte>, slot: Slot, count: nat, t: seq<Byte>)
    requires DecSlot(f, wt, s, slot, count).Read?
    ensures DecSlot(f, wt, s[..DecSlot(f, wt, s, slot, count).used] + t, slot, count) == DecSlot(f, wt, s, slot, count)
  {
    if f.htype.Repeated? {
      DecRepeatedLocal(f, wt, s, slot.items, if FixedCount(f) then count else |slot.items|, t);
    } else {
      DecItemLocal(f, s, Base(f, slot), t);
    }
  }

  lemma {:induction false} DecKeyedLocal(d: Desc, key: nat, s: seq<Byte>, st: DState, t: seq<Byte>)
    requires |st.m| == |d| && DecKeyed(d, key, s, st).Next?
    ensures DecKeyed(d, key, s[..DecKeyed(d, key, s, st).used] + t, st) == DecKeyed(d, key, s, st)
  {
    if d == [] && key / 8 == 0 {
      DecVarint32Local(s, t);
    } else {
      match FindTag(d, key / 8)
      case Some(i) =>
        DecSlotLocal(d[i], key % 8, s, st.m[Leader(d, i)], Prepare(d, i, st).value.count, t);
      case None =>
        SkipLocal(key % 8, s, t);
    }
  }

  /** One turn of the loop reads no further than the record it handles. */
  lemma {:induction false} DecStepLocal(d: Desc, s: seq<Byte>, st: DState, t: seq<Byte>)
    requires |st.m| == |d| && DecStep(d, s, st).Next?
    ensures DecStep(d, s[..DecStep(d, s, st).used] + t, st) == DecStep(d, s, st)
  {
    hide DecKeyed, DecVarint32;
    var n := DecStep(d, s, st).used;
    var k := DecVarint32(s).used;
    DecVarint32Local(s, s[k..n] + t);
    DecKeyedLocal(d, DecVarint32(s).val, s[k..], st, t);
    assert s[..n] + t == s[..k] + (s[k..n] + t);
    assert (s[..n] + t)[k..] == s[k..][..n - k] + t;
  }

  // ------------------------------------------------------------- whole records

  /** The state after s, when s is a run of whole records that are all accepted and none is a zero key. */
  function Records(d: Desc, s: seq<Byte>, st: DState): (r: Option<DState>)
    requires |st.m| == |d|
    ensures r.Some? ==> |r.value.m| == |d|
    decreases |s|
  {
    if s == [] then Some(st)
    else
      match DecStep(d, s, st)
      case Next(st', n) => Records(d, s[n..], st')
      case _ => None
  }

  function Shift(o: Outcome, n: nat): Outcome {
    match o
    case Refused => Refused
    case Done(st, used) => Done(st, used + n)
  }

  /** After a run of whole records, the loop goes on as if it had started in the state they leave. */
  lemma {:induction false} RunAfterRecords(d: Desc, a: seq<Byte>, b: seq<Byte>, st: DState)
    requires |st.m| == |d| && Records(d, a, st).Some?
    ensures Run(d, a + b, st) == Shift(Run(d, b, Records(d, a, st).value), |a|)
    decreases |a|
  {
    hide *;
    FirstRecord(d, a, b, st);
    if a == [] {
      assert a + b == b;
    } else {
      var r := DecStep(d, a, st);
      RunUnfold(d, a + b, st);
      RunAfterRecords(d, a[r.used..], b, r.st);
      ShiftTwice(Run(d, b, Records(d, a, st).value), |a| - r.used, r.used);
    }
  }

  /** The first of some whole records, with something behind them. */
  lemma {:induction false} FirstRecord(d: Desc, a: seq<Byte>, b: seq<Byte>, st: DState)
    requires |st.m| == |d| && Records(d, a, st).Some?
    ensures a == [] ==> Records(d, a, st).value == st && forall o :: Shift(o, 0) == o
    ensures a != [] ==>
              var r := DecStep(d, a, st);
              && r.Next? && 0 < r.used <= |a| && |r.st.m| == |d|
              && Records(d, a[r.used..], r.st) == Records(d, a, st)
              && DecStep(d, a + b, st) == r && (a + b)[r.used..] == a[r.used..] + b
  {
    hide DecStep;
    if a != [] {
      var n := DecStep(d, a, st).used;
      DecStepLocal(d, a, st, a[n..] + b);
      assert a + b == a[..n] + (a[n..] + b);
    }
  }

  lemma {:induction false} RunUnfold(d: Desc, s: seq<Byte>, st: DState)
    requires |st.m| == |d|
    ensures s != [] && DecStep(d, s, st).Next? ==>
              var r := DecStep(d, s, st); Run(d, s, st) == Shift(Run(d, s[r.used..], r.st), r.used)
  {
    hide DecStep;
  }

  lemma {:induction false} RecordsUnfold(d: Desc, s: seq<Byte>, st: DState)
    requires |st.m| == |d|
    ensures s != [] && DecStep(d, s, st).Next? ==>
              var r := DecStep(d, s, st); Records(d, s, st) == Records(d, s[r.used..], r.st)
  {
    hide DecStep;
  }

  lemma {:induction false} ShiftTwice(o: Outcome, k: nat, n: nat)
    ensures Shift(Shift(o, k), n) == Shift(o, k + n)
    ensures Shift(Refused, n) == Refused
  {
  }

  lemma {:induction false} RecordsAppend(d: Desc, a: seq<Byte>, b: seq<Byte>, st: DState)
    requires |st.m| == |d| && Records(d, a, st).Some?
    ensures Records(d, a + b, st) == Records(d, b, Records(d, a, st).value)
    decreases |a|
  {
    hide *;
    FirstRecord(d, a, b, st);
    if a == [] {
      assert a + b == b;
    } else {
      var r := DecStep(d, a, st);
      RecordsUnfold(d, a + b, st);
      RecordsAppend(d, a[r.used..], b, r.st);
    }
  }

  /** The loop reaches the end of s without a zero key exactly when s is a run of whole records. */
  lemma {:induction false} RecordsIsRun(d: Desc, s: seq<Byte>, st: DState)
    requires |st.m| == |d|
    ensures Records(d, s, st).Some? ==> Run(d, s, st) == Done(Records(d, s, st).value, |s|)
  {
    if Records(d, s, st).Some? {
      RunAfterRecords(d, s, [], st);
      assert s + [] == s;
    }
  }
}
