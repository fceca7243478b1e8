/** The merge law: decoding two byte strings in turn against decoding them joined. */
module Merging {
  import opened Basics
  import opened Varint
  import opened Descriptors
  import opened Scalars
  import opened Decoding
  import opened Framing
  import opened WireRecords

  /** The entry a record at the front of s addresses. */
  function Target(d: Desc, s: seq<Byte>): (r: Option<nat>)
    ensures r.Some? ==> r.value < |d|
  {
    match DecVarint32(s)
    case Fail => None
    case Read(key, _) => if key == 0 || d == [] then None else FindTag(d, key / 8)
  }

  predicate TargetsFixed(d: Desc, s: seq<Byte>) {
    Target(d, s).Some? && FixedCount(d[Target(d, s).value])
  }

  /** The first fixed-count array that the records of s address, if the loop gets that far. */
  function FirstFixed(d: Desc, s: seq<Byte>, st: DState): Option<nat>
    requires |st.m| == |d|
    decreases |s|
  {
    if s == [] then None
    else if TargetsFixed(d, s) then Target(d, s)
    else
      match DecStep(d, s, st)
      case Next(st', n) => FirstFixed(d, s[n..], st')
      case _ => None
  }

  /** The last fixed-count array that the records of s address. */
  function LastFixed(d: Desc, s: seq<Byte>, st: DState): Option<nat>
    requires |st.m| == |d|
    decreases |s|
  {
    if s == [] then None
    else
      match DecStep(d, s, st)
      case Next(st', n) =>
        var later := LastFixed(d, s[n..], st');
        if later.Some? then later else if TargetsFixed(d, s) then Target(d, s) else None
      case _ => None
  }

  // -------------------------------------------------- one turn in two states

  /** The same message, and at least the same required fields seen. */
  predicate Ahead(st: DState, st': DState) {
    st'.m == st.m && st.seen <= st'.seen
  }

  predicate StepAhead(r: Step, r': Step) {
    match r
    case Bad => r'.Bad?
    case Stop(n) => r' == r
    case Next(x, n) => r'.Next? && r'.used == n && Ahead(x, r'.st)
  }

  lemma {:induction false} FieldPlain(d: Desc, i: nat, wt: nat, s: seq<Byte>, st: DState, st': DState)
    requires i < |d| && |st.m| == |d| && !FixedCount(d[i]) && Ahead(st, st')
    ensures var r, r' := DecField(d, i, wt, s, st), DecField(d, i, wt, s, st');
            && StepAhead(r, r')
            && (r.Next? ==> r.st.fixed == st.fixed && r.st.count == st.count)
            && (r.Next? ==> r'.st.fixed == st'.fixed && r'.st.count == st'.count)
  {
    hide DecSlot;
    SlotCountFree(d[i], wt, s, st.m[Leader(d, i)], st.count, st'.count);
  }

  /** A record of anything but a fixed-count array does the same in both states. */
  lemma {:induction false} StepPlain(d: Desc, s: seq<Byte>, st: DState, st': DState)
    requires |st.m| == |d| && !TargetsFixed(d, s) && Ahead(st, st')
    ensures var r, r' := DecStep(d, s, st), DecStep(d, s, st');
            && StepAhead(r, r')
            && (r.Next? ==> r.st.fixed == st.fixed && r.st.count == st.count)
            && (r.Next? ==> r'.st.fixed == st'.fixed && r'.st.count == st'.count)
  {
    hide DecField, DecVarint32;
    match DecVarint32(s)
    case Fail =>
    case Read(key, k) =>
      if key != 0 && d != [] && FindTag(d, key / 8).Some? {
        FieldPlain(d, FindTag(d, key / 8).value, key % 8, s[k..], st, st');
      }
  }

  /** The element count a fixed-count array starts or goes on with; None when another is unfinished. */
  function Enter(d: Desc, i: nat, fixed: Option<nat>, count: nat): Option<nat>
    requires i < |d|
  {
    if fixed == Some(i) then Some(count)
    else if fixed.Some? && fixed.value < |d| && count != d[fixed.value].arraySize then None
    else Some(0)
  }

  lemma {:induction false} FieldFixed(d: Desc, i: nat, wt: nat, s: seq<Byte>, st: DState)
    requires i < |d| && |st.m| == |d| && FixedCount(d[i])
    ensures DecField(d, i, wt, s, st) ==
            match Enter(d, i, st.fixed, st.count)
            case None => Bad
            case Some(c) =>
              match DecSlot(d[i], wt, s, st.m[Leader(d, i)], c)
              case Fail => Bad
              case Read(x, n) => Next(DState(st.m[Leader(d, i) := x.slot], Some(i), x.count, st.seen), n)
  {
    hide DecSlot;
  }

  lemma {:induction false} StepOfTarget(d: Desc, s: seq<Byte>, st: DState)
    requires |st.m| == |d| && Target(d, s).Some?
    ensures DecVarint32(s).Read?
    ensures var k := DecVarint32(s).used;
            DecStep(d, s, st) ==
            match DecField(d, Target(d, s).value, DecVarint32(s).val % 8, s[k..], st)
            case Bad => Bad
            case Next(st', n) => Next(st', k + n)
  {
    hide DecField, DecVarint32;
  }

  /** A record of a fixed-count array: only the count it enters with matters. */
  lemma {:induction false} StepFixed(d: Desc, s: seq<Byte>, st: DState, st': DState)
    requires |st.m| == |d| && TargetsFixed(d, s) && Ahead(st, st')
    ensures var i := Target(d, s).value;
            var r, r' := DecStep(d, s, st), DecStep(d, s, st');
            && (r.Next? ==> r.st.fixed == Some(i))
            && (r'.Next? ==> r'.st.fixed == Some(i))
            && (Enter(d, i, st.fixed, st.count) == Enter(d, i, st'.fixed, st'.count) ==>
                  StepAhead(r, r') && (r.Next? ==> r'.st.count == r.st.count))
            && !r.Stop? && !r'.Stop?
  {
    hide DecStep, DecField, Target, Enter, DecVarint32, DecSlot;
    StepOfTarget(d, s, st);
    StepOfTarget(d, s, st');
    var i, wt, k := Target(d, s).value, DecVarint32(s).val % 8, DecVarint32(s).used;
    FieldFixed(d, i, wt, s[k..], st);
    FieldFixed(d, i, wt, s[k..], st');
  }

  /** The same record entering with no elements and with a full array. */
  lemma {:induction false} StepFull(d: Desc, s: seq<Byte>, st: DState, st': DState)
    requires |st.m| == |d| && TargetsFixed(d, s) && Ahead(st, st')
    requires Enter(d, Target(d, s).value, st.fixed, st.count) == Some(0)
    requires Enter(d, Target(d, s).value, st'.fixed, st'.count) == Some(d[Target(d, s).value].arraySize)
    ensures var i := Target(d, s).value;
            var r, r' := DecStep(d, s, st), DecStep(d, s, st');
            r.Next? ==>
              if r.st.count == 0 then StepAhead(r, r') && r'.Next? && r'.st.count == d[i].arraySize
              else r'.Bad?
  {
    hide DecStep, DecField, Target, Enter, DecVarint32, DecSlot;
    StepOfTarget(d, s, st);
    StepOfTarget(d, s, st');
    var i, wt, k := Target(d, s).value, DecVarint32(s).val % 8, DecVarint32(s).used;
    FieldFixed(d, i, wt, s[k..], st);
    FieldFixed(d, i, wt, s[k..], st');
    SlotFull(d[i], wt, s[k..], st.m[Leader(d, i)]);
  }

  lemma {:induction false} SlotFull(f: Field, wt: nat, s: seq<Byte>, slot: Slot)
    requires FixedCount(f)
    ensures var r, r' := DecSlot(f, wt, s, slot, 0), DecSlot(f, wt, s, slot, f.arraySize);
            r.Read? ==>
              if r.val.count == 0 then r' == Read(Stored(r.val.slot, f.arraySize), r.used) else r'.Fail?
  {
    hide DecItem, DecScalar;
  }

  // ----------------------------------------------------- the loop in two states

  /** Same array, same count: the loop does the same. */
  lemma {:induction false} RunSame(d: Desc, s: seq<Byte>, st: DState, st': DState)
    requires |st.m| == |d| && Ahead(st, st') && st.fixed == st'.fixed && st.count == st'.count
    ensures var r, r' := Run(d, s, st), Run(d, s, st');
            if r.Refused? then r'.Refused?
            else
              && r'.Done? && r'.used == r.used && Ahead(r.st, r'.st)
              && r'.st.fixed == r.st.fixed && r'.st.count == r.st.count
    decreases |s|
  {
    hide DecStep, Target, Enter;
    if s != [] {
      if TargetsFixed(d, s) {
        StepFixed(d, s, st, st');
      } else {
        StepPlain(d, s, st, st');
      }
      if DecStep(d, s, st).Next? {
        RunSame(d, s[DecStep(d, s, st).used..], DecStep(d, s, st).st, DecStep(d, s, st').st);
      }
    }
  }

  /** A finished array that s does not take up again makes no difference. */
  lemma {:induction false} RunFresh(d: Desc, s: seq<Byte>, st: DState, st': DState)
    requires |st.m| == |d| && Ahead(st, st') && st.fixed == None && FixedComplete(d, st')
    requires st'.fixed.Some? ==> FirstFixed(d, s, st) != st'.fixed
    ensures var r, r' := Run(d, s, st), Run(d, s, st');
            if r.Refused? then r'.Refused?
            else
              && r'.Done? && r'.used == r.used && Ahead(r.st, r'.st)
              && (FixedComplete(d, r.st) ==> FixedComplete(d, r'.st))
    decreases |s|
  {
    hide DecStep, Target;
    if s != [] {
      if TargetsFixed(d, s) {
        StepFixed(d, s, st, st');
        if DecStep(d, s, st).Next? {
          RunSame(d, s[DecStep(d, s, st).used..], DecStep(d, s, st).st, DecStep(d, s, st').st);
        }
      } else {
        StepPlain(d, s, st, st');
        if DecStep(d, s, st).Next? {
          RunFresh(d, s[DecStep(d, s, st).used..], DecStep(d, s, st).st, DecStep(d, s, st').st);
        }
      }
    }
  }

  /** Going on with an array that is already full: what completes it alone overflows it here. */
  lemma {:induction false} RunFull(d: Desc, s: seq<Byte>, st: DState, st': DState, i: nat)
    requires i < |d| && |st.m| == |d| && Ahead(st, st') && d[i].arraySize > 0
    requires st.fixed == Some(i) && st.count == 0
    requires st'.fixed == Some(i) && st'.count == d[i].arraySize
    requires Run(d, s, st).Done? && FixedComplete(d, Run(d, s, st).st)
    ensures Run(d, s, st').Refused?
    decreases |s|
  {
    hide DecStep, Target;
    if TargetsFixed(d, s) && Target(d, s) == Some(i) {
      StepFixed(d, s, st, st');
      StepFull(d, s, st, st');
    } else if TargetsFixed(d, s) {
      StepUnfinished(d, s, st);
    } else {
      StepPlain(d, s, st, st');
    }
    if DecStep(d, s, st).Next? && DecStep(d, s, st').Next? {
      RunFull(d, s[DecStep(d, s, st).used..], DecStep(d, s, st).st, DecStep(d, s, st').st, i);
    }
  }

  /** Starting another array while one is unfinished is refused. */
  lemma {:induction false} StepUnfinished(d: Desc, s: seq<Byte>, st: DState)
    requires |st.m| == |d| && TargetsFixed(d, s) && Enter(d, Target(d, s).value, st.fixed, st.count) == None
    ensures DecStep(d, s, st).Bad?
  {
    hide DecStep, DecField, Target, Enter, DecVarint32, DecSlot;
    StepOfTarget(d, s, st);
    FieldFixed(d, Target(d, s).value, DecVarint32(s).val % 8, s[DecVarint32(s).used..], st);
  }

  lemma {:induction false} RunContinued(d: Desc, s: seq<Byte>, st: DState, st': DState, i: nat)
    requires i < |d| && |st.m| == |d| && Ahead(st, st') && d[i].arraySize > 0
    requires st.fixed == None && FirstFixed(d, s, st) == Some(i)
    requires st'.fixed == Some(i) && st'.count == d[i].arraySize
    requires Run(d, s, st).Done? && FixedComplete(d, Run(d, s, st).st)
    ensures Run(d, s, st').Refused?
    decreases |s|
  {
    hide DecStep, Target;
    if TargetsFixed(d, s) {
      StepFixed(d, s, st, st');
      StepFull(d, s, st, st');
      if DecStep(d, s, st').Next? {
        RunFull(d, s[DecStep(d, s, st).used..], DecStep(d, s, st).st, DecStep(d, s, st').st, i);
      }
    } else {
      StepPlain(d, s, st, st');
      RunContinued(d, s[DecStep(d, s, st).used..], DecStep(d, s, st).st, DecStep(d, s, st').st, i);
    }
  }

  // ------------------------------------------------------------ the merge law

  /** Whether the first fixed-count array that b addresses is the last one that a does. */
  predicate Resumes(d: Desc, a: seq<Byte>, b: seq<Byte>, m: Msg)
    requires |m| == |d| && Records(d, a, Start(m)).Some?
  {
    var last := LastFixed(d, a, Start(m));
    last.Some? && FirstFixed(d, b, Start(Records(d, a, Start(m)).value.m)) == last
  }

  /** The array the decoder is filling after whole records is the last one they address. */
  lemma {:induction false} FixedIsLast(d: Desc, s: seq<Byte>, st: DState)
    requires |st.m| == |d| && Records(d, s, st).Some?
    ensures Records(d, s, st).value.fixed == if LastFixed(d, s, st).Some? then LastFixed(d, s, st) else st.fixed
    decreases |s|
  {
    hide DecStep, Target;
    if s != [] {
      if TargetsFixed(d, s) {
        StepFixed(d, s, st, st);
      } else {
        StepPlain(d, s, st, st);
      }
      FixedIsLast(d, s[DecStep(d, s, st).used..], DecStep(d, s, st).st);
    }
  }

  predicate ArraysNonempty(d: Desc) {
    forall i :: 0 <= i < |d| && FixedCount(d[i]) ==> d[i].arraySize > 0
  }

  /**
   * If a decodes without reaching a zero key, and b then decodes into the same structure, one
   * decode of a followed by b succeeds exactly when b does not resume the fixed-count array a
   * ended with, and then it leaves the same message.
   */
  lemma {:induction false} MergeLaw(d: Desc, a: seq<Byte>, b: seq<Byte>, m: Msg)
    requires |m| == |d| && ArraysNonempty(d)
    requires Records(d, a, Start(m)).Some? && DecodeNoinit(d, a, m).Read?
    requires DecodeNoinit(d, b, DecodeNoinit(d, a, m).val).Read?
    ensures DecodeNoinit(d, a + b, m).Read? <==> !Resumes(d, a, b, m)
    ensures !Resumes(d, a, b, m) ==>
              var rb := DecodeNoinit(d, b, DecodeNoinit(d, a, m).val);
              DecodeNoinit(d, a + b, m) == Read(rb.val, |a| + rb.used)
  {
    hide Run, Records, FirstFixed, LastFixed;
    FixedIsLast(d, a, Start(m));
    RecordsIsRun(d, a, Start(m));
    RunAfterRecords(d, a, b, Start(m));
    var st := Records(d, a, Start(m)).value;
    RecordsFixed(d, a, Start(m));
    if Resumes(d, a, b, m) {
      RunContinued(d, b, Start(st.m), st, st.fixed.value);
    } else {
      RunFresh(d, b, Start(st.m), st);
    }
  }

  predicate FixedListed(d: Desc, st: DState) {
    st.fixed.Some? ==> st.fixed.value < |d| && FixedCount(d[st.fixed.value])
  }

  /** The array being filled is always a fixed-count entry of the descriptor. */
  lemma {:induction false} RecordsFixed(d: Desc, s: seq<Byte>, st: DState)
    requires |st.m| == |d| && FixedListed(d, st) && Records(d, s, st).Some?
    ensures FixedListed(d, Records(d, s, st).value)
    decreases |s|
  {
    hide DecStep, Target;
    if s != [] {
      if TargetsFixed(d, s) {
        StepFixed(d, s, st, st);
      } else {
        StepPlain(d, s, st, st);
      }
      RecordsFixed(d, s[DecStep(d, s, st).used..], DecStep(d, s, st).st);
    }
  }

  /** Without fixed-count arrays the merge law holds outright. */
  lemma {:induction false} MergeWithoutFixed(d: Desc, a: seq<Byte>, b: seq<Byte>, m: Msg)
    requires |m| == |d| && forall i :: 0 <= i < |d| ==> !FixedCount(d[i])
    requires Records(d, a, Start(m)).Some? && DecodeNoinit(d, a, m).Read?
    requires DecodeNoinit(d, b, DecodeNoinit(d, a, m).val).Read?
    ensures var rb := DecodeNoinit(d, b, DecodeNoinit(d, a, m).val);
            DecodeNoinit(d, a + b, m) == Read(rb.val, |a| + rb.used)
  {
    hide DecodeNoinit, Records, FirstFixed, LastFixed;
    RecordsFixed(d, a, Start(m));
    FixedIsLast(d, a, Start(m));
    MergeLaw(d, a, b, m);
  }

  /** A fixed-count array of one four-byte number. */
  const ONE_NUMBER := Field(1, LUvarint, Repeated, Static, 0, 0, 4, 1, Null)

  /** The record [8, 7] decodes, and decodes again into the same structure, but not twice in one input. */
  lemma {:induction false} JoinedRefused(v: Value)
    ensures var d, m := [ONE_NUMBER], [Rep([v])];
            && DecodeNoinit(d, [8, 7], m) == Read([Rep([VInt(7)])], 2)
            && DecodeNoinit(d, [8, 7], [Rep([VInt(7)])]) == Read([Rep([VInt(7)])], 2)
            && Records(d, [8, 7], Start(m)).Some? && Resumes(d, [8, 7], [8, 7], m)
            && DecodeNoinit(d, [8, 7] + [8, 7], m).Fail?
  {
    hide DecodeNoinit, Records, FirstFixed, LastFixed, DecStep;
    var d, m := [ONE_NUMBER], [Rep([v])];
    OneNumberStep(v);
    OneNumberStep(VInt(7));
    OneNumberAlone(v);
    OneNumberAlone(VInt(7));
    MergeLaw(d, [8, 7], [8, 7], m);
  }

  lemma {:induction false} OneNumberStep(v: Value)
    ensures var d := [ONE_NUMBER];
            && Target(d, [8, 7]) == Some(0) && TargetsFixed(d, [8, 7])
            && DecStep(d, [8, 7], Start([Rep([v])])) == Next(DState([Rep([VInt(7)])], Some(0), 1, {}), 2)
  {
    var d, st := [ONE_NUMBER], Start([Rep([v])]);
    var s: seq<Byte> := [8, 7];
    assert d[0] == ONE_NUMBER && FindTag(d, 1) == Some(0) && Leader(d, 0) == 0;
    assert DecVarint32(s) == Read(8, 1) && s[1..] == [7];
    OneNumberField(v);
    hide DecField;
    assert DecKeyed(d, 8, [7], st) == DecField(d, 0, 0, [7], st);
  }

  lemma {:induction false} OneNumberField(v: Value)
    ensures DecField([ONE_NUMBER], 0, 0, [7], Start([Rep([v])])) == Next(DState([Rep([VInt(7)])], Some(0), 1, {}), 1)
  {
    var s: seq<Byte> := [7];
    assert VarintLen(s) == 1 && s[..1] == [7] && VarintVal([7]) == 7;
    assert DecVarint(s) == Read(7, 1);
    assert DecScalar(ONE_NUMBER, s) == Read(VInt(7), 1);
    hide DecScalar, DecVarint;
    assert DecRepeated(ONE_NUMBER, 0, s, [v], 0) == Read([VInt(7)], 1);
    assert Store(ONE_NUMBER, [v], 0, [VInt(7)]) == [VInt(7)];
    hide DecRepeated, Store;
    assert DecSlot(ONE_NUMBER, 0, s, Rep([v]), 0) == Read(Stored(Rep([VInt(7)]), 1), 1);
  }

  lemma {:induction false} OneNumberAlone(v: Value)
    requires DecStep([ONE_NUMBER], [8, 7], Start([Rep([v])])) == Next(DState([Rep([VInt(7)])], Some(0), 1, {}), 2)
    requires Target([ONE_NUMBER], [8, 7]) == Some(0) && TargetsFixed([ONE_NUMBER], [8, 7])
    ensures DecodeNoinit([ONE_NUMBER], [8, 7], [Rep([v])]) == Read([Rep([VInt(7)])], 2)
    ensures Records([ONE_NUMBER], [8, 7], Start([Rep([v])])) == Some(DState([Rep([VInt(7)])], Some(0), 1, {}))
    ensures LastFixed([ONE_NUMBER], [8, 7], Start([Rep([v])])) == Some(0)
    ensures FirstFixed([ONE_NUMBER], [8, 7], Start([Rep([v])])) == Some(0)
  {
    hide DecStep, Target, TargetsFixed;
    var d, m := [ONE_NUMBER], [Rep([v])];
    var s: seq<Byte> := [8, 7];
    var st := DState([Rep([VInt(7)])], Some(0), 1, {});
    assert s[2..] == [];
    assert Run(d, [], st) == Done(st, 0) && Records(d, [], st) == Some(st) && LastFixed(d, [], st) == None;
    assert Run(d, s, Start(m)) == Done(st, 2);
    assert RequiredBefore(d, 1) == RequiredBefore(d, 0) == 0;
  }

  /**
   * "Last One Wins" for submessages: two occurrences of a singular submessage read like one
   * whose payload is the two joined.
   */
  lemma {:induction false} SubmessagesMerge(f: Field, p: seq<Byte>, q: seq<Byte>, base: Value, t: seq<Byte>)
    requires f.ltype.LSubmessage? && f.ptr.Sub? && ArraysNonempty(f.ptr.fields) && |p + q| < TWO_32
    requires base.VMsg? && |base.m| == |f.ptr.fields|
    requires Records(f.ptr.fields, p, Start(base.m)).Some?
    requires DecItem(f, Delimit(p), base).Read?
    requires DecItem(f, Delimit(q), DecItem(f, Delimit(p), base).val).Read?
    ensures Resumes(f.ptr.fields, p, q, base.m) ==> DecItem(f, Delimit(p + q) + t, base).Fail?
    ensures !Resumes(f.ptr.fields, p, q, base.m) ==>
              DecItem(f, Delimit(p + q) + t, base) ==
                  Read(DecItem(f, Delimit(q), DecItem(f, Delimit(p), base).val).val, |Delimit(p + q)|)
  {
    hide Delimit, Delimited, DecodeNoinit, Resumes, Records;
    DelimitRoundTrip(p, []);
    DelimitRoundTrip(q, []);
    DelimitRoundTrip(p + q, t);
    assert Delimit(p) + [] == Delimit(p) && Delimit(q) + [] == Delimit(q);
    MergeLaw(f.ptr.fields, p, q, base.m);
  }
}
