/** What an accepted input consists of, record by record, and what the message then holds. */
module Contents {
  import opened Basics
  import opened Varint
  import opened Descriptors
  import opened Scalars
  import opened WireForm
  import opened Decoding
  import opened Framing
  import opened WireRecords
  import opened Merging
  import opened Presence

  /** A record as it stands in the input: the bytes of its key and what comes behind them. */
  datatype Piece = Piece(key: seq<Byte>, tag: nat, wt: nat, payload: seq<Byte>)

  function Joined(ps: seq<Piece>): seq<Byte> {
    if ps == [] then [] else ps[0].key + ps[0].payload + Joined(ps[1..])
  }

  /**
   * How far the payload of a known field reaches: as its type says, and not as the wire type says,
   * except that a length-delimited record of an array of numbers is a packed array.
   */
  function FramedAs(f: Field, wt: nat): nat {
    if f.htype.Repeated? && wt == 2 then 2 else TypeNumber(f)
  }

  /** A whole record: a key, and a payload as long as the field, or the wire type, says. */
  ghost predicate Whole(d: Desc, p: Piece) {
    && IsKey(p.key, p.tag, p.wt)
    && match FindTag(d, p.tag)
       case Some(i) => WellFramed(FramedAs(d[i], p.wt), p.payload)
       case None => WellFramed(if d == [] && p.tag == 0 then 0 else p.wt, p.payload)
  }

  ghost predicate AllWhole(d: Desc, ps: seq<Piece>) {
    forall k :: 0 <= k < |ps| ==> Whole(d, ps[k])
  }

  // ------------------------------------------------------- what is read is whole

  lemma {:induction false} VarintWhole(s: seq<Byte>)
    requires VarintLen(s) > 0
    ensures WellFramed(0, s[..VarintLen(s)])
  {
    var n := VarintLen(s);
    if s[0] >= 128 {
      VarintWhole(s[1..]);
      var p, q := s[..n], s[1..][..n - 1];
      assert p == [s[0]] + q;
      assert p[..n - 1] == [s[0]] + q[..n - 2];
    }
  }

  lemma {:induction false} Varint32Whole(s: seq<Byte>)
    requires DecVarint32(s).Read?
    ensures WellFramed(0, s[..DecVarint32(s).used])
    ensures DecVarint32(s[..DecVarint32(s).used]) == DecVarint32(s)
  {
    hide DecVarint32, WellFramed;
    Varint32Used(s);
    VarintWhole(s);
    DecVarint32Local(s, []);
    assert s[..DecVarint32(s).used] + [] == s[..DecVarint32(s).used];
  }

  lemma {:induction false} LengthWhole(s: seq<Byte>)
    requires DecVarint32(s).Read? && DecVarint32(s).used + DecVarint32(s).val <= |s|
    ensures WellFramed(2, s[..DecVarint32(s).used + DecVarint32(s).val])
  {
    hide DecVarint32;
    var k := DecVarint32(s).used;
    var p := s[..k + DecVarint32(s).val];
    Varint32Whole(s);
    assert p[..k] == s[..k];
    assert LengthPrefix(p, k);
  }

  lemma {:induction false} ScalarWhole(f: Field, s: seq<Byte>)
    requires DecScalar(f, s).Read?
    ensures WellFramed(TypeNumber(f), s[..DecScalar(f, s).used])
  {
    hide DecVarint32, FromLittleEndian;
    match f.ltype
    case LBool => Varint32Whole(s);
    case LVarint | LUvarint | LSvarint => VarintWhole(s);
    case LFixed32 | LFixed64 =>
    case _ => LengthWhole(s);
  }

  lemma {:induction false} ItemWhole(f: Field, s: seq<Byte>, base: Value)
    requires DecItem(f, s, base).Read?
    ensures WellFramed(TypeNumber(f), s[..DecItem(f, s, base).used])
  {
    hide DecScalar, DecVarint32, DecodeNoinit;
    if f.ltype.LSubmessage? {
      LengthWhole(s);
    } else {
      ScalarWhole(f, s);
    }
  }

  lemma {:induction false} SlotWhole(f: Field, wt: nat, s: seq<Byte>, slot: Slot, count: nat)
    requires DecSlot(f, wt, s, slot, count).Read?
    ensures WellFramed(FramedAs(f, wt), s[..DecSlot(f, wt, s, slot, count).used])
  {
    hide DecItem, DecVarint32, DecPacked, WellFramed;
    if TakenPacked(f, wt) {
      LengthWhole(s);
    } else if f.htype.Repeated? {
      ItemWhole(f, s, BlankValue(f));
    } else {
      ItemWhole(f, s, Base(f, slot));
    }
  }

  lemma {:induction false} SkipWhole(wt: nat, s: seq<Byte>)
    requires Skip(wt, s).Some?
    ensures WellFramed(wt, s[..Skip(wt, s).value])
  {
    hide DecVarint32, VarintLen;
    if wt == 0 {
      VarintWhole(s);
    } else if wt == 2 {
      LengthWhole(s);
    }
  }

  /** pb_skip_field skips exactly one payload of the wire type, and fails if there is none whole. */
  lemma {:induction false} SkipExact(wt: nat, s: seq<Byte>, n: nat)
    ensures Skip(wt, s) == Some(n) <==> n <= |s| && WellFramed(wt, s[..n])
  {
    hide Skip, WellFramed;
    if n <= |s| && WellFramed(wt, s[..n]) {
      FramedSkip(wt, s[..n], s[n..]);
      assert s[..n] + s[n..] == s;
    } else if Skip(wt, s) == Some(n) {
      SkipWhole(wt, s);
    }
  }

  lemma {:induction false} KeyedWhole(d: Desc, key: nat, s: seq<Byte>, st: DState)
    requires |st.m| == |d| && DecKeyed(d, key, s, st).Next?
    ensures var p := s[..DecKeyed(d, key, s, st).used];
            match FindTag(d, key / 8)
            case Some(i) => WellFramed(FramedAs(d[i], key % 8), p)
            case None => WellFramed(if d == [] && key / 8 == 0 then 0 else key % 8, p)
  {
    hide DecSlot, Skip, DecVarint32, WellFramed, FramedAs;
    if d == [] && key / 8 == 0 {
      Varint32Whole(s);
    } else {
      match FindTag(d, key / 8)
      case Some(i) => SlotWhole(d[i], key % 8, s, st.m[Leader(d, i)], Prepare(d, i, st).value.count);
      case None => SkipWhole(key % 8, s);
    }
  }

  /** One turn of the loop takes a whole record. */
  lemma {:induction false} StepWhole(d: Desc, s: seq<Byte>, st: DState)
    requires |st.m| == |d| && DecStep(d, s, st).Next?
    ensures exists p: Piece :: Whole(d, p) && p.key + p.payload == s[..DecStep(d, s, st).used]
  {
    hide DecKeyed, DecVarint32, WellFramed, FindTag, FramedAs;
    var key, k, n := DecVarint32(s).val, DecVarint32(s).used, DecStep(d, s, st).used;
    Varint32Whole(s);
    KeyedWhole(d, key, s[k..], st);
    var p := Piece(s[..k], key / 8, key % 8, s[k..][..n - k]);
    assert p.key + p.payload == s[..n];
    assert Whole(d, p);
  }

  // ------------------------------------------------------------ what a record does

  /** The wire type of a record of a known field does not matter, except that it tells packed arrays. */
  lemma {:induction false} WireTypeIgnored(d: Desc, i: nat, wt: nat, wt': nat, s: seq<Byte>, st: DState)
    requires i < |d| && |st.m| == |d| && FramedAs(d[i], wt) == FramedAs(d[i], wt')
    ensures DecField(d, i, wt, s, st) == DecField(d, i, wt', s, st)
  {
    hide DecSlot, Prepare, FramedAs;
    if Prepare(d, i, st).Some? {
      SlotTypeIgnored(d[i], wt, wt', s, st.m[Leader(d, i)], Prepare(d, i, st).value.count);
    }
  }

  lemma {:induction false} SlotTypeIgnored(f: Field, wt: nat, wt': nat, s: seq<Byte>, slot: Slot, count: nat)
    requires FramedAs(f, wt) == FramedAs(f, wt')
    ensures DecSlot(f, wt, s, slot, count) == DecSlot(f, wt', s, slot, count)
  {
    hide DecItem, Delimited, DecPacked;
    if f.htype.Repeated? {
      assert TakenPacked(f, wt) == TakenPacked(f, wt');
    }
  }

  /** A record of entry i leaves the state its payload alone determines. */
  lemma {:induction false} FieldOfPayload(d: Desc, i: nat, wt: nat, p: seq<Byte>, rest: seq<Byte>, st: DState)
    requires i < |d| && |st.m| == |d| && WellFramed(FramedAs(d[i], wt), p)
    ensures DecField(d, i, wt, p + rest, st) ==
            match After(d, i, wt, p, st)
            case None => Bad
            case Some(st') => Next(st', |p|)
  {
    hide DecField, WellFramed;
    var wt' := FramedAs(d[i], wt);
    WireTypeIgnored(d, i, wt, wt', p + rest, st);
    WireTypeIgnored(d, i, wt, wt', p, st);
    FieldExact(d, i, wt', p, rest, st);
  }

  /** The state after a record: an unlisted one changes nothing. */
  function AfterPiece(d: Desc, p: Piece, st: DState): (r: Option<DState>)
    requires |st.m| == |d|
    ensures r.Some? ==> |r.value.m| == |d|
  {
    match FindTag(d, p.tag)
    case Some(i) => After(d, i, p.wt, p.payload, st)
    case None => if d == [] && p.tag == 0 && DecVarint32(p.payload).Fail? then None else Some(st)
  }

  lemma {:induction false} StepOfPiece(d: Desc, p: Piece, rest: seq<Byte>, st: DState)
    requires |st.m| == |d| && Whole(d, p)
    ensures |p.key| > 0
    ensures DecStep(d, p.key + (p.payload + rest), st) ==
            match AfterPiece(d, p, st)
            case None => Bad
            case Some(st') => Next(st', |p.key + p.payload|)
  {
    hide DecStep, DecField, After, WellFramed, DecVarint32, Skip, FramedAs;
    KeyThen(p.key, p.tag, p.wt, p.payload + rest);
    StepOfKey(d, p.key, p.tag, p.wt, p.payload + rest, st);
    match FindTag(d, p.tag)
    case Some(i) =>
      FieldOfPayload(d, i, p.wt, p.payload, rest, st);
    case None =>
      if d == [] && p.tag == 0 {
        SkippedBool(p.payload, rest);
      } else {
        FramedSkip(p.wt, p.payload, rest);
      }
  }

  /** The bool that tag 0 stands for in an empty message type. */
  lemma {:induction false} SkippedBool(p: seq<Byte>, rest: seq<Byte>)
    requires WellFramed(0, p)
    ensures DecVarint32(p + rest) == DecVarint32(p)
    ensures DecVarint32(p).Read? ==> DecVarint32(p).used == |p|
  {
    hide DecVarint32;
    FramedVarint(p, rest);
    FramedVarint(p, []);
    assert p + [] == p && p[..|p|] == p && (p + rest)[..|p|] == p;
    if DecVarint32(p).Read? {
      Varint32Used(p);
      DecVarint32Local(p, rest);
    } else if DecVarint32(p + rest).Read? {
      Varint32Used(p + rest);
      DecVarint32Local(p + rest, []);
    }
  }

  /** The state after several records. */
  function AfterAll(d: Desc, ps: seq<Piece>, st: DState): (r: Option<DState>)
    requires |st.m| == |d|
    ensures r.Some? ==> |r.value.m| == |d|
  {
    if ps == [] then Some(st)
    else
      match AfterPiece(d, ps[0], st)
      case None => None
      case Some(st') => AfterAll(d, ps[1..], st')
  }

  lemma {:induction false} RunPieces(d: Desc, ps: seq<Piece>, rest: seq<Byte>, st: DState)
    requires |st.m| == |d| && AllWhole(d, ps)
    ensures Run(d, Joined(ps) + rest, st) ==
            match AfterAll(d, ps, st)
            case None => Refused
            case Some(st') => Shift(Run(d, rest, st'), |Joined(ps)|)
  {
    hide DecStep, AfterPiece, Whole;
    if ps == [] {
      assert Joined(ps) + rest == rest;
    } else {
      var p, more := ps[0], Joined(ps[1..]) + rest;
      assert Joined(ps) + rest == p.key + (p.payload + more);
      assert (Joined(ps) + rest)[|p.key + p.payload|..] == more;
      StepOfPiece(d, p, more, st);
      if AfterPiece(d, p, st).Some? {
        RunPieces(d, ps[1..], rest, AfterPiece(d, p, st).value);
      }
    }
  }

  /** The input is a number of whole records, up to its end or up to a zero key. */
  ghost predicate Splits(d: Desc, s: seq<Byte>, ps: seq<Piece>, used: nat) {
    && AllWhole(d, ps) && Joined(ps) <= s && |Joined(ps)| <= used
    && var rest := s[|Joined(ps)|..];
       if rest == [] then used == |s| else DecVarint32(rest) == Read(0, used - |Joined(ps)|)
  }

  lemma {:induction false} RunOfSplit(d: Desc, s: seq<Byte>, ps: seq<Piece>, used: nat, st: DState)
    requires |st.m| == |d| && Splits(d, s, ps, used)
    ensures Run(d, s, st) ==
            match AfterAll(d, ps, st)
            case None => Refused
            case Some(st') => Done(st', used)
  {
    hide AfterAll, AllWhole;
    var rest := s[|Joined(ps)|..];
    assert s == Joined(ps) + rest;
    RunPieces(d, ps, rest, st);
  }

  lemma {:induction false} RunSplits(d: Desc, s: seq<Byte>, st: DState) returns (ps: seq<Piece>)
    requires |st.m| == |d| && Run(d, s, st).Done?
    ensures Splits(d, s, ps, Run(d, s, st).used)
    decreases |s|
  {
    hide DecStep, Whole;
    ps := [];
    if s != [] {
      match DecStep(d, s, st)
      case Stop(n) =>
        StopsAtZero(d, s, st);
      case Next(st', n) =>
        StepWhole(d, s, st);
        var p: Piece :| Whole(d, p) && p.key + p.payload == s[..n];
        var more := RunSplits(d, s[n..], st');
        ps := [p] + more;
        SplitsCons(d, s, n, p, more, Run(d, s[n..], st').used);
    }
  }

  lemma {:induction false} StopsAtZero(d: Desc, s: seq<Byte>, st: DState)
    requires |st.m| == |d| && DecStep(d, s, st).Stop?
    ensures DecVarint32(s) == Read(0, DecStep(d, s, st).used)
  {
    hide DecVarint32, DecKeyed;
  }

  lemma {:induction false} SplitsCons(d: Desc, s: seq<Byte>, n: nat, p: Piece, ps: seq<Piece>, used: nat)
    requires n <= |s| && Whole(d, p) && p.key + p.payload == s[..n] && Splits(d, s[n..], ps, used)
    ensures Splits(d, s, [p] + ps, n + used)
  {
    hide Whole, DecVarint32;
    var all := [p] + ps;
    assert all[1..] == ps;
    assert Joined(all) == s[..n] + Joined(ps);
    assert s == s[..n] + s[n..];
    assert s[|Joined(all)|..] == s[n..][|Joined(ps)|..];
  }

  /**
   * A decode succeeds exactly on inputs that consist of whole records, each of them accepted in its
   * turn, with the last fixed-count array complete and every tracked required field seen.
   */
  lemma {:induction false} AcceptedExactly(d: Desc, s: seq<Byte>, m: Msg)
    requires |m| == |d|
    ensures DecodeNoinit(d, s, m).Read? <==>
            exists ps, used: nat :: Splits(d, s, ps, used) &&
              var r := AfterAll(d, ps, Start(m));
              r.Some? && FixedComplete(d, r.value) && AllSeen(d, r.value)
  {
    hide Splits, AfterAll, FixedComplete, AllSeen;
    if DecodeNoinit(d, s, m).Read? {
      var ps := RunSplits(d, s, Start(m));
      RunOfSplit(d, s, ps, Run(d, s, Start(m)).used, Start(m));
    }
    forall ps, used: nat | Splits(d, s, ps, used)
      ensures Run(d, s, Start(m)) ==
              match AfterAll(d, ps, Start(m)) case None => Refused case Some(st) => Done(st, used)
    {
      RunOfSplit(d, s, ps, used, Start(m));
    }
  }

  // -------------------------------------------------------------- required fields

  /** One of the records is for entry i. */
  predicate Occurs(d: Desc, i: nat, ps: seq<Piece>) {
    exists k :: 0 <= k < |ps| && FindTag(d, ps[k].tag) == Some(i)
  }

  /** A required field with fewer than 64 others before it. */
  predicate AmongFirst(d: Desc, i: nat) {
    i < |d| && d[i].htype.Required? && |RequiredEntries(d, i)| < 64
  }

  lemma {:induction false} PieceSeen(d: Desc, p: Piece, st: DState)
    requires |st.m| == |d| && AfterPiece(d, p, st).Some?
    ensures AfterPiece(d, p, st).value.seen ==
            st.seen + match FindTag(d, p.tag) case Some(i) => Marks(d, i) case None => {}
  {
    hide DecField, FindTag, Marks, DecVarint32;
    match FindTag(d, p.tag)
    case Some(i) => FieldSeen(d, i, p.wt, p.payload, st);
    case None => assert st.seen + {} == st.seen;
  }

  lemma {:induction false} SeenIffOccurs(d: Desc, ps: seq<Piece>, st: DState, i: nat)
    requires |st.m| == |d| && AmongFirst(d, i) && AfterAll(d, ps, st).Some?
    ensures RequiredBefore(d, i) in AfterAll(d, ps, st).value.seen <==>
            RequiredBefore(d, i) in st.seen || Occurs(d, i, ps)
  {
    hide AfterPiece, FindTag, RequiredBefore, RequiredEntries;
    if ps != [] {
      var st' := AfterPiece(d, ps[0], st).value;
      PieceSeen(d, ps[0], st);
      SeenIffOccurs(d, ps[1..], st', i);
      MarkedIff(d, FindTag(d, ps[0].tag), i);
      OccursCons(d, i, ps);
    }
  }

  lemma {:induction false} OccursCons(d: Desc, i: nat, ps: seq<Piece>)
    requires ps != []
    ensures Occurs(d, i, ps) <==> FindTag(d, ps[0].tag) == Some(i) || Occurs(d, i, ps[1..])
  {
    hide FindTag;
    if k :| 0 <= k < |ps| && FindTag(d, ps[k].tag) == Some(i) {
      assert k > 0 ==> ps[1..][k - 1] == ps[k];
    }
  }

  lemma {:induction false} MarkedIff(d: Desc, t: Option<nat>, i: nat)
    requires AmongFirst(d, i) && (t.Some? ==> t.value < |d|)
    ensures t == Some(i) <==> t.Some? && RequiredBefore(d, i) in Marks(d, t.value)
  {
    hide RequiredBefore, RequiredEntries;
    RequiredBeforeIs(d, i);
    if t.Some? && d[t.value].htype.Required? && RequiredBefore(d, t.value) == RequiredBefore(d, i) {
      RequiredIndexUnique(d, i, t.value);
    }
  }

  /**
   * When every record is accepted and the last fixed-count array complete, the decode succeeds if
   * and only if there is a record for each required field that has fewer than 64 before it.
   */
  lemma {:induction false} RequiredArrive(d: Desc, s: seq<Byte>, m: Msg, ps: seq<Piece>, used: nat)
    requires |m| == |d| && Splits(d, s, ps, used) && AfterAll(d, ps, Start(m)).Some?
    requires FixedComplete(d, AfterAll(d, ps, Start(m)).value)
    ensures DecodeNoinit(d, s, m).Read? <==> forall i: nat :: AmongFirst(d, i) ==> Occurs(d, i, ps)
  {
    hide Splits, AfterAll, AmongFirst, Occurs, Run, FixedComplete, Tracked;
    var st := AfterAll(d, ps, Start(m)).value;
    RunOfSplit(d, s, ps, used, Start(m));
    if AllSeen(d, st) {
      forall i: nat | AmongFirst(d, i)
        ensures Occurs(d, i, ps)
      {
        SeenIffOccurs(d, ps, Start(m), i);
        TrackedIndex(d, i);
        assert RequiredBefore(d, i) in st.seen;
      }
    } else {
      var k :| 0 <= k < Tracked(d) && k !in st.seen;
      var i := TrackedEntry(d, k);
      SeenIffOccurs(d, ps, Start(m), i);
    }
  }

  lemma {:induction false} TrackedIndex(d: Desc, i: nat)
    requires AmongFirst(d, i)
    ensures i < |d| && RequiredBefore(d, i) < Tracked(d)
  {
    RequiredBeforeIs(d, i);
    RequiredBeforeMono(d, i, |d|);
  }

  lemma {:induction false} TrackedEntry(d: Desc, k: nat) returns (i: nat)
    requires k < Tracked(d)
    ensures AmongFirst(d, i) && RequiredBefore(d, i) == k
  {
    i := NthRequired(d, |d|, k);
    RequiredBeforeIs(d, i);
  }

  // --------------------------------------------------------------- absent fields

  /** No record is for entry l or for another member of its union. */
  predicate Silent(d: Desc, ps: seq<Piece>, l: nat) {
    forall k, i :: 0 <= k < |ps| && 0 <= i < |d| && Leader(d, i) == l ==> d[i].tag != ps[k].tag
  }

  lemma {:induction false} PieceKeeps(d: Desc, p: Piece, st: DState, l: nat)
    requires |st.m| == |d| && l < |d| && AfterPiece(d, p, st).Some? && Silent(d, [p], l)
    ensures AfterPiece(d, p, st).value.m[l] == st.m[l]
  {
    hide DecSlot, DecVarint32, Prepare, Leader;
    if FindTag(d, p.tag).Some? {
      assert d[FindTag(d, p.tag).value].tag == [p][0].tag;
    }
  }

  /** What no record is for stays as it was. */
  lemma {:induction false} SilentKept(d: Desc, ps: seq<Piece>, st: DState, l: nat)
    requires |st.m| == |d| && l < |d| && AfterAll(d, ps, st).Some? && Silent(d, ps, l)
    ensures AfterAll(d, ps, st).value.m[l] == st.m[l]
  {
    hide AfterPiece;
    if ps != [] {
      SilentParts(d, ps, l);
      PieceKeeps(d, ps[0], st, l);
      SilentKept(d, ps[1..], AfterPiece(d, ps[0], st).value, l);
    }
  }

  lemma {:induction false} SilentParts(d: Desc, ps: seq<Piece>, l: nat)
    requires ps != [] && Silent(d, ps, l)
    ensures Silent(d, [ps[0]], l) && Silent(d, ps[1..], l)
  {
    hide Leader;
    forall k, i | 0 <= k < |ps[1..]| && 0 <= i < |d| && Leader(d, i) == l
      ensures d[i].tag != ps[1..][k].tag
    {
      assert ps[1..][k] == ps[k + 1];
    }
  }

  /** A decode leaves alone what no record of the input is for. */
  lemma {:induction false} AbsentKept(d: Desc, s: seq<Byte>, m: Msg, ps: seq<Piece>, l: nat)
    requires |m| == |d| && l < |d| && DecodeNoinit(d, s, m).Read? && Splits(d, s, ps, DecodeNoinit(d, s, m).used)
    requires Silent(d, ps, l)
    ensures DecodeNoinit(d, s, m).val[l] == m[l]
  {
    hide Splits, AfterAll, Silent, Run;
    RunOfSplit(d, s, ps, DecodeNoinit(d, s, m).used, Start(m));
    SilentKept(d, ps, Start(m), l);
  }

  /** A field is at its declared default, at the zero of its type, or, for a submessage, has nothing set. */
  ghost predicate AtDefault(f: Field, v: Value)
    decreases f, 0
  {
    match f.ptr
    case Default(w) => v == w
    case Sub(sub) => v.VMsg? && NothingSet(sub, v.m)
    case Null =>
      match f.ltype
      case LBytes | LString => v == VBytes([])
      case LFixedLengthBytes => v == VBytes(seq(f.dataSize, _ => 0))
      case LSubmessage => v == VMsg([])
      case _ => v == VInt(0)
  }

  /** A field before anything arrives for it. */
  ghost predicate Unset(f: Field, leads: bool, slot: Slot)
    decreases f, 1
  {
    match f.htype
    case Required => slot.Single? && AtDefault(f, slot.v)
    case Optional =>
      if f.sizeOffset == 0 then slot.Single? && AtDefault(f, slot.v)
      else slot.Opt? && !slot.has && AtDefault(f, slot.v)
    case Repeated => if f.sizeOffset == 0 then slot == Rep(seq(f.arraySize, _ => VStale)) else slot == Rep([])
    case Oneof => leads ==> slot == Slot.Union(0, VStale)
  }

  ghost predicate NothingSet(d: Desc, m: Msg)
    decreases d, 2
  {
    |m| == |d| && forall i :: 0 <= i < |d| ==> Unset(d[i], Leader(d, i) == i, m[i])
  }

  lemma {:induction false} DefaultItem(f: Field)
    ensures AtDefault(f, InitialValue(f))
    decreases f, 0
  {
    if f.ptr.Sub? {
      DefaultMessage(f.ptr.fields);
    }
  }

  lemma {:induction false} DefaultUnset(f: Field, leads: bool)
    ensures Unset(f, leads, DefaultSlot(f, leads))
    decreases f, 1
  {
    hide InitialValue, AtDefault;
    DefaultItem(f);
  }

  /** pb_message_set_to_defaults sets nothing and gives every field its default. */
  lemma {:induction false} DefaultMessage(d: Desc)
    ensures NothingSet(d, Defaults(d))
    decreases d, 2
  {
    hide Unset, DefaultSlot;
    forall i | 0 <= i < |d|
      ensures Unset(d[i], Leader(d, i) == i, Defaults(d)[i])
    {
      DefaultUnset(d[i], Leader(d, i) == i);
    }
  }

  /**
   * After a decode, an entry that no record of the input was for is unset: an optional field has
   * its declared default, whether it has a flag or not, an array is empty, a union has no member,
   * and a submessage has its own defaults throughout.
   */
  lemma {:induction false} AbsentUnset(d: Desc, s: seq<Byte>, ps: seq<Piece>, i: nat)
    requires Decode(d, s).Read? && Splits(d, s, ps, Decode(d, s).used) && i < |d| && Silent(d, ps, i)
    ensures Unset(d[i], Leader(d, i) == i, Decode(d, s).val[i])
  {
    hide Splits, Unset, Silent, Defaults, DecodeNoinit, NothingSet;
    AbsentKept(d, s, Defaults(d), ps, i);
    DefaultMessage(d);
    UnsetEntry(d, Defaults(d), i);
  }

  lemma {:induction false} UnsetEntry(d: Desc, m: Msg, i: nat)
    requires NothingSet(d, m) && i < |d|
    ensures |m| == |d| && Unset(d[i], Leader(d, i) == i, m[i])
  {
    hide Unset;
  }

  // -------------------------------------------------------------- singular fields

  /** What the storage of a singular field looks like once the field has a value. */
  function Holding(f: Field, v: Value): Slot {
    match f.htype
    case Optional => if f.sizeOffset == 0 then Single(v) else Opt(true, v)
    case Oneof => Slot.Union(f.tag, v)
    case _ => Single(v)
  }

  /** A field whose records replace each other. */
  predicate Replacing(f: Field) {
    !f.htype.Repeated? && (f.ltype.LSubmessage? ==> f.htype.Oneof?)
  }

  /** An accepted record stores what its payload decodes to. */
  lemma {:induction false} PieceStored(d: Desc, p: Piece, st: DState, i: nat)
    requires |st.m| == |d| && i < |d| && FindTag(d, p.tag) == Some(i) && AfterPiece(d, p, st).Some?
    ensures Prepare(d, i, st).Some?
    ensures var l, st1 := Leader(d, i), Prepare(d, i, st).value;
            var r := DecSlot(d[i], p.wt, p.payload, st.m[l], st1.count);
            r.Read? && AfterPiece(d, p, st).value == st1.(m := st.m[l := r.val.slot], count := r.val.count)
  {
    hide DecSlot, Prepare, Leader, FindTag;
  }

  lemma {:induction false} SlotHeld(f: Field, wt: nat, s: seq<Byte>, slot: Slot, count: nat)
    requires Replacing(f) && DecSlot(f, wt, s, slot, count).Read?
    ensures var r := DecItem(f, s, BlankValue(f));
            r.Read? && DecSlot(f, wt, s, slot, count).val.slot == Holding(f, r.val)
  {
    hide DecItem, BlankValue;
    if !f.ltype.LSubmessage? {
      SameScalarItem(f, s, Base(f, slot), BlankValue(f));
    }
  }

  lemma {:induction false} PieceHeld(d: Desc, p: Piece, st: DState, i: nat)
    requires |st.m| == |d| && i < |d| && FindTag(d, p.tag) == Some(i) && AfterPiece(d, p, st).Some? && Replacing(d[i])
    ensures var r := DecItem(d[i], p.payload, BlankValue(d[i]));
            r.Read? && AfterPiece(d, p, st).value.m[Leader(d, i)] == Holding(d[i], r.val)
  {
    hide DecSlot, DecItem, Prepare, Leader, FindTag, AfterPiece, Replacing, Holding;
    PieceStored(d, p, st, i);
    SlotHeld(d[i], p.wt, p.payload, st.m[Leader(d, i)], Prepare(d, i, st).value.count);
  }

  /** The last record for a field, or for any member of its union, decides what is there; its value is its payload's. */
  lemma {:induction false} LastValue(d: Desc, ps: seq<Piece>, st: DState, i: nat, k: nat)
    requires |st.m| == |d| && i < |d| && AfterAll(d, ps, st).Some? && Replacing(d[i])
    requires k < |ps| && FindTag(d, ps[k].tag) == Some(i) && Silent(d, ps[k + 1..], Leader(d, i))
    ensures var r := DecItem(d[i], ps[k].payload, BlankValue(d[i]));
            r.Read? && AfterAll(d, ps, st).value.m[Leader(d, i)] == Holding(d[i], r.val)
    decreases k
  {
    hide AfterPiece, DecItem, Leader, FindTag, Holding, Replacing, Silent;
    var st' := AfterPiece(d, ps[0], st).value;
    if k == 0 {
      PieceHeld(d, ps[0], st, i);
      SilentKept(d, ps[1..], st', Leader(d, i));
    } else {
      assert ps[1..][k..] == ps[k + 1..];
      LastValue(d, ps[1..], st', i, k - 1);
    }
  }

  /** What is stored for a required or optional field, set or not. */
  function OldValue(slot: Slot): Value {
    match slot
    case Single(v) => v
    case Opt(_, v) => v
    case _ => VStale
  }

  /** The storage is that of a required or optional field. */
  predicate Stores(f: Field, slot: Slot) {
    match f.htype
    case Required => slot.Single?
    case Optional => if f.sizeOffset == 0 then slot.Single? else slot.Opt?
    case _ => false
  }

  /** What decides whether a record is accepted. */
  lemma {:induction false} PieceDecided(d: Desc, p: Piece, st: DState, i: nat)
    requires |st.m| == |d| && i < |d| && FindTag(d, p.tag) == Some(i)
    ensures var l, st1 := Leader(d, i), Prepare(d, i, st);
            AfterPiece(d, p, st).Some? <==>
            st1.Some? && DecSlot(d[i], p.wt, p.payload, st.m[l], st1.value.count).Read?
  {
    hide DecSlot, Prepare, Leader, FindTag;
  }

  lemma {:induction false} SlotSingular(f: Field, wt: nat, s: seq<Byte>, slot: Slot, count: nat)
    requires Stores(f, slot)
    ensures DecSlot(f, wt, s, slot, count) ==
            match DecItem(f, s, OldValue(slot))
            case Fail => Fail
            case Read(v, n) => Read(Stored(Holding(f, v), count), n)
  {
    hide DecItem;
  }

  lemma {:induction false} SlotUnion(f: Field, wt: nat, s: seq<Byte>, slot: Slot, count: nat)
    requires f.htype.Oneof? && slot.Union?
    ensures DecSlot(f, wt, s, slot, count) ==
            match DecItem(f, s, BlankValue(f))
            case Fail => Fail
            case Read(v, n) => Read(Stored(Slot.Union(f.tag, v), count), n)
  {
    hide DecItem, BlankValue;
  }

  lemma {:induction false} PreparePlain(d: Desc, i: nat, st: DState)
    requires |st.m| == |d| && i < |d| && !d[i].htype.Repeated?
    ensures !d[i].htype.Oneof? ==> Prepare(d, i, st).Some? && Leader(d, i) == i
    ensures d[i].htype.Oneof? && st.m[Leader(d, i)].Union? ==>
              (Prepare(d, i, st).Some? <==>
                var was := st.m[Leader(d, i)].which; was == 0 || exists k :: 0 <= k < |d| && d[k].tag == was)
  {
    hide RequiredBefore;
    if d[i].htype.Oneof? && st.m[Leader(d, i)].Union? {
      var was := st.m[Leader(d, i)].which;
      assert was == d[i].tag ==> exists k :: 0 <= k < |d| && d[k].tag == was;
    }
  }

  /** A required or optional field is decoded into what is there, so that submessages merge. */
  lemma {:induction false} SingularStored(d: Desc, p: Piece, st: DState, i: nat)
    requires |st.m| == |d| && i < |d| && FindTag(d, p.tag) == Some(i) && Stores(d[i], st.m[i])
    ensures var r := DecItem(d[i], p.payload, OldValue(st.m[i]));
            && (AfterPiece(d, p, st).Some? <==> r.Read?)
            && (r.Read? ==> AfterPiece(d, p, st).value.m == st.m[i := Holding(d[i], r.val)])
  {
    hide DecItem, DecSlot, FindTag, Prepare, AfterPiece, Leader, Holding, OldValue;
    PreparePlain(d, i, st);
    PieceDecided(d, p, st, i);
    SlotSingular(d[i], p.wt, p.payload, st.m[i], Prepare(d, i, st).value.count);
    if AfterPiece(d, p, st).Some? {
      PieceStored(d, p, st, i);
    }
  }

  /** A union takes a record exactly when it holds nothing yet, or a member the descriptor lists. */
  lemma {:induction false} UnionStored(d: Desc, p: Piece, st: DState, i: nat)
    requires |st.m| == |d| && i < |d| && FindTag(d, p.tag) == Some(i) && d[i].htype.Oneof?
    requires st.m[Leader(d, i)].Union?
    ensures var r, was := DecItem(d[i], p.payload, BlankValue(d[i])), st.m[Leader(d, i)].which;
            && (AfterPiece(d, p, st).Some? <==> r.Read? && (was == 0 || exists k :: 0 <= k < |d| && d[k].tag == was))
            && (AfterPiece(d, p, st).Some? ==>
                  AfterPiece(d, p, st).value.m == st.m[Leader(d, i) := Slot.Union(d[i].tag, r.val)])
  {
    hide DecItem, DecSlot, FindTag, Prepare, AfterPiece, Leader, BlankValue;
    PreparePlain(d, i, st);
    PieceDecided(d, p, st, i);
    if Prepare(d, i, st).Some? {
      SlotUnion(d[i], p.wt, p.payload, st.m[Leader(d, i)], Prepare(d, i, st).value.count);
    }
    if AfterPiece(d, p, st).Some? {
      PieceStored(d, p, st, i);
    }
  }

  /** A submessage in a union or in an array is decoded into its own defaults. */
  lemma {:induction false} BlankIsUnset(f: Field)
    requires f.ptr.Sub?
    ensures BlankValue(f).VMsg? && NothingSet(f.ptr.fields, BlankValue(f).m)
  {
    DefaultMessage(f.ptr.fields);
  }

  /** Two records of a submessage leave what one with their payloads joined does, if no fixed-count array is resumed. */
  lemma {:induction false} SubmessageRecordsMerge(d: Desc, i: nat, st: DState, a: seq<Byte>, b: seq<Byte>, p: Piece,
      q: Piece, r: Piece)
    requires |st.m| == |d| && i < |d| && Stores(d[i], st.m[i]) && d[i].ltype.LSubmessage? && d[i].ptr.Sub?
    requires FindTag(d, d[i].tag) == Some(i) && p.tag == q.tag == r.tag == d[i].tag && |a + b| < 0x1_0000_0000
    requires p.payload == Prefixed(a) && q.payload == Prefixed(b) && r.payload == Prefixed(a + b)
    requires var v, sub := OldValue(st.m[i]), d[i].ptr.fields;
             && v.VMsg? && |v.m| == |sub| && ArraysNonempty(sub) && Records(sub, a, Start(v.m)).Some?
             && !Resumes(sub, a, b, v.m)
    requires AfterAll(d, [p, q], st).Some?
    ensures AfterPiece(d, r, st).Some? && AfterPiece(d, r, st).value.m == AfterAll(d, [p, q], st).value.m
  {
    hide DecItem, FindTag, AfterPiece, VarintBytes, Records, Resumes;
    var f, v := d[i], OldValue(st.m[i]);
    PairAfter(d, p, q, st);
    var st' := AfterPiece(d, p, st).value;
    SingularStored(d, p, st, i);
    SingularStored(d, q, st', i);
    SubmessagesMerge(f, a, b, v, []);
    assert Delimit(a) == Prefixed(a) && Delimit(b) == Prefixed(b);
    assert Delimit(a + b) + [] == Delimit(a + b) == Prefixed(a + b);
    SingularStored(d, r, st, i);
  }

  lemma {:induction false} PairAfter(d: Desc, p: Piece, q: Piece, st: DState)
    requires |st.m| == |d| && AfterAll(d, [p, q], st).Some?
    ensures AfterPiece(d, p, st).Some?
    ensures AfterAll(d, [p, q], st) == AfterPiece(d, q, AfterPiece(d, p, st).value)
  {
    hide AfterPiece;
    assert [p, q][1..] == [q] && [q][1..] == [];
    if AfterPiece(d, p, st).Some? {
      var st' := AfterPiece(d, p, st).value;
      assert AfterAll(d, [q], st') == match AfterPiece(d, q, st') case None => None case Some(x) => AfterAll(d, [], x);
    }
  }

  // ------------------------------------------------------------------------ arrays

  /** The items a record brings: the elements of a packed array, or one. */
  function ItemsIn(f: Field, p: Piece): seq<Value> {
    if p.wt == 2 && TypeNumber(f) != 2 then
      match Delimited(p.payload)
      case Fail => []
      case Read(body, _) => if DecPacked(f, body, f.arraySize).Some? then DecPacked(f, body, f.arraySize).value else []
    else
      match DecItem(f, p.payload, BlankValue(f))
      case Fail => []
      case Read(v, _) => [v]
  }

  /** All items that arrive for entry i, in the order of the input. */
  function Arrived(d: Desc, i: nat, ps: seq<Piece>): seq<Value>
    requires i < |d|
  {
    if ps == [] then []
    else (if FindTag(d, ps[0].tag) == Some(i) then ItemsIn(d[i], ps[0]) else []) + Arrived(d, i, ps[1..])
  }

  lemma {:induction false} OneArrived(d: Desc, i: nat, p: Piece)
    requires i < |d|
    ensures Arrived(d, i, [p]) == if FindTag(d, p.tag) == Some(i) then ItemsIn(d[i], p) else []
  {
    hide ItemsIn, FindTag;
    assert [p][1..] == [];
  }

  lemma {:induction false} ArrivedCons(d: Desc, i: nat, ps: seq<Piece>)
    requires i < |d| && ps != []
    ensures Arrived(d, i, ps) == Arrived(d, i, [ps[0]]) + Arrived(d, i, ps[1..])
  {
    hide ItemsIn, FindTag;
    OneArrived(d, i, ps[0]);
  }

  lemma {:induction false} MoreRoom(f: Field, s: seq<Byte>, room: nat, more: nat)
    requires DecPacked(f, s, room).Some? && room <= more
    ensures DecPacked(f, s, more) == DecPacked(f, s, room)
    decreases room
  {
    hide DecScalar;
    if s != [] {
      MoreRoom(f, s[DecScalar(f, s).used..], room - 1, more - 1);
    }
  }

  lemma {:induction false} RepeatedItems(f: Field, p: Piece, items: seq<Value>, count: nat)
    requires f.htype.Repeated? && DecRepeated(f, p.wt, p.payload, items, count).Read?
    ensures DecRepeated(f, p.wt, p.payload, items, count).val == ItemsIn(f, p)
    ensures ItemsIn(f, p) != [] ==> count + |ItemsIn(f, p)| <= f.arraySize
  {
    hide DecPacked, DecScalar, DecodeNoinit, Delimited;
    if TakenPacked(f, p.wt) {
      MoreRoom(f, Delimited(p.payload).val, Room(f, count), f.arraySize);
    }
  }

  lemma {:induction false} SlotAppended(f: Field, p: Piece, slot: Slot, count: nat)
    requires f.htype.Repeated? && !FixedCount(f) && DecSlot(f, p.wt, p.payload, slot, count).Read?
    ensures slot.Rep? && DecSlot(f, p.wt, p.payload, slot, count).val.slot == Rep(slot.items + ItemsIn(f, p))
    ensures ItemsIn(f, p) != [] ==> |slot.items| + |ItemsIn(f, p)| <= f.arraySize
  {
    hide ItemsIn, DecRepeated;
    RepeatedItems(f, p, slot.items, |slot.items|);
    assert slot.items + [] == slot.items;
  }

  lemma {:induction false} PieceAppended(d: Desc, p: Piece, st: DState, i: nat)
    requires |st.m| == |d| && i < |d| && d[i].htype.Repeated? && !FixedCount(d[i]) && st.m[i].Rep?
    requires AfterPiece(d, p, st).Some?
    ensures AfterPiece(d, p, st).value.m[i] ==
            if FindTag(d, p.tag) == Some(i) then Rep(st.m[i].items + ItemsIn(d[i], p)) else st.m[i]
    ensures FindTag(d, p.tag) == Some(i) && ItemsIn(d[i], p) != [] ==>
              |st.m[i].items| + |ItemsIn(d[i], p)| <= d[i].arraySize
  {
    hide ItemsIn, DecSlot, FindTag, Prepare, AfterPiece, Leader;
    var t := FindTag(d, p.tag);
    if t.Some? {
      PieceStored(d, p, st, t.value);
      LeaderOfArray(d, t.value, i);
      if t.value == i {
        SlotAppended(d[i], p, st.m[i], Prepare(d, i, st).value.count);
      }
    } else {
      PieceIgnored(d, p, st);
    }
  }

  lemma {:induction false} PieceIgnored(d: Desc, p: Piece, st: DState)
    requires |st.m| == |d| && FindTag(d, p.tag).None? && AfterPiece(d, p, st).Some?
    ensures AfterPiece(d, p, st).value == st
  {
  }

  /** An array shares its storage with nothing. */
  lemma {:induction false} LeaderOfArray(d: Desc, k: nat, i: nat)
    requires k < |d| && i < |d| && d[i].htype.Repeated?
    ensures Leader(d, k) == i <==> k == i
  {
    LeaderLeads(d, k);
  }

  /** A counted array holds what it held and then everything that arrived, in order, and that fits in it. */
  lemma {:induction false} ArrayContents(d: Desc, ps: seq<Piece>, st: DState, i: nat)
    requires |st.m| == |d| && i < |d| && d[i].htype.Repeated? && !FixedCount(d[i]) && st.m[i].Rep?
    requires AfterAll(d, ps, st).Some?
    ensures AfterAll(d, ps, st).value.m[i] == Rep(st.m[i].items + Arrived(d, i, ps))
    ensures Arrived(d, i, ps) != [] ==> |st.m[i].items| + |Arrived(d, i, ps)| <= d[i].arraySize
  {
    hide *;
    AfterFirst(d, ps, st);
    if ps == [] {
      NoneArrived(d, i, st.m[i].items);
    } else {
      var st' := AfterPiece(d, ps[0], st).value;
      PieceAppended(d, ps[0], st, i);
      ArrivedCons(d, i, ps);
      OneArrived(d, i, ps[0]);
      ArrayContents(d, ps[1..], st', i);
      ItemsGrow(st.m[i].items, Arrived(d, i, [ps[0]]), Arrived(d, i, ps[1..]));
    }
  }

  lemma {:induction false} NoneArrived(d: Desc, i: nat, items: seq<Value>)
    requires i < |d|
    ensures Arrived(d, i, []) == [] && items + [] == items
  {
  }

  lemma {:induction false} ItemsGrow(items: seq<Value>, a: seq<Value>, b: seq<Value>)
    ensures items + [] == items && items + a + b == items + (a + b)
  {
  }

  lemma {:induction false} AfterFirst(d: Desc, ps: seq<Piece>, st: DState)
    requires |st.m| == |d| && AfterAll(d, ps, st).Some?
    ensures ps == [] ==> AfterAll(d, ps, st) == Some(st)
    ensures ps != [] ==>
              var r := AfterPiece(d, ps[0], st);
              r.Some? && |r.value.m| == |d| && AfterAll(d, ps[1..], r.value) == AfterAll(d, ps, st)
  {
    hide AfterPiece;
  }

  /** How many items of entry i have come since the loop turned to it. */
  function Begun(st: DState, i: nat): nat {
    if st.fixed == Some(i) then st.count else 0
  }

  lemma {:induction false} SlotCounts(f: Field, p: Piece, slot: Slot, count: nat)
    requires DecSlot(f, p.wt, p.payload, slot, count).Read?
    ensures DecSlot(f, p.wt, p.payload, slot, count).val.count ==
            if FixedCount(f) then count + |ItemsIn(f, p)| else count
  {
    hide ItemsIn, DecRepeated, DecItem;
    if FixedCount(f) {
      RepeatedItems(f, p, slot.items, count);
    }
  }

  /** Turning away from an array of fixed length asks that it is complete. */
  lemma {:induction false} PieceBegun(d: Desc, p: Piece, st: DState, i: nat)
    requires |st.m| == |d| && i < |d| && FixedCount(d[i]) && AfterPiece(d, p, st).Some?
    ensures var now, more := Begun(AfterPiece(d, p, st).value, i), |Arrived(d, i, [p])|;
            now == Begun(st, i) + more || (more == 0 == now && Begun(st, i) == d[i].arraySize)
  {
    hide ItemsIn, DecSlot, FindTag, AfterPiece, Leader;
    OneArrived(d, i, p);
    var t := FindTag(d, p.tag);
    if t.Some? {
      PieceStored(d, p, st, t.value);
      SlotCounts(d[t.value], p, st.m[Leader(d, t.value)], Prepare(d, t.value, st).value.count);
    } else {
      PieceIgnored(d, p, st);
    }
  }

  lemma {:induction false} FillsCount(d: Desc, ps: seq<Piece>, st: DState, i: nat)
    requires |st.m| == |d| && i < |d| && FixedCount(d[i]) && d[i].arraySize > 0 && AfterAll(d, ps, st).Some?
    ensures (Begun(st, i) + |Arrived(d, i, ps)|) % d[i].arraySize ==
            Begun(AfterAll(d, ps, st).value, i) % d[i].arraySize
  {
    hide AfterPiece, FindTag, ItemsIn, Begun;
    if ps != [] {
      var n, st' := d[i].arraySize, AfterPiece(d, ps[0], st).value;
      PieceBegun(d, ps[0], st, i);
      ArrivedCons(d, i, ps);
      FillsCount(d, ps[1..], st', i);
      OnceMore(|Arrived(d, i, ps[1..])|, n);
    }
  }

  lemma {:induction false} OnceMore(x: nat, n: nat)
    requires n > 0
    ensures (n + x) % n == x % n
  {
    Division(x, n);
    Division(n + x, n);
    assert (x / n + 1) * n == x / n * n + n;
    QuotientIs(x / n + 1, n, x % n);
  }

  /** An array of fixed length is never left incomplete: what arrives for it is a whole number of times its length. */
  lemma {:induction false} FixedFilled(d: Desc, s: seq<Byte>, m: Msg, ps: seq<Piece>, i: nat)
    requires |m| == |d| && i < |d| && FixedCount(d[i]) && d[i].arraySize > 0 && DecodeNoinit(d, s, m).Read?
    requires Splits(d, s, ps, DecodeNoinit(d, s, m).used)
    ensures |Arrived(d, i, ps)| % d[i].arraySize == 0
  {
    hide Splits, AfterAll, Run, Arrived;
    var n := d[i].arraySize;
    RunOfSplit(d, s, ps, DecodeNoinit(d, s, m).used, Start(m));
    FillsCount(d, ps, Start(m), i);
    OnceMore(0, n);
  }
}
