/** What pb_decode makes of a byte string: a fold of its records over a message. */
module Decoding {
  import opened Basics
  import opened Varint
  import opened Descriptors
  import opened Scalars

  /**
   * The state of pb_decode_noinit between records: the message, the fixed-count array being
   * filled with its element count, and the required fields seen so far.
   */
  datatype DState = DState(m: Msg, fixed: Option<nat>, count: nat, seen: set<nat>)

  /** One turn of the main loop. A zero key stops the loop. */
  datatype Step = Bad | Stop(used: nat) | Next(st: DState, used: nat)

  /** The whole loop: refused, or the final state and the bytes consumed. */
  datatype Outcome = Refused | Done(st: DState, used: nat)

  // ------------------------------------------------------------------ records

  /** pb_skip_field. */
  function Skip(wt: nat, s: seq<Byte>): (r: Option<nat>)
    ensures r.Some? ==> 0 < r.value <= |s|
  {
    if wt == WT_VARINT then
      if VarintLen(s) == 0 then None else Some(VarintLen(s))
    else if wt == WT_64BIT then
      if |s| < 8 then None else Some(8)
    else if wt == WT_STRING then
      match Delimited(s)
      case Fail => None
      case Read(_, n) => Some(n)
    else if wt == WT_32BIT then
      if |s| < 4 then None else Some(4)
    else None
  }

  /** The elements of a packed array, at most room of them. */
  function DecPacked(f: Field, s: seq<Byte>, room: nat): (r: Option<seq<Value>>)
    ensures r.Some? ==> |r.value| <= room
    decreases room
  {
    if s == [] then Some([])
    else if room == 0 then None
    else
      match DecScalar(f, s)
      case Fail => None
      case Read(v, n) =>
        match DecPacked(f, s[n..], room - 1)
        case None => None
        case Some(rest) => Some([v] + rest)
  }

  /** A number of elements already stored and the room left behind them. */
  function Room(f: Field, count: nat): nat {
    if count < f.arraySize then f.arraySize - count else 0
  }

  /** Elements stored from index count on: appended, or overwriting a fixed-count array. */
  function Store(f: Field, items: seq<Value>, count: nat, vs: seq<Value>): seq<Value>
    requires FixedCount(f) && vs != [] ==> count + |vs| <= |items|
  {
    if vs == [] then items else if FixedCount(f) then items[..count] + vs + items[count + |vs|..] else items + vs
  }

  datatype Stored = Stored(slot: Slot, count: nat)

  /** What a submessage is decoded into: the old contents only if it is neither an array item nor a union member. */
  function Base(f: Field, slot: Slot): Value {
    match slot
    case Single(v) => v
    case Opt(_, v) => v
    case _ => BlankValue(f)
  }

  /** PB_DECODERS. A submessage takes its payload whatever the inner decoder used of it. */
  function DecItem(f: Field, s: seq<Byte>, base: Value): (r: Parse<Value>)
    ensures r.Read? ==> 0 < r.used <= |s|
    decreases |s|, 0
  {
    if f.ltype.LSubmessage? then
      match Delimited(s)
      case Fail => Fail
      case Read(payload, n) =>
        if f.ptr.Sub? && base.VMsg? && |base.m| == |f.ptr.fields| then
          match DecodeNoinit(f.ptr.fields, payload, base.m)
          case Fail => Fail
          case Read(m, _) => Read(VMsg(m), n)
        else Fail
    else DecScalar(f, s)
  }

  /** Whether a record is taken as a packed array. */
  predicate TakenPacked(f: Field, wt: nat) {
    f.htype.Repeated? && wt == WT_STRING && Packable(f)
  }

  /** A repeated field: a packed record or one item. */
  function DecRepeated(f: Field, wt: nat, s: seq<Byte>, items: seq<Value>, count: nat): (r: Parse<seq<Value>>)
    ensures r.Read? ==> 0 < r.used <= |s| && |r.val| <= Room(f, count)
    decreases |s|, 1
  {
    if TakenPacked(f, wt) then
      match Delimited(s)
      case Fail => Fail
      case Read(payload, n) =>
        match DecPacked(f, payload, Room(f, count))
        case None => Fail
        case Some(vs) => Read(vs, n)
    else if Room(f, count) == 0 then Fail
    else
      match DecItem(f, s, BlankValue(f))
      case Fail => Fail
      case Read(v, n) => Read([v], n)
  }

  /** decode_static_field on the slot of a field; a slot of the wrong shape is refused. */
  function DecSlot(f: Field, wt: nat, s: seq<Byte>, slot: Slot, count: nat): (r: Parse<Stored>)
    ensures r.Read? ==> 0 < r.used <= |s|
    decreases |s|, 2
  {
    match f.htype
    case Required =>
      if !slot.Single? then Fail else
      (match DecItem(f, s, Base(f, slot))
       case Fail => Fail
       case Read(v, n) => Read(Stored(Single(v), count), n))
    case Optional =>
      if !(if HasFlag(f) then slot.Opt? else slot.Single?) then Fail else
      (match DecItem(f, s, Base(f, slot))
       case Fail => Fail
       case Read(v, n) => Read(Stored(if HasFlag(f) then Opt(true, v) else Single(v), count), n))
    case Repeated =>
      if !slot.Rep? || (FixedCount(f) && |slot.items| != f.arraySize) then Fail else
      (match DecRepeated(f, wt, s, slot.items, if FixedCount(f) then count else |slot.items|)
       case Fail => Fail
       case Read(vs, n) =>
         Read(Stored(Rep(Store(f, slot.items, count, vs)), if FixedCount(f) then count + |vs| else count), n))
    case Oneof =>
      if !slot.Union? then Fail else
      (match DecItem(f, s, Base(f, slot))
       case Fail => Fail
       case Read(v, n) => Read(Stored(Union(f.tag, v), count), n))
  }

  /**
   * What happens once a field is found, before its data is decoded: a fixed-count array other
   * than the current one may only start when that one is complete; a required field is marked
   * as seen; and the old member of a union has to be one the descriptor knows.
   */
  function Prepare(d: Desc, i: nat, st: DState): (r: Option<DState>)
    requires i < |d| && |st.m| == |d|
    ensures r.Some? ==> r.value.m == st.m
  {
    var f := d[i];
    if FixedCount(f) && st.fixed != Some(i) then
      if FixedComplete(d, st) then Some(st.(fixed := Some(i), count := 0)) else None
    else if f.htype.Required? && RequiredBefore(d, i) < PB_MAX_REQUIRED_FIELDS then
      Some(st.(seen := st.seen + {RequiredBefore(d, i)}))
    else if f.htype.Oneof? && !UnionKnown(d, f, st.m[Leader(d, i)]) then None
    else Some(st)
  }

  predicate UnionKnown(d: Desc, f: Field, slot: Slot) {
    slot.Union? ==> slot.which == 0 || slot.which == f.tag || FindTag(d, slot.which).Some?
  }

  predicate FixedComplete(d: Desc, st: DState) {
    st.fixed.Some? && st.fixed.value < |d| ==> st.count == d[st.fixed.value].arraySize
  }

  /** The data of entry i, read from s. */
  function DecField(d: Desc, i: nat, wt: nat, s: seq<Byte>, st: DState): (r: Step)
    requires i < |d| && |st.m| == |d|
    ensures !r.Stop?
    ensures r.Next? ==> 0 < r.used <= |s| && |r.st.m| == |d|
    decreases |s|, 3
  {
    match Prepare(d, i, st)
    case None => Bad
    case Some(st1) =>
      match DecSlot(d[i], wt, s, st.m[Leader(d, i)], st1.count)
      case Fail => Bad
      case Read(stored, n) => Next(st1.(m := st.m[Leader(d, i) := stored.slot], count := stored.count), n)
  }

  /** What follows a key: the data of a known field, or something to skip. */
  function DecKeyed(d: Desc, key: nat, s: seq<Byte>, st: DState): (r: Step)
    requires |st.m| == |d|
    ensures !r.Stop?
    ensures r.Next? ==> 0 < r.used <= |s| && |r.st.m| == |d|
    decreases |s|, 4
  {
    if d == [] && key / 8 == 0 then
      // The search in an empty descriptor stops at its terminator, which reads like a required bool.
      match DecVarint32(s)
      case Fail => Bad
      case Read(_, n) => Next(st, n)
    else
      match FindTag(d, key / 8)
      case Some(i) => DecField(d, i, key % 8, s, st)
      case None =>
        match Skip(key % 8, s)
        case None => Bad
        case Some(n) => Next(st, n)
  }

  /** One turn of the main loop on a non-empty rest. */
  function DecStep(d: Desc, s: seq<Byte>, st: DState): (r: Step)
    requires |st.m| == |d|
    ensures r.Stop? ==> 0 < r.used <= |s|
    ensures r.Next? ==> 0 < r.used <= |s| && |r.st.m| == |d|
    decreases |s|, 5
  {
    match DecVarint32(s)
    case Fail => Bad
    case Read(key, k) =>
      if key == 0 then Stop(k)
      else
        match DecKeyed(d, key, s[k..], st)
        case Bad => Bad
        case Next(st', n) => Next(st', k + n)
  }

  /** The main loop. */
  function Run(d: Desc, s: seq<Byte>, st: DState): (r: Outcome)
    requires |st.m| == |d|
    ensures r.Done? ==> r.used <= |s| && |r.st.m| == |d|
    decreases |s|, 6
  {
    if s == [] then Done(st, 0)
    else
      match DecStep(d, s, st)
      case Bad => Refused
      case Stop(n) => Done(st, n)
      case Next(st', n) =>
        match Run(d, s[n..], st')
        case Refused => Refused
        case Done(st'', n') => Done(st'', n + n')
  }

  function Start(m: Msg): DState {
    DState(m, None, 0, {})
  }

  /** The required fields whose presence is tracked. */
  function Tracked(d: Desc): nat {
    if RequiredBefore(d, |d|) < PB_MAX_REQUIRED_FIELDS then RequiredBefore(d, |d|) else PB_MAX_REQUIRED_FIELDS
  }

  predicate AllSeen(d: Desc, st: DState) {
    forall k :: 0 <= k < Tracked(d) ==> k in st.seen
  }

  /** pb_decode_noinit: the loop, then the checks on the last fixed-count array and the required fields. */
  function DecodeNoinit(d: Desc, s: seq<Byte>, m: Msg): (r: Parse<Msg>)
    requires |m| == |d|
    ensures r.Read? ==> r.used <= |s| && |r.val| == |d|
    decreases |s|, 7
  {
    match Run(d, s, Start(m))
    case Refused => Fail
    case Done(st, n) => if FixedComplete(d, st) && AllSeen(d, st) then Read(st.m, n) else Fail
  }

  /** pb_decode. */
  function Decode(d: Desc, s: seq<Byte>): (r: Parse<Msg>)
    ensures r.Read? ==> r.used <= |s| && |r.val| == |d|
  {
    DecodeNoinit(d, s, Defaults(d))
  }
}
