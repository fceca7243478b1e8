/** Messages with heap-allocated fields, and the blocks they own. */
module HeapMessages {
  import opened Basics
  import opened Descriptors
  import opened FieldIterator
  import opened Shapes

  /** A message type; subs gives the type of each submessage field, so that types may be recursive. */
  datatype MsgType = MsgType(fields: Desc, subs: seq<nat>)

  type Schema = seq<MsgType>

  /** Zero is NULL. */
  type Address = nat

  /**
   * What a structure holds for one field: data it does not own, submessages in place with the
   * value of their count field, a pointer with the value of its count field, or a union with the
   * contents of the member its which field names.
   */
  datatype Cell =
    | Data
    | Inline(items: seq<Struct>, count: nat)
    | Pointer(p: Address, count: nat)
    | Union(which: nat, content: Cell)

  datatype Struct = Struct(cells: seq<Cell>)

  /** An allocated block: plain data, an array of submessages, or an array of pointers to strings or bytes. */
  datatype Block = Raw | Structs(items: seq<Struct>) | Pointers(ptrs: seq<Address>)

  type Blocks = map<Address, Block>

  function TypeOf(S: Schema, ty: nat): MsgType {
    if ty < |S| then S[ty] else MsgType([], [])
  }

  function SubType(t: MsgType, i: nat): nat {
    if i < |t.subs| then t.subs[i] else 0
  }

  predicate GoodSchema(S: Schema) {
    forall ty :: 0 <= ty < |S| ==> NonzeroTags(S[ty].fields) && DistinctTags(S[ty].fields)
  }

  /** The cell of entry i; the members of a union share one. */
  function CellOf(t: MsgType, m: Struct, i: nat): Cell
    requires i < |t.fields|
  {
    if Leader(t.fields, i) < |m.cells| then m.cells[Leader(t.fields, i)] else Data
  }

  /** What a cell holds for a field: nothing for a union that holds another member. */
  function Content(f: Field, c: Cell): Cell {
    if !f.htype.Oneof? then c else if c.Union? && c.which == f.tag then c.content else Data
  }

  /** How many submessages a field holds; a count beyond a static array is taken for the array's size. */
  function Number(f: Field, count: nat): nat {
    if !f.htype.Repeated? then 1
    else if f.atype.Static? && FixedCount(f) then f.arraySize
    else if f.atype.Static? && count > f.arraySize then f.arraySize
    else count
  }

  predicate PointerArray(f: Field) {
    f.htype.Repeated? && (f.ltype.LString? || f.ltype.LBytes?)
  }

  // --------------------------------------------------------------- ownership

  function NonNull(ptrs: seq<Address>, k: nat): seq<Address>
    requires k <= |ptrs|
  {
    if k == 0 then [] else NonNull(ptrs, k - 1) + (if ptrs[k - 1] == 0 then [] else [ptrs[k - 1]])
  }

  /** The blocks the first k submessages own. */
  ghost function OwnedByItems(h: Blocks, S: Schema, ty: nat, items: seq<Struct>, k: nat, n: nat): seq<Address>
    decreases n, 2, k
  {
    if k == 0 || k > |items| || n == 0 then []
    else OwnedByItems(h, S, ty, items, k - 1, n) + OwnedBy(h, S, ty, items[k - 1], n - 1)
  }

  ghost function OwnedByPointer(h: Blocks, S: Schema, f: Field, sub: nat, p: Address, count: nat, n: nat): seq<Address>
    decreases n, 3
  {
    if p == 0 || p !in h then []
    else
      (match h[p]
       case Structs(items) => if f.ltype.LSubmessage? then OwnedByItems(h, S, sub, items, Number(f, count), n) else []
       case Pointers(ptrs) => if PointerArray(f) && count <= |ptrs| then NonNull(ptrs, count) else []
       case Raw => [])
      + [p]
  }

  ghost function OwnedByCell(h: Blocks, S: Schema, f: Field, sub: nat, c: Cell, n: nat): seq<Address>
    decreases n, 4
  {
    match Content(f, c)
    case Inline(items, count) =>
      if f.atype.Static? && f.ltype.LSubmessage? then OwnedByItems(h, S, sub, items, Number(f, count), n) else []
    case Pointer(p, count) =>
      if f.atype.Pointer? then OwnedByPointer(h, S, f, sub, p, count, n) else []
    case _ => []
  }

  /** The blocks the first i entries of a message own, in the order they are reached. */
  ghost function OwnedByFields(h: Blocks, S: Schema, ty: nat, m: Struct, i: nat, n: nat): seq<Address>
    requires i <= |TypeOf(S, ty).fields|
    decreases n, 5, i
  {
    var t := TypeOf(S, ty);
    if i == 0 then []
    else
      OwnedByFields(h, S, ty, m, i - 1, n) +
      OwnedByCell(h, S, t.fields[i - 1], SubType(t, i - 1), CellOf(t, m, i - 1), n)
  }

  /** The blocks a message owns, directly and through its submessages down to depth n. */
  ghost function OwnedBy(h: Blocks, S: Schema, ty: nat, m: Struct, n: nat): seq<Address>
    decreases n, 6
  {
    OwnedByFields(h, S, ty, m, |TypeOf(S, ty).fields|, n)
  }

  // ------------------------------------------------------------ well-formed heaps

  ghost predicate ItemsFit(h: Blocks, S: Schema, ty: nat, items: seq<Struct>, k: nat, n: nat)
    decreases n, 2
  {
    k <= |items| && n > 0 && forall j :: 0 <= j < k ==> Fits(h, S, ty, items[j], n - 1)
  }

  ghost predicate PointerFits(h: Blocks, S: Schema, f: Field, sub: nat, p: Address, count: nat, n: nat)
    decreases n, 3
  {
    if p == 0 then PointerArray(f) ==> count == 0
    else
      && p in h
      && (f.ltype.LSubmessage? ==> h[p].Structs? && ItemsFit(h, S, sub, h[p].items, Number(f, count), n))
      && (PointerArray(f) ==> h[p].Pointers? && count <= |h[p].ptrs|)
      && (PointerArray(f) ==> forall k :: 0 <= k < count && h[p].ptrs[k] != 0 ==> h[p].ptrs[k] in h)
  }

  ghost predicate CellFits(h: Blocks, S: Schema, f: Field, sub: nat, c: Cell, n: nat)
    decreases n, 4
  {
    && (f.htype.Oneof? ==> c.Union?)
    && (!(f.htype.Oneof? && c.which != f.tag) ==>
        var v := Content(f, c);
        && (f.atype.Pointer? ==> v.Pointer? && PointerFits(h, S, f, sub, v.p, v.count, n))
        && (f.atype.Static? && f.ltype.LSubmessage? ==>
            v.Inline? && ItemsFit(h, S, sub, v.items, Number(f, v.count), n)))
  }

  ghost predicate FieldsFit(h: Blocks, S: Schema, ty: nat, m: Struct, i: nat, n: nat)
    requires i <= |TypeOf(S, ty).fields|
    decreases n, 5
  {
    var t := TypeOf(S, ty);
    forall k :: 0 <= k < i ==> CellFits(h, S, t.fields[k], SubType(t, k), CellOf(t, m, k), n)
  }

  /** The structure has the type, and every pointer in it is NULL or leads to a block of the right kind. */
  ghost predicate Fits(h: Blocks, S: Schema, ty: nat, m: Struct, n: nat)
    decreases n, 6
  {
    |m.cells| == |TypeOf(S, ty).fields| && FieldsFit(h, S, ty, m, |TypeOf(S, ty).fields|, n)
  }

  ghost predicate Distinct(s: seq<Address>) {
    forall i, j :: 0 <= i < j < |s| ==> s[i] != s[j]
  }

  /** Tree-shaped: no block is reached in two ways. */
  ghost predicate TreeShaped(h: Blocks, S: Schema, ty: nat, m: Struct, n: nat) {
    Fits(h, S, ty, m, n) && Distinct(OwnedBy(h, S, ty, m, n))
  }

  // -------------------------------------------------------------------- frames

  /** Blocks at these addresses are the same in the second heap. */
  ghost predicate Agree(h: Blocks, h': Blocks, s: seq<Address>) {
    forall a :: a in s && a in h ==> a in h' && h[a] == h'[a]
  }

  lemma {:induction false} AgreeSplit(h: Blocks, h': Blocks, a: seq<Address>, b: seq<Address>)
    ensures Agree(h, h', a + b) <==> Agree(h, h', a) && Agree(h, h', b)
  {
    forall x | x in a || x in b
      ensures x in a + b
    {
    }
  }

  lemma {:induction false} NonNullElems(ptrs: seq<Address>, k: nat, j: nat)
    requires k <= |ptrs| && j < k && ptrs[j] != 0
    ensures ptrs[j] in NonNull(ptrs, k)
  {
    if j < k - 1 {
      NonNullElems(ptrs, k - 1, j);
    }
  }

  lemma {:induction false} ItemsSplit(h: Blocks, h': Blocks, S: Schema, ty: nat, items: seq<Struct>, k: nat, n: nat)
    requires 0 < k <= |items| && n > 0
    requires Agree(h, h', OwnedByItems(h, S, ty, items, k, n))
    ensures Agree(h, h', OwnedByItems(h, S, ty, items, k - 1, n)) &&
            Agree(h, h', OwnedBy(h, S, ty, items[k - 1], n - 1))
  {
    hide Agree;
    AgreeSplit(h, h', OwnedByItems(h, S, ty, items, k - 1, n), OwnedBy(h, S, ty, items[k - 1], n - 1));
  }

  lemma {:induction false} ItemsJoin(h: Blocks, h': Blocks, S: Schema, ty: nat, items: seq<Struct>, k: nat, n: nat)
    requires 0 < k <= |items| && n > 0
    requires OwnedByItems(h', S, ty, items, k - 1, n) == OwnedByItems(h, S, ty, items, k - 1, n)
    requires OwnedBy(h', S, ty, items[k - 1], n - 1) == OwnedBy(h, S, ty, items[k - 1], n - 1)
    ensures OwnedByItems(h', S, ty, items, k, n) == OwnedByItems(h, S, ty, items, k, n)
  {
  }

  lemma {:induction false} ItemsFitStep(h: Blocks, S: Schema, ty: nat, items: seq<Struct>, k: nat, n: nat)
    requires 0 < k <= |items| && n > 0
    ensures ItemsFit(h, S, ty, items, k, n) <==>
            ItemsFit(h, S, ty, items, k - 1, n) && Fits(h, S, ty, items[k - 1], n - 1)
  {
    hide Fits;
  }

  lemma {:induction false} NoItems(h: Blocks, h': Blocks, S: Schema, ty: nat, items: seq<Struct>, k: nat, n: nat)
    requires ItemsFit(h, S, ty, items, k, n)
    ensures k <= |items| && n > 0
    ensures k == 0 ==> ItemsFit(h', S, ty, items, k, n)
    ensures k == 0 ==> OwnedByItems(h', S, ty, items, k, n) == OwnedByItems(h, S, ty, items, k, n)
  {
  }

  lemma {:induction false} ItemsFrame(h: Blocks, h': Blocks, S: Schema, ty: nat, items: seq<Struct>, k: nat, n: nat)
    requires ItemsFit(h, S, ty, items, k, n) && Agree(h, h', OwnedByItems(h, S, ty, items, k, n))
    ensures ItemsFit(h', S, ty, items, k, n) &&
            OwnedByItems(h', S, ty, items, k, n) == OwnedByItems(h, S, ty, items, k, n)
    decreases n, 2, k
  {
    hide *;
    NoItems(h, h', S, ty, items, k, n);
    if k > 0 {
      ItemsFitStep(h, S, ty, items, k, n);
      ItemsFitStep(h', S, ty, items, k, n);
      ItemsSplit(h, h', S, ty, items, k, n);
      MsgFrame(h, h', S, ty, items[k - 1], n - 1);
      ItemsFrame(h, h', S, ty, items, k - 1, n);
      ItemsJoin(h, h', S, ty, items, k, n);
    }
  }

  lemma {:induction false} PointerFrame(h: Blocks, h': Blocks, S: Schema, f: Field, sub: nat, p: Address, count: nat,
      n: nat)
    requires PointerFits(h, S, f, sub, p, count, n) && Agree(h, h', OwnedByPointer(h, S, f, sub, p, count, n))
    ensures PointerFits(h', S, f, sub, p, count, n) &&
            OwnedByPointer(h', S, f, sub, p, count, n) == OwnedByPointer(h, S, f, sub, p, count, n)
    decreases n, 3
  {
    if p != 0 {
      var owned := OwnedByPointer(h, S, f, sub, p, count, n);
      var inner := owned[..|owned| - 1];
      assert owned == inner + [p];
      AgreeSplit(h, h', inner, [p]);
      assert p in [p];
      if f.ltype.LSubmessage? {
        assert inner == OwnedByItems(h, S, sub, h[p].items, Number(f, count), n);
        ItemsFrame(h, h', S, sub, h[p].items, Number(f, count), n);
      } else if PointerArray(f) {
        assert inner == NonNull(h[p].ptrs, count);
        forall k | 0 <= k < count && h[p].ptrs[k] != 0
          ensures h[p].ptrs[k] in h'
        {
          NonNullElems(h[p].ptrs, count, k);
        }
      }
    }
  }

  lemma {:induction false} CellFrame(h: Blocks, h': Blocks, S: Schema, f: Field, sub: nat, c: Cell, n: nat)
    requires CellFits(h, S, f, sub, c, n) && Agree(h, h', OwnedByCell(h, S, f, sub, c, n))
    ensures CellFits(h', S, f, sub, c, n) && OwnedByCell(h', S, f, sub, c, n) == OwnedByCell(h, S, f, sub, c, n)
    decreases n, 4
  {
    hide PointerFits, ItemsFit, OwnedByPointer, OwnedByItems, Agree;
    match Content(f, c)
    case Inline(items, count) =>
      if f.atype.Static? && f.ltype.LSubmessage? {
        ItemsFrame(h, h', S, sub, items, Number(f, count), n);
      }
    case Pointer(p, count) =>
      if f.atype.Pointer? {
        PointerFrame(h, h', S, f, sub, p, count, n);
      }
    case _ =>
  }

  lemma {:induction false} FieldsSplit(h: Blocks, h': Blocks, S: Schema, ty: nat, m: Struct, i: nat, n: nat)
    requires 0 < i <= |TypeOf(S, ty).fields|
    requires Agree(h, h', OwnedByFields(h, S, ty, m, i, n))
    ensures Agree(h, h', OwnedByFields(h, S, ty, m, i - 1, n))
    ensures var t := TypeOf(S, ty);
            Agree(h, h', OwnedByCell(h, S, t.fields[i - 1], SubType(t, i - 1), CellOf(t, m, i - 1), n))
  {
    hide Agree, OwnedByCell;
    var t := TypeOf(S, ty);
    AgreeSplit(h, h', OwnedByFields(h, S, ty, m, i - 1, n),
        OwnedByCell(h, S, t.fields[i - 1], SubType(t, i - 1), CellOf(t, m, i - 1), n));
  }

  lemma {:induction false} FieldsJoin(h: Blocks, h': Blocks, S: Schema, ty: nat, m: Struct, i: nat, n: nat)
    requires 0 < i <= |TypeOf(S, ty).fields|
    requires OwnedByFields(h', S, ty, m, i - 1, n) == OwnedByFields(h, S, ty, m, i - 1, n)
    requires var t := TypeOf(S, ty);
             OwnedByCell(h', S, t.fields[i - 1], SubType(t, i - 1), CellOf(t, m, i - 1), n) ==
             OwnedByCell(h, S, t.fields[i - 1], SubType(t, i - 1), CellOf(t, m, i - 1), n)
    ensures OwnedByFields(h', S, ty, m, i, n) == OwnedByFields(h, S, ty, m, i, n)
  {
    hide OwnedByCell;
  }

  lemma {:induction false} FieldsFitStep(h: Blocks, S: Schema, ty: nat, m: Struct, i: nat, n: nat)
    requires 0 < i <= |TypeOf(S, ty).fields|
    ensures var t := TypeOf(S, ty);
            FieldsFit(h, S, ty, m, i, n) <==>
            FieldsFit(h, S, ty, m, i - 1, n) &&
                CellFits(h, S, t.fields[i - 1], SubType(t, i - 1), CellOf(t, m, i - 1), n)
  {
    hide CellFits;
  }

  lemma {:induction false} NoFields(h: Blocks, h': Blocks, S: Schema, ty: nat, m: Struct, n: nat)
    ensures FieldsFit(h', S, ty, m, 0, n) && OwnedByFields(h', S, ty, m, 0, n) == OwnedByFields(h, S, ty, m, 0, n)
  {
  }

  lemma {:induction false} FieldsFrame(h: Blocks, h': Blocks, S: Schema, ty: nat, m: Struct, i: nat, n: nat)
    requires i <= |TypeOf(S, ty).fields| && FieldsFit(h, S, ty, m, i, n) &&
             Agree(h, h', OwnedByFields(h, S, ty, m, i, n))
    ensures FieldsFit(h', S, ty, m, i, n) && OwnedByFields(h', S, ty, m, i, n) == OwnedByFields(h, S, ty, m, i, n)
    decreases n, 5, i
  {
    hide *;
    var t := TypeOf(S, ty);
    if i == 0 {
      NoFields(h, h', S, ty, m, n);
    } else {
      FieldsFitStep(h, S, ty, m, i, n);
      FieldsFitStep(h', S, ty, m, i, n);
      FieldsSplit(h, h', S, ty, m, i, n);
      CellFrame(h, h', S, t.fields[i - 1], SubType(t, i - 1), CellOf(t, m, i - 1), n);
      FieldsFrame(h, h', S, ty, m, i - 1, n);
      FieldsJoin(h, h', S, ty, m, i, n);
    }
  }

  /** A message depends on no block but those it owns. */
  lemma {:induction false} MsgFrame(h: Blocks, h': Blocks, S: Schema, ty: nat, m: Struct, n: nat)
    requires Fits(h, S, ty, m, n) && Agree(h, h', OwnedBy(h, S, ty, m, n))
    ensures Fits(h', S, ty, m, n) && OwnedBy(h', S, ty, m, n) == OwnedBy(h, S, ty, m, n)
    decreases n, 6
  {
    hide FieldsFit, OwnedByFields, Agree;
    FieldsFrame(h, h', S, ty, m, |TypeOf(S, ty).fields|, n);
  }

  // ------------------------------------------------------------------ clearing

  /** Which entry's turn it is to release a cell: its own, or the member a union holds. */
  function Releaser(t: MsgType, m: Struct, l: nat): Option<nat> {
    if l >= |t.fields| || l >= |m.cells| then None
    else if !t.fields[l].htype.Oneof? then Some(l)
    else if !m.cells[l].Union? then None
    else
      match FindTag(t.fields, m.cells[l].which)
      case None => None
      case Some(k) => if Leader(t.fields, k) == l && t.fields[k].htype.Oneof? then Some(k) else None
  }

  function ClearedItems(S: Schema, ty: nat, items: seq<Struct>, k: nat): seq<Struct>
    decreases items, 0
  {
    seq(|items|, j requires 0 <= j < |items| => if j < k then Cleared(S, ty, items[j]) else items[j])
  }

  function ClearedContent(S: Schema, f: Field, sub: nat, c: Cell): Cell
    decreases c, 1
  {
    match c
    case Inline(items, count) =>
      if !(f.atype.Static? && f.ltype.LSubmessage?) then c
      else Inline(ClearedItems(S, sub, items, Number(f, count)), count)
    case Pointer(p, count) =>
      if f.atype.Pointer? then Cell.Pointer(0, if f.htype.Repeated? then 0 else count) else c
    case _ => c
  }

  /** The cell after its field is released: pointers are NULL, and the counts of dynamic arrays zero. */
  function ClearedCell(S: Schema, f: Field, sub: nat, c: Cell): Cell
    decreases c, 2
  {
    if !f.htype.Oneof? then ClearedContent(S, f, sub, c)
    else if c.Union? && c.which == f.tag then Cell.Union(c.which, ClearedContent(S, f, sub, c.content))
    else c
  }

  /** The structure after pb_release. */
  function Cleared(S: Schema, ty: nat, m: Struct): (r: Struct)
    ensures |r.cells| == |m.cells|
    decreases m, 3
  {
    var t := TypeOf(S, ty);
    Struct(seq(|m.cells|, l requires 0 <= l < |m.cells| =>
      match Releaser(t, m, l)
      case None => m.cells[l]
      case Some(k) => ClearedCell(S, t.fields[k], SubType(t, k), m.cells[l])))
  }
}
