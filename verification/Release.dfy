/** pb_release (pb_decode.c) over heap-allocated messages. */
module Release {
  import opened Basics
  import opened Descriptors
  import opened FieldIterator
  import opened Shapes
  import opened HeapMessages
  import opened Ownership

  /** The memory allocator: the blocks that are allocated, and a record of what has been freed. */
  class Heap {
    var blocks: Blocks
    ghost var freed: seq<Address>

    constructor (init: Blocks)
      ensures blocks == init && freed == []
    {
      blocks := init;
      freed := [];
    }

    /** pb_free: a pointer has to be NULL or lead to a block that is allocated. */
    method Free(p: Address)
      requires p == 0 || p in blocks
      modifies this
      ensures p == 0 ==> blocks == old(blocks) && freed == old(freed)
      ensures p != 0 ==> blocks == old(blocks) - {p} && freed == old(freed) + [p]
    {
      if p != 0 {
        blocks := blocks - {p};
        freed := freed + [p];
      }
    }
  }

  // ------------------------------------------------------------- what was freed

  function Without(h: Blocks, s: seq<Address>): Blocks {
    map a | a in h && a !in s :: h[a]
  }

  /** Exactly the blocks of s have been freed, in that order, and nothing else has changed. */
  ghost predicate Freed(h: Blocks, log: seq<Address>, h': Blocks, log': seq<Address>, s: seq<Address>) {
    h' == Without(h, s) && log' == log + s
  }

  /**
   * Exactly the blocks reached have been freed, each of them once and none that was not allocated,
   * and the others are as they were.
   */
  ghost predicate FreedOnce(h: Blocks, log: seq<Address>, h': Blocks, log': seq<Address>, reached: iset<Address>) {
    && log <= log' && Distinct(log'[|log|..])
    && (forall a :: a in log'[|log|..] <==> a in reached)
    && (forall a :: a in reached ==> a in h)
    && h' == (map a | a in h && a !in reached :: h[a])
  }

  lemma {:induction false} OnceEach(h: Blocks, log: seq<Address>, h': Blocks, log': seq<Address>, s: seq<Address>,
      reached: iset<Address>)
    requires Freed(h, log, h', log', s) && Distinct(s) && forall a :: a in s <==> a in reached
    requires forall a :: a in reached ==> a in h
    ensures FreedOnce(h, log, h', log', reached)
  {
    assert log'[|log|..] == s;
  }

  lemma {:induction false} NothingFreed(h: Blocks, log: seq<Address>)
    ensures Freed(h, log, h, log, [])
  {
  }

  lemma {:induction false} FreedMore(h0: Blocks, log0: seq<Address>, h1: Blocks, log1: seq<Address>, h2: Blocks,
      log2: seq<Address>, a: seq<Address>, b: seq<Address>)
    requires Freed(h0, log0, h1, log1, a) && Freed(h1, log1, h2, log2, b)
    ensures Freed(h0, log0, h2, log2, a + b)
  {
    assert log0 + a + b == log0 + (a + b);
    forall x
      ensures x in a + b <==> x in a || x in b
    {
    }
  }

  lemma {:induction false} DistinctParts(a: seq<Address>, b: seq<Address>)
    requires Distinct(a + b)
    ensures Distinct(a) && Distinct(b) && forall x :: x in a ==> x !in b
  {
    forall i, j | 0 <= i < j < |a|
      ensures a[i] != a[j]
    {
      assert (a + b)[i] == a[i] && (a + b)[j] == a[j];
    }
    forall i, j | 0 <= i < j < |b|
      ensures b[i] != b[j]
    {
      assert (a + b)[|a| + i] == b[i] && (a + b)[|a| + j] == b[j];
    }
    forall i, j | 0 <= i < |a| && 0 <= j < |b|
      ensures a[i] != b[j]
    {
      assert (a + b)[i] == a[i] && (a + b)[|a| + j] == b[j];
    }
  }

  /** What is still to be released is untouched by what has been. */
  lemma {:induction false} Untouched(h: Blocks, log: seq<Address>, h': Blocks, log': seq<Address>, a: seq<Address>,
      b: seq<Address>)
    requires Freed(h, log, h', log', a) && forall x :: x in a ==> x !in b
    ensures Agree(h, h', b)
  {
  }

  // -------------------------------------------------------------- repeated parts

  ghost predicate ItemsShaped(h: Blocks, S: Schema, ty: nat, items: seq<Struct>, k: nat, n: nat) {
    ItemsFit(h, S, ty, items, k, n) && Distinct(OwnedByItems(h, S, ty, items, k, n))
  }

  lemma {:induction false} ItemsPrefix(h: Blocks, S: Schema, ty: nat, items: seq<Struct>, j: nat, k: nat, n: nat)
    requires ItemsShaped(h, S, ty, items, k, n) && j <= k
    ensures ItemsShaped(h, S, ty, items, j, n)
    decreases k
  {
    hide Fits, Distinct, OwnedBy;
    if j < k {
      DistinctParts(OwnedByItems(h, S, ty, items, k - 1, n), OwnedBy(h, S, ty, items[k - 1], n - 1));
      ItemsPrefix(h, S, ty, items, j, k - 1, n);
    }
  }

  /** After the first k items, the next one is still as it was. */
  lemma {:induction false} NextItem(h: Blocks, log: seq<Address>, h': Blocks, log': seq<Address>, S: Schema, ty: nat,
      items: seq<Struct>, k: nat, count: nat, n: nat)
    requires ItemsShaped(h, S, ty, items, count, n) && k < count
    requires Freed(h, log, h', log', OwnedByItems(h, S, ty, items, k, n))
    ensures n > 0 && k < |items| && TreeShaped(h', S, ty, items[k], n - 1)
    ensures OwnedBy(h', S, ty, items[k], n - 1) == OwnedBy(h, S, ty, items[k], n - 1)
  {
    hide *;
    ItemsPrefix(h, S, ty, items, k + 1, count, n);
    LastOfItems(h, S, ty, items, k, n);
    Untouched(h, log, h', log', OwnedByItems(h, S, ty, items, k, n), OwnedBy(h, S, ty, items[k], n - 1));
    MsgFrame(h, h', S, ty, items[k], n - 1);
    StillShaped(h', S, ty, items[k], n - 1);
  }

  /** The last of k + 1 items owns nothing the others own. */
  lemma {:induction false} LastOfItems(h: Blocks, S: Schema, ty: nat, items: seq<Struct>, k: nat, n: nat)
    requires ItemsShaped(h, S, ty, items, k + 1, n)
    ensures n > 0 && k < |items| && Fits(h, S, ty, items[k], n - 1) && Distinct(OwnedBy(h, S, ty, items[k], n - 1))
    ensures forall x :: x in OwnedByItems(h, S, ty, items, k, n) ==> x !in OwnedBy(h, S, ty, items[k], n - 1)
  {
    hide Fits, OwnedBy, Distinct;
    DistinctParts(OwnedByItems(h, S, ty, items, k, n), OwnedBy(h, S, ty, items[k], n - 1));
  }

  lemma {:induction false} StillShaped(h: Blocks, S: Schema, ty: nat, m: Struct, n: nat)
    requires Fits(h, S, ty, m, n) && Distinct(OwnedBy(h, S, ty, m, n))
    ensures TreeShaped(h, S, ty, m, n)
  {
    hide Fits, OwnedBy, Distinct;
  }

  lemma {:induction false} ItemFreed(h: Blocks, log: seq<Address>, h1: Blocks, log1: seq<Address>, h2: Blocks,
      log2: seq<Address>,
                                     S: Schema, ty: nat, items: seq<Struct>, k: nat, n: nat)
    requires n > 0 && k < |items| && Freed(h, log, h1, log1, OwnedByItems(h, S, ty, items, k, n))
    requires Freed(h1, log1, h2, log2, OwnedBy(h, S, ty, items[k], n - 1))
    ensures Freed(h, log, h2, log2, OwnedByItems(h, S, ty, items, k + 1, n))
  {
    hide Freed, OwnedBy;
    FreedMore(h, log, h1, log1, h2, log2, OwnedByItems(h, S, ty, items, k, n), OwnedBy(h, S, ty, items[k], n - 1));
  }

  lemma {:induction false} NoItemFreed(h: Blocks, log: seq<Address>, S: Schema, ty: nat, items: seq<Struct>, count: nat,
      n: nat)
    requires ItemsShaped(h, S, ty, items, count, n)
    ensures count <= |items| && n > 0 && Freed(h, log, h, log, OwnedByItems(h, S, ty, items, 0, n))
    ensures ClearedItems(S, ty, items, 0) == items
  {
    hide Cleared;
  }

  lemma {:induction false} ClearedNext(S: Schema, ty: nat, items: seq<Struct>, k: nat)
    requires k < |items|
    ensures |ClearedItems(S, ty, items, k)| == |items| && ClearedItems(S, ty, items, k)[k] == items[k]
    ensures ClearedItems(S, ty, items, k + 1) == ClearedItems(S, ty, items, k)[k := Cleared(S, ty, items[k])]
  {
    hide Cleared;
  }

  /** The loop over a submessage or an array of submessages. */
  method ReleaseItems(heap: Heap, S: Schema, ty: nat, items: seq<Struct>, count: nat, ghost n: nat)
      returns (items': seq<Struct>)
    requires GoodSchema(S) && ItemsShaped(heap.blocks, S, ty, items, count, n)
    modifies heap
    ensures Freed(old(heap.blocks), old(heap.freed), heap.blocks, heap.freed,
            OwnedByItems(old(heap.blocks), S, ty, items, count, n))
    ensures items' == ClearedItems(S, ty, items, count)
    decreases n, 1
  {
    ghost var h, log := heap.blocks, heap.freed;
    items' := items;
    NoItemFreed(h, log, S, ty, items, count, n);
    hide *;
    for k := 0 to count
      invariant Freed(h, log, heap.blocks, heap.freed, OwnedByItems(h, S, ty, items, k, n))
      invariant items' == ClearedItems(S, ty, items, k)
    {
      NextItem(h, log, heap.blocks, heap.freed, S, ty, items, k, count, n);
      var item := ReleaseItem(heap, S, ty, items, items'[k], k, n, h, log);
      ClearedNext(S, ty, items, k);
      items' := items'[k := item];
    }
  }

  /** One turn of that loop. */
  method ReleaseItem(heap: Heap, S: Schema, ty: nat, ghost items: seq<Struct>, item: Struct, ghost k: nat, ghost n: nat,
      ghost h: Blocks, ghost log: seq<Address>)
    returns (item': Struct)
    requires GoodSchema(S) && n > 0 && k < |items| && item == items[k] && TreeShaped(heap.blocks, S, ty, item, n - 1)
    requires OwnedBy(heap.blocks, S, ty, item, n - 1) == OwnedBy(h, S, ty, item, n - 1)
    requires Freed(h, log, heap.blocks, heap.freed, OwnedByItems(h, S, ty, items, k, n))
    modifies heap
    ensures Freed(h, log, heap.blocks, heap.freed, OwnedByItems(h, S, ty, items, k + 1, n))
    ensures item' == Cleared(S, ty, item)
    decreases n, 0
  {
    hide *;
    ghost var h1, log1 := heap.blocks, heap.freed;
    item' := ReleaseMsg(heap, S, ty, item, n - 1);
    ItemFreed(h, log, h1, log1, heap.blocks, heap.freed, S, ty, items, k, n);
  }

  /** The loop over a repeated string or bytes field: free every entry of the array. */
  method ReleaseEntries(heap: Heap, p: Address, count: nat)
    requires p in heap.blocks && heap.blocks[p].Pointers? && count <= |heap.blocks[p].ptrs|
    requires forall k :: 0 <= k < count && heap.blocks[p].ptrs[k] != 0 ==> heap.blocks[p].ptrs[k] in heap.blocks
    requires Distinct(NonNull(heap.blocks[p].ptrs, count) + [p])
    modifies heap
    ensures p in heap.blocks && heap.blocks - {p} ==
            Without(old(heap.blocks), NonNull(old(heap.blocks)[p].ptrs, count)) - {p}
    ensures heap.freed == old(heap.freed) + NonNull(old(heap.blocks)[p].ptrs, count)
    ensures heap.blocks[p].Pointers? && forall k :: 0 <= k < count ==>
            k < |heap.blocks[p].ptrs| && heap.blocks[p].ptrs[k] == 0
  {
    hide NonNull, Without, Distinct;
    NoEntryFreed(heap.blocks, heap.blocks[p].ptrs, p);
    ghost var h, log, ptrs := heap.blocks, heap.freed, heap.blocks[p].ptrs;
    for k := 0 to count
      invariant p in heap.blocks && heap.blocks[p].Pointers? && |heap.blocks[p].ptrs| == |ptrs|
      invariant heap.blocks - {p} == Without(h, NonNull(ptrs, k)) - {p}
      invariant heap.freed == log + NonNull(ptrs, k)
      invariant forall j :: 0 <= j < |ptrs| ==> heap.blocks[p].ptrs[j] == if j < k then 0 else ptrs[j]
    {
      NextEntry(ptrs, k, count, p);
      var entry := heap.blocks[p].ptrs[k];
      EntryLive(h, heap.blocks, ptrs, k, p);
      EntryFreed(h, heap.blocks, ptrs, k, p, Pointers(heap.blocks[p].ptrs[k := 0]));
      heap.Free(entry);
      heap.blocks := heap.blocks[p := Pointers(heap.blocks[p].ptrs[k := 0])];
    }
  }

  lemma {:induction false} NoEntryFreed(h: Blocks, ptrs: seq<Address>, p: Address)
    ensures NonNull(ptrs, 0) == [] && h - {p} == Without(h, NonNull(ptrs, 0)) - {p}
  {
  }

  lemma {:induction false} EntryLive(h: Blocks, h1: Blocks, ptrs: seq<Address>, k: nat, p: Address)
    requires k < |ptrs| && h1 - {p} == Without(h, NonNull(ptrs, k)) - {p}
    requires ptrs[k] != 0 ==> ptrs[k] in h && ptrs[k] != p && ptrs[k] !in NonNull(ptrs, k)
    ensures ptrs[k] != 0 ==> ptrs[k] in h1
  {
    if ptrs[k] != 0 {
      assert ptrs[k] in h1 - {p};
    }
  }

  lemma {:induction false} EntryFreed(h: Blocks, h1: Blocks, ptrs: seq<Address>, k: nat, p: Address, b: Block)
    requires k < |ptrs| && h1 - {p} == Without(h, NonNull(ptrs, k)) - {p}
    ensures ptrs[k] == 0 ==> h1[p := b] - {p} == Without(h, NonNull(ptrs, k + 1)) - {p}
    ensures ptrs[k] != 0 ==> (h1 - {ptrs[k]})[p := b] - {p} == Without(h, NonNull(ptrs, k + 1)) - {p}
    ensures NonNull(ptrs, k + 1) == NonNull(ptrs, k) + (if ptrs[k] == 0 then [] else [ptrs[k]])
  {
    var a, x := NonNull(ptrs, k), ptrs[k];
    assert h1[p := b] - {p} == h1 - {p};
    if x == 0 {
      assert NonNull(ptrs, k + 1) == a;
    } else {
      assert (h1 - {x})[p := b] - {p} == (h1 - {p}) - {x};
      forall y
        ensures y in a + [x] <==> y in a || y == x
      {
      }
      assert Without(h, a + [x]) == Without(h, a) - {x};
    }
  }

  lemma {:induction false} NextEntry(ptrs: seq<Address>, k: nat, count: nat, p: Address)
    requires k < count <= |ptrs| && Distinct(NonNull(ptrs, count) + [p])
    ensures ptrs[k] != 0 ==> ptrs[k] != p && ptrs[k] !in NonNull(ptrs, k)
    decreases count
  {
    if k == count - 1 {
      var a := NonNull(ptrs, k);
      if ptrs[k] != 0 {
        assert NonNull(ptrs, count) + [p] == a + ([ptrs[k]] + [p]);
        DistinctParts(a, [ptrs[k]] + [p]);
        DistinctParts([ptrs[k]], [p]);
        assert ptrs[k] in [ptrs[k]] + [p];
      }
    } else {
      var a, b := NonNull(ptrs, count - 1), NonNull(ptrs, count)[|NonNull(ptrs, count - 1)|..];
      DistinctDrop(a, b, [p]);
      NextEntry(ptrs, k, count - 1, p);
    }
  }

  lemma {:induction false} DistinctDrop(a: seq<Address>, b: seq<Address>, c: seq<Address>)
    requires Distinct(a + b + c)
    ensures Distinct(a + c)
  {
    forall i, j | 0 <= i < j < |a + c|
      ensures (a + c)[i] != (a + c)[j]
    {
      var i', j' := if i < |a| then i else i + |b|, if j < |a| then j else j + |b|;
      assert (a + c)[i] == (a + b + c)[i'] && (a + c)[j] == (a + b + c)[j'];
    }
  }

  // ----------------------------------------------------------------- one field

  ghost predicate PointerShaped(h: Blocks, S: Schema, f: Field, sub: nat, p: Address, count: nat, n: nat) {
    p != 0 && PointerFits(h, S, f, sub, p, count, n) && Distinct(OwnedByPointer(h, S, f, sub, p, count, n))
  }

  lemma {:induction false} PointsToItems(h: Blocks, S: Schema, f: Field, sub: nat, p: Address, count: nat, n: nat)
    requires PointerShaped(h, S, f, sub, p, count, n) && f.ltype.LSubmessage?
    ensures p in h && h[p].Structs? && ItemsShaped(h, S, sub, h[p].items, Number(f, count), n)
    ensures p !in OwnedByItems(h, S, sub, h[p].items, Number(f, count), n)
    ensures OwnedByPointer(h, S, f, sub, p, count, n) == OwnedByItems(h, S, sub, h[p].items, Number(f, count), n) + [p]
  {
    hide ItemsFit, OwnedByItems, Distinct;
    DistinctParts(OwnedByItems(h, S, sub, h[p].items, Number(f, count), n), [p]);
    assert p in [p];
  }

  lemma {:induction false} PointsToEntries(h: Blocks, S: Schema, f: Field, sub: nat, p: Address, count: nat, n: nat)
    requires PointerShaped(h, S, f, sub, p, count, n) && PointerArray(f)
    ensures p in h && h[p].Pointers? && count <= |h[p].ptrs|
    ensures forall k :: 0 <= k < count && h[p].ptrs[k] != 0 ==> h[p].ptrs[k] in h
    ensures OwnedByPointer(h, S, f, sub, p, count, n) == NonNull(h[p].ptrs, count) + [p]
    ensures Distinct(NonNull(h[p].ptrs, count) + [p])
  {
    hide Distinct;
  }

  lemma {:induction false} PointsToData(h: Blocks, S: Schema, f: Field, sub: nat, p: Address, count: nat, n: nat)
    requires PointerShaped(h, S, f, sub, p, count, n) && !PointerArray(f) && !f.ltype.LSubmessage?
    ensures p in h && OwnedByPointer(h, S, f, sub, p, count, n) == [p]
  {
  }

  /** The main item is freed last. */
  lemma {:induction false} MainItemFreed(h: Blocks, log: seq<Address>, h1: Blocks, log1: seq<Address>, s: seq<Address>,
      p: Address)
    requires log1 == log + s && p in h1 && h1 - {p} == Without(h, s) - {p}
    ensures Freed(h, log, h1 - {p}, log1 + [p], s + [p])
  {
    forall y
      ensures y in s + [p] <==> y in s || y == p
    {
    }
    assert Without(h, s + [p]) == Without(h, s) - {p};
  }

  /** The part of pb_release_single_field for a pointer that is not NULL. */
  method ReleasePointer(heap: Heap, S: Schema, f: Field, sub: nat, p: Address, count: nat, ghost n: nat)
    requires GoodSchema(S) && PointerShaped(heap.blocks, S, f, sub, p, count, n)
    modifies heap
    ensures Freed(old(heap.blocks), old(heap.freed), heap.blocks, heap.freed,
            OwnedByPointer(old(heap.blocks), S, f, sub, p, count, n))
    decreases n, 2
  {
    ghost var h, log := heap.blocks, heap.freed;
    ghost var inner := [];
    hide PointerShaped, Distinct, OwnedByItems, OwnedByPointer, ItemsShaped, GoodSchema, ClearedItems, NonNull;
    if f.ltype.LSubmessage? {
      PointsToItems(h, S, f, sub, p, count, n);
      inner := OwnedByItems(h, S, sub, h[p].items, Number(f, count), n);
      var items := ReleaseItems(heap, S, sub, heap.blocks[p].items, Number(f, count), n);
      heap.blocks := heap.blocks[p := Structs(items)];
      assert heap.blocks - {p} == Without(h, inner) - {p};
    } else if PointerArray(f) {
      PointsToEntries(h, S, f, sub, p, count, n);
      inner := NonNull(h[p].ptrs, count);
      ReleaseEntries(heap, p, count);
    } else {
      PointsToData(h, S, f, sub, p, count, n);
      assert h == Without(h, inner);
    }
    MainItemFreed(h, log, heap.blocks, heap.freed, inner, p);
    heap.Free(p);
  }

  ghost predicate CellShaped(h: Blocks, S: Schema, f: Field, sub: nat, c: Cell, n: nat) {
    CellFits(h, S, f, sub, c, n) && Distinct(OwnedByCell(h, S, f, sub, c, n))
  }

  /** pb_release_single_field, for the contents of a field or of the union member it is. */
  method ReleaseContent(heap: Heap, S: Schema, f: Field, sub: nat, c: Cell, ghost n: nat) returns (c': Cell)
    requires GoodSchema(S) && (f.atype.Pointer? ==> c.Pointer?) &&
             (f.atype.Static? && f.ltype.LSubmessage? ==> c.Inline?)
    requires f.atype.Pointer? && c.p != 0 ==> PointerShaped(heap.blocks, S, f, sub, c.p, c.count, n)
    requires f.atype.Static? && f.ltype.LSubmessage? ==>
             ItemsShaped(heap.blocks, S, sub, c.items, Number(f, c.count), n)
    modifies heap
    ensures c' == ClearedContent(S, f, sub, c)
    ensures Freed(old(heap.blocks), old(heap.freed), heap.blocks, heap.freed,
              if f.atype.Pointer? then OwnedByPointer(old(heap.blocks), S, f, sub, c.p, c.count, n)
              else if f.ltype.LSubmessage? then OwnedByItems(old(heap.blocks), S, sub, c.items, Number(f, c.count), n)
              else [])
    decreases n, 3
  {
    ghost var h, log := heap.blocks, heap.freed;
    hide PointerShaped, Distinct, OwnedByItems, ItemsShaped, GoodSchema, ClearedItems, Freed;
    NothingFreed(h, log);
    c' := c;
    if f.atype.Pointer? {
      if c.p != 0 {
        hide OwnedByPointer;
        ReleasePointer(heap, S, f, sub, c.p, c.count, n);
      }
      // An array is released, so its size is set to 0.
      c' := Cell.Pointer(0, if f.htype.Repeated? then 0 else c.count);
    } else if f.ltype.LSubmessage? {
      var items := ReleaseItems(heap, S, sub, c.items, Number(f, c.count), n);
      c' := Inline(items, c.count);
    }
  }

  lemma {:induction false} ContentShaped(h: Blocks, S: Schema, f: Field, sub: nat, c: Cell, n: nat)
    requires CellShaped(h, S, f, sub, c, n) && !(f.htype.Oneof? && c.which != f.tag)
    ensures var v := Content(f, c);
            && (f.atype.Pointer? ==> v.Pointer?) && (f.atype.Static? && f.ltype.LSubmessage? ==> v.Inline?)
            && (f.atype.Pointer? && v.p != 0 ==> PointerShaped(h, S, f, sub, v.p, v.count, n))
            && (f.atype.Static? && f.ltype.LSubmessage? ==> ItemsShaped(h, S, sub, v.items, Number(f, v.count), n))
            && OwnedByCell(h, S, f, sub, c, n) ==
               if f.atype.Pointer? then OwnedByPointer(h, S, f, sub, v.p, v.count, n)
               else if f.ltype.LSubmessage? then OwnedByItems(h, S, sub, v.items, Number(f, v.count), n)
               else []
  {
    hide PointerFits, ItemsFit, OwnedByPointer, OwnedByItems, Distinct;
  }

  lemma {:induction false} OtherMember(h: Blocks, S: Schema, f: Field, sub: nat, c: Cell, n: nat)
    requires f.htype.Oneof? && c.Union? && c.which != f.tag
    ensures OwnedByCell(h, S, f, sub, c, n) == [] && ClearedCell(S, f, sub, c) == c
  {
  }

  /** pb_release_single_field. */
  method ReleaseSingleField(heap: Heap, S: Schema, f: Field, sub: nat, c: Cell, ghost n: nat) returns (c': Cell)
    requires GoodSchema(S) && CellShaped(heap.blocks, S, f, sub, c, n)
    modifies heap
    ensures Freed(old(heap.blocks), old(heap.freed), heap.blocks, heap.freed,
            OwnedByCell(old(heap.blocks), S, f, sub, c, n))
    ensures FreedOnce(old(heap.blocks), old(heap.freed), heap.blocks, heap.freed,
            ReachableFrom(old(heap.blocks), S, f, sub, c, n))
    ensures c' == ClearedCell(S, f, sub, c)
    decreases n, 4
  {
    ghost var h, log := heap.blocks, heap.freed;
    if f.htype.Oneof? {
      if c.which != f.tag {
        OtherMember(heap.blocks, S, f, sub, c, n);
        NothingFreed(heap.blocks, heap.freed);
        CellFreed(h, log, heap.blocks, heap.freed, S, f, sub, c, n);
        return c; // the union holds another member
      }
    }
    ContentShaped(heap.blocks, S, f, sub, c, n);
    hide OwnedByCell, OwnedByPointer, OwnedByItems, CellShaped, PointerShaped, ItemsShaped, GoodSchema, Freed,
        ClearedContent;
    var v := ReleaseContent(heap, S, f, sub, if f.htype.Oneof? then c.content else c, n);
    c' := if f.htype.Oneof? then Cell.Union(c.which, v) else v;
    CellFreed(h, log, heap.blocks, heap.freed, S, f, sub, c, n);
  }

  lemma {:induction false} CellFreed(h: Blocks, log: seq<Address>, h': Blocks, log': seq<Address>, S: Schema, f: Field,
      sub: nat, c: Cell, n: nat)
    requires CellShaped(h, S, f, sub, c, n) && Freed(h, log, h', log', OwnedByCell(h, S, f, sub, c, n))
    ensures FreedOnce(h, log, h', log', ReachableFrom(h, S, f, sub, c, n))
  {
    hide OwnedByCell, ReachedFrom, CellFits, Freed, FreedOnce, Distinct;
    forall a
      ensures a in OwnedByCell(h, S, f, sub, c, n) <==> ReachedFrom(h, S, f, sub, c, a, n)
      ensures ReachedFrom(h, S, f, sub, c, a, n) ==> a in h
    {
      CellOwned(h, S, f, sub, c, a, n);
    }
    OnceEach(h, log, h', log', OwnedByCell(h, S, f, sub, c, n), ReachableFrom(h, S, f, sub, c, n));
  }

  // ------------------------------------------------------------- whole messages

  /** The structure when the entries before i have been released. */
  ghost predicate ClearedTo(S: Schema, ty: nat, m: Struct, m': Struct, i: nat) {
    var t := TypeOf(S, ty);
    && |m'.cells| == |m.cells| == |t.fields|
    && forall l :: 0 <= l < |m.cells| ==>
         m'.cells[l] == match Releaser(t, m, l)
                        case None => m.cells[l]
                        case Some(k) =>
                          if k < i then ClearedCell(S, t.fields[k], SubType(t, k), m.cells[l]) else m.cells[l]
  }

  lemma {:induction false} ClearedStart(S: Schema, ty: nat, m: Struct)
    requires |m.cells| == |TypeOf(S, ty).fields|
    ensures ClearedTo(S, ty, m, m, 0)
  {
    hide Releaser, ClearedCell;
  }

  lemma {:induction false} ClearedEnd(S: Schema, ty: nat, m: Struct, m': Struct)
    requires ClearedTo(S, ty, m, m', |TypeOf(S, ty).fields|)
    ensures m' == Cleared(S, ty, m)
  {
    hide ClearedCell;
    assert m'.cells == Cleared(S, ty, m).cells;
  }

  /** A union cell that names an entry is released at the turn of that entry. */
  lemma {:induction false} ReleaserOf(t: MsgType, m: Struct, i: nat)
    requires DistinctTags(t.fields) && i < |t.fields| == |m.cells|
    requires var c := CellOf(t, m, i); t.fields[i].htype.Oneof? ==> c.Union? && c.which == t.fields[i].tag
    ensures Releaser(t, m, Leader(t.fields, i)) == Some(i)
  {
    LeaderLeads(t.fields, i);
    FindFromDistinct(t.fields, i, 0);
  }

  lemma {:induction false} ReleaserIs(t: MsgType, m: Struct, l: nat, k: nat)
    requires l < |m.cells| == |t.fields| && Releaser(t, m, l) == Some(k)
    ensures k < |t.fields| && Leader(t.fields, k) == l
    ensures t.fields[k].htype.Oneof? ==> m.cells[l].Union? && m.cells[l].which == t.fields[k].tag
  {
    if !t.fields[l].htype.Oneof? {
      LeaderOwn(t.fields, l);
    }
  }

  /** Releasing a member of a union does not change which member it holds. */
  lemma {:induction false} KeepsWhich(S: Schema, f: Field, sub: nat, c: Cell)
    requires c.Union?
    ensures ClearedCell(S, f, sub, c).Union? && ClearedCell(S, f, sub, c).which == c.which
  {
  }

  lemma {:induction false} LeaderOwn(d: Desc, l: nat)
    requires l < |d| && !d[l].htype.Oneof?
    ensures Leader(d, l) == l
  {
  }

  /** Until its turn comes, the cell an entry will release is as it was at the start. */
  lemma {:induction false} NotYet(S: Schema, ty: nat, m: Struct, m': Struct, i: nat)
    requires ClearedTo(S, ty, m, m', i) && i < |TypeOf(S, ty).fields| && DistinctTags(TypeOf(S, ty).fields)
    ensures var t := TypeOf(S, ty); var c := CellOf(t, m, i);
            t.fields[i].htype.Oneof? ==> c.Union? ==> CellOf(t, m', i).Union? && CellOf(t, m', i).which == c.which
    ensures var t := TypeOf(S, ty); var c := CellOf(t, m, i);
            !t.fields[i].htype.Oneof? || (c.Union? && c.which == t.fields[i].tag) ==> CellOf(t, m', i) == c
  {
    hide Releaser, ClearedCell;
    var t := TypeOf(S, ty);
    var l := Leader(t.fields, i);
    if !t.fields[i].htype.Oneof? || (CellOf(t, m, i).Union? && CellOf(t, m, i).which == t.fields[i].tag) {
      ReleaserOf(t, m, i);
    } else if m.cells[l].Union? && Releaser(t, m, l).Some? {
      var k := Releaser(t, m, l).value;
      ReleaserIs(t, m, l, k);
      KeepsWhich(S, t.fields[k], SubType(t, k), m.cells[l]);
    }
  }

  /** The turn of one entry. */
  lemma {:induction false} ClearedOne(S: Schema, ty: nat, m: Struct, m': Struct, i: nat)
    requires ClearedTo(S, ty, m, m', i) && i < |TypeOf(S, ty).fields| && DistinctTags(TypeOf(S, ty).fields)
    requires var t := TypeOf(S, ty); t.fields[i].htype.Oneof? ==> CellOf(t, m, i).Union?
    ensures var t := TypeOf(S, ty); var l := Leader(t.fields, i);
            && l < |m'.cells|
            && ClearedTo(S, ty, m, Struct(m'.cells[l := ClearedCell(S, t.fields[i], SubType(t, i), m'.cells[l])]),
                i + 1)
  {
    var t := TypeOf(S, ty);
    var l, f := Leader(t.fields, i), t.fields[i];
    NotYet(S, ty, m, m', i);
    var was, now := m.cells[l], m'.cells[l];
    var new' := ClearedCell(S, f, SubType(t, i), now);
    var m2 := Struct(m'.cells[l := new']);
    if !f.htype.Oneof? || was.which == f.tag {
      ReleaserOf(t, m, i);
      assert now == was;
    } else {
      assert new' == now;
      if Releaser(t, m, l) == Some(i) {
        ReleaserIs(t, m, l, i);
        assert false;
      }
    }
    forall j | 0 <= j < |m.cells|
      ensures m2.cells[j] == match Releaser(t, m, j)
                             case None => m.cells[j]
                             case Some(k) =>
                               if k < i + 1 then ClearedCell(S, t.fields[k], SubType(t, k), m.cells[j]) else m.cells[j]
    {
      if j != l && Releaser(t, m, j) == Some(i) {
        ReleaserIs(t, m, j, i);
        assert false;
      }
      hide Releaser, ClearedCell, Leader, SubType;
    }
  }

  lemma {:induction false} TypeTags(S: Schema, ty: nat)
    requires GoodSchema(S)
    ensures NonzeroTags(TypeOf(S, ty).fields) && DistinctTags(TypeOf(S, ty).fields)
  {
  }

  ghost predicate FieldsShaped(h: Blocks, S: Schema, ty: nat, m: Struct, i: nat, n: nat)
    requires i <= |TypeOf(S, ty).fields|
  {
    FieldsFit(h, S, ty, m, i, n) && Distinct(OwnedByFields(h, S, ty, m, i, n))
  }

  lemma {:induction false} FieldsPrefix(h: Blocks, S: Schema, ty: nat, m: Struct, j: nat, i: nat, n: nat)
    requires j <= i <= |TypeOf(S, ty).fields| && FieldsShaped(h, S, ty, m, i, n)
    ensures FieldsShaped(h, S, ty, m, j, n)
    decreases i
  {
    hide CellFits, Distinct, OwnedByCell;
    if j < i {
      var t := TypeOf(S, ty);
      DistinctParts(OwnedByFields(h, S, ty, m, i - 1, n),
          OwnedByCell(h, S, t.fields[i - 1], SubType(t, i - 1), CellOf(t, m, i - 1), n));
      FieldsPrefix(h, S, ty, m, j, i - 1, n);
    }
  }

  /** After the first i entries, the cell of the next one is still as it was. */
  lemma {:induction false} NextField(h: Blocks, log: seq<Address>, h1: Blocks, log1: seq<Address>, S: Schema, ty: nat,
      m: Struct, i: nat, n: nat)
    requires GoodSchema(S) && TreeShaped(h, S, ty, m, n) && i < |TypeOf(S, ty).fields|
    requires Freed(h, log, h1, log1, OwnedByFields(h, S, ty, m, i, n))
    ensures var t := TypeOf(S, ty); var f := t.fields[i];
            && CellShaped(h1, S, f, SubType(t, i), CellOf(t, m, i), n)
            && OwnedByCell(h1, S, f, SubType(t, i), CellOf(t, m, i), n) ==
                OwnedByCell(h, S, f, SubType(t, i), CellOf(t, m, i), n)
            && (f.htype.Oneof? ==> CellOf(t, m, i).Union?)
  {
    var t := TypeOf(S, ty);
    FieldsPrefix(h, S, ty, m, i + 1, |t.fields|, n);
    var a, b := OwnedByFields(h, S, ty, m, i, n), OwnedByCell(h, S, t.fields[i], SubType(t, i), CellOf(t, m, i), n);
    assert OwnedByFields(h, S, ty, m, i + 1, n) == a + b;
    assert CellFits(h, S, t.fields[i], SubType(t, i), CellOf(t, m, i), n);
    hide Freed, OwnedByCell, OwnedByFields, Distinct, Agree, FieldsFit;
    DistinctParts(a, b);
    Untouched(h, log, h1, log1, a, b);
    CellFrame(h, h1, S, t.fields[i], SubType(t, i), CellOf(t, m, i), n);
  }

  /** A union that holds another member owns and clears nothing for this entry, whatever state it is in. */
  lemma {:induction false} CurrentCell(h: Blocks, S: Schema, ty: nat, m: Struct, m': Struct, i: nat, n: nat)
    requires GoodSchema(S) && i < |TypeOf(S, ty).fields| && ClearedTo(S, ty, m, m', i)
    requires var t := TypeOf(S, ty);
             && CellShaped(h, S, t.fields[i], SubType(t, i), CellOf(t, m, i), n)
             && (t.fields[i].htype.Oneof? ==> CellOf(t, m, i).Union?)
    ensures var t := TypeOf(S, ty); var f := t.fields[i]; var c := CellOf(t, m', i);
            && CellShaped(h, S, f, SubType(t, i), c, n)
            && OwnedByCell(h, S, f, SubType(t, i), c, n) == OwnedByCell(h, S, f, SubType(t, i), CellOf(t, m, i), n)
  {
    hide OwnedByCell, ClearedTo, GoodSchema, PointerFits, ItemsFit;
    var t := TypeOf(S, ty);
    TypeTags(S, ty);
    NotYet(S, ty, m, m', i);
    var f, was, now := t.fields[i], CellOf(t, m, i), CellOf(t, m', i);
    if f.htype.Oneof? && was.which != f.tag {
      OtherMember(h, S, f, SubType(t, i), was, n);
      OtherMember(h, S, f, SubType(t, i), now, n);
    }
  }

  lemma {:induction false} FieldFreed(h: Blocks, log: seq<Address>, h1: Blocks, log1: seq<Address>, h2: Blocks,
      log2: seq<Address>,
                                      S: Schema, ty: nat, m: Struct, i: nat, n: nat)
    requires i < |TypeOf(S, ty).fields| && Freed(h, log, h1, log1, OwnedByFields(h, S, ty, m, i, n))
    requires var t := TypeOf(S, ty);
             Freed(h1, log1, h2, log2, OwnedByCell(h, S, t.fields[i], SubType(t, i), CellOf(t, m, i), n))
    ensures Freed(h, log, h2, log2, OwnedByFields(h, S, ty, m, i + 1, n))
  {
    hide Freed, OwnedByCell;
    var t := TypeOf(S, ty);
    FreedMore(h, log, h1, log1, h2, log2, OwnedByFields(h, S, ty, m, i, n),
        OwnedByCell(h, S, t.fields[i], SubType(t, i), CellOf(t, m, i), n));
  }

  /** One turn of the loop of pb_release. */
  method ReleaseField(heap: Heap, S: Schema, ty: nat, cur: Struct, i: nat, ghost m: Struct, ghost n: nat,
      ghost h: Blocks, ghost log: seq<Address>)
    returns (cur': Struct)
    requires GoodSchema(S) && TreeShaped(h, S, ty, m, n) && i < |TypeOf(S, ty).fields| && ClearedTo(S, ty, m, cur, i)
    requires Freed(h, log, heap.blocks, heap.freed, OwnedByFields(h, S, ty, m, i, n))
    modifies heap
    ensures ClearedTo(S, ty, m, cur', i + 1)
    ensures Freed(h, log, heap.blocks, heap.freed, OwnedByFields(h, S, ty, m, i + 1, n))
    decreases n, 5
  {
    var t := TypeOf(S, ty);
    ghost var h1, log1 := heap.blocks, heap.freed;
    TypeTags(S, ty);
    NextField(h, log, h1, log1, S, ty, m, i, n);
    CurrentCell(h1, S, ty, m, cur, i, n);
    ClearedOne(S, ty, m, cur, i);
    var l := Leader(t.fields, i);
    var c := cur.cells[l];
    assert c == CellOf(t, cur, i);
    hide *;
    c := ReleaseSingleField(heap, S, t.fields[i], SubType(t, i), c, n);
    FieldFreed(h, log, h1, log1, heap.blocks, heap.freed, S, ty, m, i, n);
    cur' := Struct(cur.cells[l := c]);
  }

  lemma {:induction false} ReleaseStart(h: Blocks, log: seq<Address>, S: Schema, ty: nat, m: Struct, n: nat)
    requires TreeShaped(h, S, ty, m, n)
    ensures ClearedTo(S, ty, m, m, 0) && Freed(h, log, h, log, OwnedByFields(h, S, ty, m, 0, n))
    ensures OwnedBy(h, S, ty, m, n) == OwnedByFields(h, S, ty, m, |TypeOf(S, ty).fields|, n)
  {
    ClearedStart(S, ty, m);
    NothingFreed(h, log);
  }

  /**
   * pb_release: frees exactly the blocks the message owns, each once, while they are allocated;
   * NULLs every pointer and zeroes the count of every dynamic array.
   */
  method ReleaseMsg(heap: Heap, S: Schema, ty: nat, m: Struct, ghost n: nat) returns (m': Struct)
    requires GoodSchema(S) && TreeShaped(heap.blocks, S, ty, m, n)
    modifies heap
    ensures Freed(old(heap.blocks), old(heap.freed), heap.blocks, heap.freed, OwnedBy(old(heap.blocks), S, ty, m, n))
    ensures FreedOnce(old(heap.blocks), old(heap.freed), heap.blocks, heap.freed,
            Reachable(old(heap.blocks), S, ty, m, n))
    ensures m' == Cleared(S, ty, m)
    decreases n, 6
  {
    hide Freed, ClearedTo, TreeShaped, GoodSchema, OwnedByFields, OwnedBy, Cleared;
    ghost var h, log := heap.blocks, heap.freed;
    TypeTags(S, ty);
    ReleaseStart(h, log, S, ty, m, n);
    m' := m;
    var d := TypeOf(S, ty).fields;
    var iter := new FieldIter(d, 0);
    if d == [] {
      ClearedEnd(S, ty, m, m');
      MessageFreed(h, log, heap.blocks, heap.freed, S, ty, m, n);
      return;
    }
    var more := true;
    while more
      invariant iter.Valid() && iter.start == d && iter.pos < |d| && fresh(iter)
      invariant ClearedTo(S, ty, m, m', if more then iter.pos else |d|)
      invariant Freed(h, log, heap.blocks, heap.freed, OwnedByFields(h, S, ty, m, if more then iter.pos else |d|, n))
      decreases more, |d| - iter.pos
    {
      m' := ReleaseField(heap, S, ty, m', iter.pos, m, n, h, log);
      more := iter.Next();
    }
    ClearedEnd(S, ty, m, m');
    MessageFreed(h, log, heap.blocks, heap.freed, S, ty, m, n);
  }

  lemma {:induction false} MessageFreed(h: Blocks, log: seq<Address>, h': Blocks, log': seq<Address>, S: Schema,
      ty: nat, m: Struct, n: nat)
    requires TreeShaped(h, S, ty, m, n) && Freed(h, log, h', log', OwnedBy(h, S, ty, m, n))
    ensures FreedOnce(h, log, h', log', Reachable(h, S, ty, m, n))
  {
    hide OwnedBy, Reached, Fits, Freed, FreedOnce, Distinct;
    forall a
      ensures a in OwnedBy(h, S, ty, m, n) <==> Reached(h, S, ty, m, a, n)
      ensures Reached(h, S, ty, m, a, n) ==> a in h
    {
      MessageOwned(h, S, ty, m, a, n);
    }
    OnceEach(h, log, h', log', OwnedBy(h, S, ty, m, n), Reachable(h, S, ty, m, n));
  }

  // ------------------------------------------------------------- what is left over

  ghost predicate OwnsNothing(h: Blocks, S: Schema, ty: nat, m: Struct, n: nat) {
    Fits(h, S, ty, m, n) && OwnedBy(h, S, ty, m, n) == []
  }

  lemma {:induction false} ItemsOwnNothing(h: Blocks, S: Schema, ty: nat, items: seq<Struct>, k: nat, n: nat)
    requires k <= |items| && n > 0
    requires forall j :: 0 <= j < k ==> OwnsNothing(h, S, ty, items[j], n - 1)
    ensures ItemsFit(h, S, ty, items, k, n) && OwnedByItems(h, S, ty, items, k, n) == []
    decreases k
  {
    hide OwnedBy, Fits;
    if k > 0 {
      ItemsOwnNothing(h, S, ty, items, k - 1, n);
    }
  }

  lemma {:induction false} FieldsOwnNothing(h: Blocks, S: Schema, ty: nat, m: Struct, i: nat, n: nat)
    requires 0 < i <= |TypeOf(S, ty).fields| && OwnedByFields(h, S, ty, m, i - 1, n) == []
    requires var t := TypeOf(S, ty); OwnedByCell(h, S, t.fields[i - 1], SubType(t, i - 1), CellOf(t, m, i - 1), n) == []
    ensures OwnedByFields(h, S, ty, m, i, n) == []
  {
    hide OwnedByCell;
  }

  lemma {:induction false} ClearedItemsOwnNothing(h: Blocks, h': Blocks, S: Schema, ty: nat, items: seq<Struct>, k: nat,
      n: nat)
    requires GoodSchema(S) && ItemsFit(h, S, ty, items, k, n)
    ensures ItemsFit(h', S, ty, ClearedItems(S, ty, items, k), k, n)
    ensures OwnedByItems(h', S, ty, ClearedItems(S, ty, items, k), k, n) == []
    decreases n, 2
  {
    hide *;
    var items' := ClearedItems(S, ty, items, k);
    ItemsCleared(h, S, ty, items, k, n);
    forall j | 0 <= j < k
      ensures OwnsNothing(h', S, ty, items'[j], n - 1)
    {
      ClearedOwnsNothing(h, h', S, ty, items[j], n - 1);
    }
    ItemsOwnNothing(h', S, ty, items', k, n);
  }

  lemma {:induction false} ItemsCleared(h: Blocks, S: Schema, ty: nat, items: seq<Struct>, k: nat, n: nat)
    requires ItemsFit(h, S, ty, items, k, n)
    ensures n > 0 && k <= |items| == |ClearedItems(S, ty, items, k)|
    ensures forall j :: 0 <= j < k ==>
            ClearedItems(S, ty, items, k)[j] == Cleared(S, ty, items[j]) && Fits(h, S, ty, items[j], n - 1)
  {
    hide Cleared, Fits;
  }

  lemma {:induction false} ClearedCellOwnsNothing(h: Blocks, h': Blocks, S: Schema, f: Field, sub: nat, c: Cell, n: nat)
    requires GoodSchema(S) && CellFits(h, S, f, sub, c, n)
    ensures CellFits(h', S, f, sub, ClearedCell(S, f, sub, c), n)
    ensures OwnedByCell(h', S, f, sub, ClearedCell(S, f, sub, c), n) == []
    decreases n, 4
  {
    hide ItemsFit, OwnedByItems, ClearedItems, GoodSchema;
    if f.htype.Oneof? && c.which != f.tag {
      OtherMember(h', S, f, sub, c, n);
    } else {
      var v := Content(f, c);
      if f.atype.Static? && f.ltype.LSubmessage? {
        ClearedItemsOwnNothing(h, h', S, sub, v.items, Number(f, v.count), n);
      }
    }
  }

  lemma {:induction false} ClearedFieldsOwnNothing(h: Blocks, h': Blocks, S: Schema, ty: nat, m: Struct, i: nat, n: nat)
    requires GoodSchema(S) && i <= |TypeOf(S, ty).fields| == |m.cells| && FieldsFit(h, S, ty, m, i, n)
    ensures FieldsFit(h', S, ty, Cleared(S, ty, m), i, n)
    ensures OwnedByFields(h', S, ty, Cleared(S, ty, m), i, n) == []
    decreases n, 5, i
  {
    var t := TypeOf(S, ty);
    if i > 0 {
      FieldsFitStep(h, S, ty, m, i, n);
      FieldsFitStep(h', S, ty, Cleared(S, ty, m), i, n);
      ClearedCellOwnsNothing(h, h', S, t.fields[i - 1], SubType(t, i - 1), CellOf(t, m, i - 1), n);
      ClearedCellOf(h, h', S, ty, m, i - 1, n);
      hide *;
      ClearedFieldsOwnNothing(h, h', S, ty, m, i - 1, n);
      FieldsOwnNothing(h', S, ty, Cleared(S, ty, m), i, n);
    }
  }

  lemma {:induction false} ClearedCellOf(h: Blocks, h': Blocks, S: Schema, ty: nat, m: Struct, i: nat, n: nat)
    requires GoodSchema(S) && i < |TypeOf(S, ty).fields| == |m.cells|
    requires var t := TypeOf(S, ty); var f := t.fields[i]; var c := CellOf(t, m, i);
             && CellFits(h, S, f, SubType(t, i), c, n)
             && CellFits(h', S, f, SubType(t, i), ClearedCell(S, f, SubType(t, i), c), n)
             && OwnedByCell(h', S, f, SubType(t, i), ClearedCell(S, f, SubType(t, i), c), n) == []
    ensures var t := TypeOf(S, ty); var f := t.fields[i]; var c' := CellOf(t, Cleared(S, ty, m), i);
            CellFits(h', S, f, SubType(t, i), c', n) && OwnedByCell(h', S, f, SubType(t, i), c', n) == []
  {
    var t := TypeOf(S, ty);
    var f, c, c', l := t.fields[i], CellOf(t, m, i), CellOf(t, Cleared(S, ty, m), i), Leader(t.fields, i);
    TypeTags(S, ty);
    if f.htype.Oneof? && c.which != f.tag {
      if Releaser(t, m, l).Some? {
        var k := Releaser(t, m, l).value;
        ReleaserIs(t, m, l, k);
        KeepsWhich(S, t.fields[k], SubType(t, k), c);
      }
      OtherMember(h', S, f, SubType(t, i), c', n);
    } else {
      ReleaserOf(t, m, i);
      assert c' == ClearedCell(S, f, SubType(t, i), c);
    }
  }

  /**
   * What pb_release leaves behind is well-formed in any heap and owns nothing, so that releasing
   * it again frees nothing.
   */
  lemma {:induction false} ClearedOwnsNothing(h: Blocks, h': Blocks, S: Schema, ty: nat, m: Struct, n: nat)
    requires GoodSchema(S) && Fits(h, S, ty, m, n)
    ensures OwnsNothing(h', S, ty, Cleared(S, ty, m), n)
    ensures TreeShaped(h', S, ty, Cleared(S, ty, m), n)
    decreases n, 6
  {
    hide FieldsFit, OwnedByFields, Cleared;
    ClearedFieldsOwnNothing(h, h', S, ty, m, |TypeOf(S, ty).fields|, n);
  }

  lemma {:induction false} ClearedCellNull(S: Schema, f: Field, sub: nat, c: Cell)
    requires f.htype.Oneof? ==> c.Union? && c.which == f.tag
    requires f.atype.Pointer? ==> Content(f, c).Pointer?
    ensures var now := ClearedCell(S, f, sub, c);
            && (f.htype.Oneof? ==> now.Union? && now.which == c.which)
            && (f.atype.Pointer? ==> Content(f, now).Pointer? && Content(f, now).p == 0)
            && (f.atype.Pointer? && f.htype.Repeated? ==> Content(f, now).count == 0)
  {
  }

  /** After a release every pointer field is NULL, dynamic counts are zero, and unions hold the member they held. */
  lemma {:induction false} PointersNull(h: Blocks, S: Schema, ty: nat, m: Struct, i: nat, n: nat)
    requires GoodSchema(S) && Fits(h, S, ty, m, n) && i < |TypeOf(S, ty).fields|
    requires var t := TypeOf(S, ty); var c := CellOf(t, m, i);
             t.fields[i].htype.Oneof? ==> c.Union? && c.which == t.fields[i].tag
    ensures var t := TypeOf(S, ty); var f := t.fields[i];
            var was, now := CellOf(t, m, i), CellOf(t, Cleared(S, ty, m), i);
            && (f.htype.Oneof? ==> now.Union? && now.which == was.which)
            && (f.atype.Pointer? ==> Content(f, now).Pointer? && Content(f, now).p == 0)
            && (f.atype.Pointer? && f.htype.Repeated? ==> Content(f, now).count == 0)
  {
    var t := TypeOf(S, ty);
    TypeTags(S, ty);
    assert CellFits(h, S, t.fields[i], SubType(t, i), CellOf(t, m, i), n);
    ReleaserOf(t, m, i);
    assert CellOf(t, Cleared(S, ty, m), i) == ClearedCell(S, t.fields[i], SubType(t, i), CellOf(t, m, i));
    hide Cleared, Releaser, Fits, PointerFits, ItemsFit, ClearedCell;
    ClearedCellNull(S, t.fields[i], SubType(t, i), CellOf(t, m, i));
  }

  /** Only pointers have become NULL, and counts beside them zero. */
  ghost predicate OnlyNulls(c: Cell, c': Cell)
    decreases c, 0
  {
    match c
    case Data => c' == Data
    case Inline(items, count) =>
      && c'.Inline? && c'.count == count && |c'.items| == |items|
      && forall j :: 0 <= j < |items| ==> OnlyNullsIn(items[j], c'.items[j])
    case Pointer(p, count) => c' == c || (c'.Pointer? && c'.p == 0 && (c'.count == 0 || c'.count == count))
    case Union(which, content) => c'.Union? && c'.which == which && OnlyNulls(content, c'.content)
  }

  ghost predicate OnlyNullsIn(m: Struct, m': Struct)
    decreases m, 1
  {
    |m'.cells| == |m.cells| && forall l :: 0 <= l < |m.cells| ==> OnlyNulls(m.cells[l], m'.cells[l])
  }

  lemma {:induction false} SameNulls(c: Cell)
    ensures OnlyNulls(c, c)
    decreases c, 0
  {
    match c
    case Inline(items, _) =>
      forall j | 0 <= j < |items|
        ensures OnlyNullsIn(items[j], items[j])
      {
        SameNullsIn(items[j]);
      }
    case Union(_, content) => SameNulls(content);
    case _ =>
  }

  lemma {:induction false} SameNullsIn(m: Struct)
    ensures OnlyNullsIn(m, m)
    decreases m, 1
  {
    forall l | 0 <= l < |m.cells|
      ensures OnlyNulls(m.cells[l], m.cells[l])
    {
      SameNulls(m.cells[l]);
    }
  }

  lemma {:induction false} ContentNulls(S: Schema, f: Field, sub: nat, c: Cell)
    ensures OnlyNulls(c, ClearedContent(S, f, sub, c))
    decreases c, 1
  {
    hide Cleared;
    SameNulls(c);
    if c.Inline? {
      forall j | 0 <= j < |c.items|
        ensures OnlyNullsIn(c.items[j], Cleared(S, sub, c.items[j])) && OnlyNullsIn(c.items[j], c.items[j])
      {
        NothingElse(S, sub, c.items[j]);
        SameNullsIn(c.items[j]);
      }
    }
  }

  lemma {:induction false} CellNulls(S: Schema, f: Field, sub: nat, c: Cell)
    ensures OnlyNulls(c, ClearedCell(S, f, sub, c))
    decreases c, 2
  {
    hide ClearedContent;
    SameNulls(c);
    ContentNulls(S, f, sub, c);
    if c.Union? {
      ContentNulls(S, f, sub, c.content);
    }
  }

  /** A release changes nothing in the structure but pointers, which become NULL, and the counts beside them. */
  lemma {:induction false} NothingElse(S: Schema, ty: nat, m: Struct)
    ensures OnlyNullsIn(m, Cleared(S, ty, m))
    decreases m, 3
  {
    hide ClearedCell, OnlyNulls, Leader;
    var t := TypeOf(S, ty);
    forall l | 0 <= l < |m.cells|
      ensures OnlyNulls(m.cells[l], Cleared(S, ty, m).cells[l])
    {
      SameNulls(m.cells[l]);
      if Releaser(t, m, l).Some? {
        CellNulls(S, t.fields[Releaser(t, m, l).value], SubType(t, Releaser(t, m, l).value), m.cells[l]);
      }
    }
  }

  /** Releasing a message twice frees what releasing it once does, and nothing more. */
  method ReleaseTwice(heap: Heap, S: Schema, ty: nat, m: Struct, ghost n: nat) returns (m': Struct)
    requires GoodSchema(S) && TreeShaped(heap.blocks, S, ty, m, n)
    modifies heap
    ensures Freed(old(heap.blocks), old(heap.freed), heap.blocks, heap.freed, OwnedBy(old(heap.blocks), S, ty, m, n))
    ensures m' == Cleared(S, ty, Cleared(S, ty, m))
  {
    hide *;
    ghost var h, log := heap.blocks, heap.freed;
    TreeFits(h, S, ty, m, n);
    m' := ReleaseMsg(heap, S, ty, m, n);
    ghost var h1, log1 := heap.blocks, heap.freed;
    ClearedOwnsNothing(h, h1, S, ty, m, n);
    OwnsNothingFrees(h1, S, ty, m', n);
    m' := ReleaseMsg(heap, S, ty, m', n);
    NothingMoreFreed(h, log, h1, log1, heap.blocks, heap.freed, OwnedBy(h, S, ty, m, n));
  }

  lemma {:induction false} TreeFits(h: Blocks, S: Schema, ty: nat, m: Struct, n: nat)
    requires TreeShaped(h, S, ty, m, n)
    ensures Fits(h, S, ty, m, n)
  {
  }

  lemma {:induction false} OwnsNothingFrees(h: Blocks, S: Schema, ty: nat, m: Struct, n: nat)
    requires OwnsNothing(h, S, ty, m, n)
    ensures OwnedBy(h, S, ty, m, n) == []
  {
  }

  lemma {:induction false} NothingMoreFreed(h: Blocks, log: seq<Address>, h1: Blocks, log1: seq<Address>, h2: Blocks,
      log2: seq<Address>, s: seq<Address>)
    requires Freed(h, log, h1, log1, s) && Freed(h1, log1, h2, log2, [])
    ensures Freed(h, log, h2, log2, s)
  {
    FreedMore(h, log, h1, log1, h2, log2, s, []);
    assert s + [] == s;
  }
}
