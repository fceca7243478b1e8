/** Which blocks a heap message holds, by following its pointers. */
module Ownership {
  import opened Descriptors
  import opened HeapMessages

  /**
   * Address a is reached from one of the fields of a message: through a union only from the
   * member it holds, and at most n submessages deep.
   */
  ghost predicate Reached(h: Blocks, S: Schema, ty: nat, m: Struct, a: Address, n: nat)
    decreases n, 3
  {
    var t := TypeOf(S, ty);
    exists i :: 0 <= i < |t.fields| && ReachedFrom(h, S, t.fields[i], SubType(t, i), CellOf(t, m, i), a, n)
  }

  ghost predicate ReachedFrom(h: Blocks, S: Schema, f: Field, sub: nat, c: Cell, a: Address, n: nat)
    decreases n, 2
  {
    match c
    case Union(which, content) => f.htype.Oneof? && which == f.tag && ReachedIn(h, S, f, sub, content, a, n)
    case _ => !f.htype.Oneof? && ReachedIn(h, S, f, sub, c, a, n)
  }

  /**
   * A pointer field that is not NULL reaches its block, every string or bytes entry below the count
   * of an array of them, and all that its submessages reach; a static one what the submessages in
   * it reach, of which there are no more than array_size.
   */
  ghost predicate ReachedIn(h: Blocks, S: Schema, f: Field, sub: nat, v: Cell, a: Address, n: nat)
    decreases n, 1
  {
    match v
    case Pointer(p, count) =>
      && f.atype.Pointer? && p != 0 && p in h
      && (|| a == p
          || (h[p].Pointers? && f.htype.Repeated? && (f.ltype.LString? || f.ltype.LBytes?) &&
              Entry(h[p].ptrs, count, a))
          || (h[p].Structs? && f.ltype.LSubmessage? &&
              ReachedAmong(h, S, sub, h[p].items, if f.htype.Repeated? then count else 1, a, n)))
    case Inline(items, count) =>
      && f.atype.Static? && f.ltype.LSubmessage?
      && ReachedAmong(h, S, sub, items,
           if !f.htype.Repeated? then 1 else if f.sizeOffset == 0 || count > f.arraySize then f.arraySize else count,
           a, n)
    case _ => false
  }

  /** The blocks a message leads to. */
  ghost function Reachable(h: Blocks, S: Schema, ty: nat, m: Struct, n: nat): iset<Address> {
    iset a: Address | Reached(h, S, ty, m, a, n)
  }

  /** The blocks one field leads to. */
  ghost function ReachableFrom(h: Blocks, S: Schema, f: Field, sub: nat, c: Cell, n: nat): iset<Address> {
    iset a: Address | ReachedFrom(h, S, f, sub, c, a, n)
  }

  /** One of the first count entries, not NULL. */
  predicate Entry(ptrs: seq<Address>, count: nat, a: Address) {
    a != 0 && exists k :: 0 <= k < count && k < |ptrs| && ptrs[k] == a
  }

  /** One of the first count submessages reaches the address. */
  ghost predicate ReachedAmong(h: Blocks, S: Schema, ty: nat, items: seq<Struct>, count: nat, a: Address, n: nat)
    decreases n, 0
  {
    n > 0 && exists j :: 0 <= j < count && j < |items| && Reached(h, S, ty, items[j], a, n - 1)
  }

  // ------------------------------------------------------------- owned is reached

  lemma {:induction false} EntriesOwned(ptrs: seq<Address>, k: nat, a: Address)
    requires k <= |ptrs|
    ensures a in NonNull(ptrs, k) <==> Entry(ptrs, k, a)
  {
    if k > 0 {
      EntriesOwned(ptrs, k - 1, a);
    }
  }

  lemma {:induction false} ItemsOwned(h: Blocks, S: Schema, ty: nat, items: seq<Struct>, k: nat, a: Address, n: nat)
    requires ItemsFit(h, S, ty, items, k, n)
    ensures a in OwnedByItems(h, S, ty, items, k, n) <==> ReachedAmong(h, S, ty, items, k, a, n)
    ensures ReachedAmong(h, S, ty, items, k, a, n) ==> a in h
    decreases n, 2, k
  {
    hide OwnedBy, Reached, Fits;
    if k > 0 {
      ItemsOwned(h, S, ty, items, k - 1, a, n);
      MessageOwned(h, S, ty, items[k - 1], a, n - 1);
    }
  }

  lemma {:induction false} PointerOwned(h: Blocks, S: Schema, f: Field, sub: nat, p: Address, count: nat, a: Address,
      n: nat)
    requires f.atype.Pointer? && PointerFits(h, S, f, sub, p, count, n)
    ensures a in OwnedByPointer(h, S, f, sub, p, count, n) <==> ReachedIn(h, S, f, sub, Cell.Pointer(p, count), a, n)
    ensures ReachedIn(h, S, f, sub, Cell.Pointer(p, count), a, n) ==> a in h
    decreases n, 3
  {
    hide OwnedByItems, ItemsFit, ReachedAmong, NonNull;
    if p != 0 {
      if f.ltype.LSubmessage? {
        ItemsOwned(h, S, sub, h[p].items, Number(f, count), a, n);
      } else if PointerArray(f) {
        EntriesOwned(h[p].ptrs, count, a);
      }
    }
  }

  lemma {:induction false} CellOwned(h: Blocks, S: Schema, f: Field, sub: nat, c: Cell, a: Address, n: nat)
    requires CellFits(h, S, f, sub, c, n)
    ensures a in OwnedByCell(h, S, f, sub, c, n) <==> ReachedFrom(h, S, f, sub, c, a, n)
    ensures ReachedFrom(h, S, f, sub, c, a, n) ==> a in h
    decreases n, 4
  {
    hide OwnedByItems, OwnedByPointer, ItemsFit, ReachedAmong, PointerFits;
    match Content(f, c)
    case Pointer(p, count) =>
      if f.atype.Pointer? {
        PointerOwned(h, S, f, sub, p, count, a, n);
      }
    case Inline(items, count) =>
      if f.atype.Static? && f.ltype.LSubmessage? {
        ItemsOwned(h, S, sub, items, Number(f, count), a, n);
      }
    case _ =>
  }

  lemma {:induction false} FieldsOwned(h: Blocks, S: Schema, ty: nat, m: Struct, i: nat, a: Address, n: nat)
    requires i <= |TypeOf(S, ty).fields| && FieldsFit(h, S, ty, m, i, n)
    ensures var t := TypeOf(S, ty);
            a in OwnedByFields(h, S, ty, m, i, n) <==>
            exists k :: 0 <= k < i && ReachedFrom(h, S, t.fields[k], SubType(t, k), CellOf(t, m, k), a, n)
    ensures a in OwnedByFields(h, S, ty, m, i, n) ==> a in h
    decreases n, 5, i
  {
    hide OwnedByCell, ReachedFrom, CellFits, CellOf, SubType;
    if i > 0 {
      var t := TypeOf(S, ty);
      FieldsOwned(h, S, ty, m, i - 1, a, n);
      CellOwned(h, S, t.fields[i - 1], SubType(t, i - 1), CellOf(t, m, i - 1), a, n);
    }
  }

  /** The blocks a message owns are exactly those its pointers lead to, and they are allocated. */
  lemma {:induction false} MessageOwned(h: Blocks, S: Schema, ty: nat, m: Struct, a: Address, n: nat)
    requires Fits(h, S, ty, m, n)
    ensures a in OwnedBy(h, S, ty, m, n) <==> Reached(h, S, ty, m, a, n)
    ensures Reached(h, S, ty, m, a, n) ==> a in h
    decreases n, 6
  {
    hide OwnedByFields, ReachedFrom, FieldsFit;
    FieldsOwned(h, S, ty, m, |TypeOf(S, ty).fields|, a, n);
  }
}
