/** The cyclic field iterator (pb_common.c) and the descriptor layout it walks (pb.h). */
module FieldIterator {
  import opened Basics
  import opened Descriptors

  // ------------------------------------------------------------------- layout

  /** What a field occupies in the message structure. */
  function Storage(f: Field): nat {
    if f.atype.Pointer? then SIZEOF_POINTER
    else if f.htype.Repeated? then f.dataSize * f.arraySize
    else f.dataSize
  }

  /** The offset the iterator reaches at entry i by adding up deltas. */
  function DataOffset(d: Desc, i: nat): int
    requires i < |d|
  {
    if i == 0 then d[0].dataOffset
    else if SameUnion(d[i - 1], d[i]) then DataOffset(d, i - 1)
    else DataOffset(d, i - 1) + Storage(d[i - 1]) + d[i].dataOffset
  }

  /** The offset of the has_, count or which_ field that belongs to entry i. */
  function SizeFieldOffset(d: Desc, i: nat): int
    requires i < |d|
  {
    DataOffset(d, Leader(d, i)) + d[Leader(d, i)].sizeOffset
  }

  /** A member of the C structure: its offset and size, its size field, and whether it joins the union before it. */
  datatype Member = Member(offset: nat, size: nat, sizeField: nat, joins: bool)

  /** The compiler lays members out in order; the members of one union share offset and size field. */
  predicate ValidLayout(ms: seq<Member>) {
    && (|ms| > 0 ==> !ms[0].joins)
    && (forall i :: 0 < i < |ms| && ms[i].joins ==>
        ms[i].offset == ms[i - 1].offset && ms[i].sizeField == ms[i - 1].sizeField)
    && (forall i :: 0 < i < |ms| && !ms[i].joins ==> ms[i - 1].offset + ms[i - 1].size <= ms[i].offset < PB_SIZE_MAX)
  }

  /** The descriptor the PB_FIELD, PB_ONEOF_FIELD and PB_DATAOFFSET macros produce for a layout. */
  predicate BuiltFrom(d: Desc, ms: seq<Member>) {
    && |d| == |ms|
    && (forall i :: 0 <= i < |d| ==>
          && d[i].sizeOffset == ms[i].sizeField - ms[i].offset
          && ms[i].size ==
             if d[i].atype.Pointer? then 8
             else if d[i].htype.Repeated? then d[i].dataSize * d[i].arraySize
             else d[i].dataSize)
    && (|d| > 0 ==> d[0].dataOffset == ms[0].offset)
    && (forall i :: 0 < i < |d| ==>
          d[i].dataOffset == if ms[i].joins then PB_SIZE_MAX else ms[i].offset - ms[i - 1].offset - ms[i - 1].size)
    && (forall i :: 0 < i < |d| && ms[i].joins ==> d[i - 1].htype.Oneof? && d[i].htype.Oneof?)
  }

  /** The deltas telescope: the iterator reaches the true offsets, and members of a union share one. */
  lemma {:induction false} OffsetsTelescope(d: Desc, ms: seq<Member>, i: nat)
    requires ValidLayout(ms) && BuiltFrom(d, ms) && i < |d|
    ensures DataOffset(d, i) == ms[i].offset == ms[Leader(d, i)].offset
    ensures SizeFieldOffset(d, i) == ms[i].sizeField
  {
    if i > 0 {
      OffsetsTelescope(d, ms, i - 1);
      assert SameUnion(d[i - 1], d[i]) <==> ms[i].joins;
    }
  }

  /** The offset of an item into a static array does not wrap in 32 bits and stays inside the array. */
  lemma {:induction false} ItemInside(f: Field, k: nat)
    requires f.atype.Static? && f.htype.Repeated? && ArrayFits(f) && k < f.arraySize
    ensures f.dataSize * k % TWO_32 == f.dataSize * k
    ensures f.dataSize * k + f.dataSize <= Storage(f)
  {
    TimesMono(k + 1, f.arraySize, f.dataSize);
  }

  // -------------------------------------------------------- the count of an array

  /** A structure in memory after zero is stored in the count field at an address. */
  function StoreCount(mem: seq<Byte>, at: nat): (r: seq<Byte>)
    requires at + SIZEOF_COUNT <= |mem|
    ensures |r| == |mem|
  {
    mem[..at] + Zeros(SIZEOF_COUNT) + mem[at + SIZEOF_COUNT..]
  }

  /** Nothing outside the data of entry i changes when its count is reset. */
  ghost predicate ResetStaysInside(d: Desc, ms: seq<Member>, i: nat)
    requires i < |d| == |ms|
  {
    forall mem: seq<Byte>, k ::
      && ms[i].sizeField + SIZEOF_COUNT <= |mem| && 0 <= k < |mem|
      && !(ms[i].offset <= k < ms[i].offset + ms[i].size)
      ==> StoreCount(mem, ms[i].sizeField)[k] == mem[k]
  }

  /**
   * A fixed-count array has no count field: pSize points at its data, and resetting the array
   * stores a count over it. The store stays inside the array exactly when that is large enough.
   */
  lemma {:induction false} ResetInside(d: Desc, ms: seq<Member>, i: nat)
    requires ValidLayout(ms) && BuiltFrom(d, ms) && i < |d| && d[i].atype.Static? && FixedCount(d[i])
    ensures SizeFieldOffset(d, i) == DataOffset(d, i) == ms[i].offset == ms[i].sizeField
    ensures ResetStaysInside(d, ms, i) <==> 4 <= d[i].dataSize * d[i].arraySize
  {
    OffsetsTelescope(d, ms, i);
    assert ms[i].size == d[i].dataSize * d[i].arraySize;
    if ms[i].size < SIZEOF_COUNT {
      var mem: seq<Byte> := seq(ms[i].offset + SIZEOF_COUNT, _ => 1);
      var k := ms[i].offset + ms[i].size;
      assert StoreCount(mem, ms[i].sizeField)[k] == 0 != mem[k];
    }
  }

  /** A submessage that is an array of one bool, in an array of one item, with another bool behind it. */
  const SMALL_SUB := [Field(1, LBool, Repeated, Static, 0, 0, 1, 1, Null)]
  const SMALL_PARENT := [Field(1, LSubmessage, Repeated, Static, 4, -4, 1, 1, Sub(SMALL_SUB)),
      Field(2, LBool, Required, Static, 0, 0, 1, 0, Null)]
  const SMALL_SUB_LAYOUT := [Member(0, 1, 0, false)]
  const SMALL_PARENT_LAYOUT := [Member(4, 1, 0, false), Member(5, 1, 5, false)]

  lemma {:induction false} SmallSubLayout()
    ensures ValidLayout(SMALL_SUB_LAYOUT) && BuiltFrom(SMALL_SUB, SMALL_SUB_LAYOUT)
  {
  }

  lemma {:induction false} SmallParentLayout()
    ensures ValidLayout(SMALL_PARENT_LAYOUT) && BuiltFrom(SMALL_PARENT, SMALL_PARENT_LAYOUT)
  {
  }

  lemma {:induction false} SmallArrayLayout()
    ensures SizeFieldOffset(SMALL_SUB, 0) == 0 && DataOffset(SMALL_PARENT, 0) == 4 && DataOffset(SMALL_PARENT, 1) == 5
  {
    hide ValidLayout, BuiltFrom, DataOffset, SizeFieldOffset;
    SmallSubLayout();
    SmallParentLayout();
    OffsetsTelescope(SMALL_SUB, SMALL_SUB_LAYOUT, 0);
    OffsetsTelescope(SMALL_PARENT, SMALL_PARENT_LAYOUT, 0);
    OffsetsTelescope(SMALL_PARENT, SMALL_PARENT_LAYOUT, 1);
  }

  lemma {:induction false} SmallArrayUnfit()
    ensures !ArraysFit(SMALL_SUB) && !ArraysFit(SMALL_PARENT)
  {
    hide ValidLayout, BuiltFrom;
    assert !FieldArraysFit(SMALL_SUB[0]);
    assert !FieldArraysFit(SMALL_PARENT[0]);
  }

  /**
   * Where the array is too small: resetting an item of the parent's array stores its count over the
   * bool behind the array, so that it matters whether that bool is set before or after.
   */
  lemma {:induction false} SmallArrayOverwrites(mem: seq<Byte>)
    requires |mem| == 8
    ensures !ArraysFit(SMALL_PARENT) && !ResetStaysInside(SMALL_SUB, SMALL_SUB_LAYOUT, 0)
    ensures var count, flag := DataOffset(SMALL_PARENT, 0) + SizeFieldOffset(SMALL_SUB, 0), DataOffset(SMALL_PARENT, 1);
            && 0 <= count <= 4 && 0 <= flag < 8
            && StoreCount(mem[flag := 1], count)[flag] == 0
            && StoreCount(mem, count)[flag := 1][flag] == 1
  {
    hide ArraysFit, ValidLayout, BuiltFrom;
    SmallSubLayout();
    SmallArrayLayout();
    SmallArrayUnfit();
    ResetInside(SMALL_SUB, SMALL_SUB_LAYOUT, 0);
  }

  // ----------------------------------------------------------------- iterator

  /** Where pSize points: into the structure, or at the counter of a fixed-count array in the decoder. */
  datatype SizePtr = InStruct(address: int) | FixedCounter

  predicate NonzeroTags(d: Desc) {
    forall i :: 0 <= i < |d| ==> d[i].tag != 0
  }

  /** PB_LAST_FIELD. */
  const LAST_FIELD := Field(0, LBool, Required, Static, 0, 0, 0, 0, Null)

  class FieldIter {
    const start: Desc
    const dest: int
    var pos: nat
    var requiredFieldIndex: nat
    var pData: int
    var pSize: SizePtr

    /** The descriptor entry at an index; the terminator comes after the last one. */
    function At(i: nat): Field {
      if i < |start| then start[i] else LAST_FIELD
    }

    ghost predicate Canonical()
      reads this
    {
      && NonzeroTags(start)
      && if start == [] then pos == 0 && requiredFieldIndex == 0 && pSize.InStruct? else
         && pos < |start|
         && requiredFieldIndex == RequiredBefore(start, pos)
         && pData == dest + DataOffset(start, pos)
    }

    /** Everything is determined by pos, except that the decoder may redirect pSize of a fixed-count array. */
    ghost predicate Valid()
      reads this
    {
      && Canonical()
      && (start != [] ==>
            || pSize == InStruct(dest + SizeFieldOffset(start, pos))
            || (pSize == FixedCounter && FixedCount(start[pos])))
    }

    /** The state at a position is the one a fresh iterator would reach there. */
    ghost predicate Settled()
      reads this
    {
      Valid() && (start != [] ==> pSize == InStruct(dest + SizeFieldOffset(start, pos)))
    }

    /** pb_field_iter_begin, on a new iterator. */
    constructor (fields: Desc, destStruct: int)
      requires NonzeroTags(fields)
      ensures start == fields && dest == destStruct && pos == 0 && Valid() && Settled()
    {
      start := fields;
      dest := destStruct;
      pos := 0;
      requiredFieldIndex := 0;
      var f := if |fields| > 0 then fields[0] else LAST_FIELD;
      pData := destStruct + f.dataOffset;
      pSize := InStruct(destStruct + f.dataOffset + f.sizeOffset);
    }

    /** pb_field_iter_begin; false for an empty message type. */
    method Begin() returns (nonempty: bool)
      requires NonzeroTags(start)
      modifies this
      ensures pos == 0 && Settled() && (nonempty <==> start != [])
    {
      pos := 0;
      requiredFieldIndex := 0;
      pData := dest + At(pos).dataOffset;
      pSize := InStruct(pData + At(pos).sizeOffset);
      nonempty := At(pos).tag != 0;
    }

    /** pb_field_iter_next; false on wrapping back to the first field. */
    method Next() returns (more: bool)
      requires Valid()
      modifies this
      ensures Valid() && Settled()
      ensures more <==> old(pos) + 1 < |start|
      ensures pos == if more then old(pos) + 1 else 0
    {
      var prev := At(pos);
      if prev.tag == 0 {
        return false;
      }
      pos := pos + 1;
      if At(pos).tag == 0 {
        var _ := Begin();
        return false;
      }
      var prevSize := prev.dataSize;
      if prev.htype.Oneof? && At(pos).htype.Oneof? && At(pos).dataOffset == PB_SIZE_MAX {
        // Pointers do not advance inside a union.
        return true;
      } else if prev.atype.Static? && prev.htype.Repeated? {
        prevSize := prevSize * prev.arraySize;
      } else if prev.atype.Pointer? {
        prevSize := SIZEOF_POINTER;
      }
      if prev.htype.Required? {
        requiredFieldIndex := requiredFieldIndex + 1;
      }
      pData := pData + prevSize + At(pos).dataOffset;
      pSize := InStruct(pData + At(pos).sizeOffset);
      return true;
    }

    /**
     * pb_field_iter_find: from any position, stops at the entry with the tag if there is one,
     * and otherwise makes one full turn and ends up where it began. In an empty descriptor tag
     * 0 matches the terminator.
     */
    method Find(tag: nat) returns (found: bool)
      requires Valid()
      modifies this
      ensures Valid()
      ensures found <==> if start == [] then tag == 0 else exists k :: 0 <= k < |start| && start[k].tag == tag
      ensures found && start != [] ==> start[pos].tag == tag
      ensures !found ==> pos == old(pos) && Settled()
      ensures pSize.FixedCounter? ==> pos == old(pos) && old(pSize).FixedCounter?
    {
      var first := pos;
      ghost var wrapped := false;
      while true
        invariant Valid()
        invariant start == [] ==> pos == first
        invariant !wrapped ==> first <= pos && forall k :: first <= k < pos ==> start[k].tag != tag
        invariant wrapped ==> pos < first && forall k :: 0 <= k < |start| && (k < pos || first <= k) ==>
                  start[k].tag != tag
        invariant pSize.FixedCounter? ==> pos == first && old(pSize).FixedCounter?
        decreases if wrapped then first - pos else 2 * |start| + 1 - pos
      {
        if At(pos).tag == tag {
          return true;
        }
        var more := Next();
        wrapped := wrapped || !more;
        if pos == first {
          return false;
        }
      }
    }
  }
}
