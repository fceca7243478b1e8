/** Arrays on the heap that grow while they are decoded: allocate_field and decode_pointer_field (pb_decode.c). */
module Growable {
  import opened Basics
  import opened Descriptors
  import opened Scalars
  import opened Varint
  import opened Decoding
  import opened Shapes
  import opened TypeSafety
  import opened InputStream
  import opened Decoder

  const SIZE_T_MAX := TWO_64 - 1

  // --------------------------------------------------------- the overflow check

  /** The check of allocate_field: no division when both factors fit in half of size_t. */
  function SizeAccepted(dataSize: nat, arraySize: nat): bool
    requires arraySize > 0
  {
    if dataSize >= TWO_32 || arraySize >= TWO_32 then SIZE_T_MAX / arraySize >= dataSize else true
  }

  lemma {:induction false} Quotient(n: nat, q: nat)
    requires q > 0
    ensures n / q * q <= n < (n / q + 1) * q
  {
    assert n == q * (n / q) + n % q;
  }

  /** Non-zero sizes are let through exactly when their product is a size_t. */
  lemma {:induction false} AllocationCheck(dataSize: nat, arraySize: nat)
    requires 0 < dataSize <= SIZE_T_MAX && 0 < arraySize <= SIZE_T_MAX
    ensures SizeAccepted(dataSize, arraySize) <==> dataSize * arraySize <= SIZE_T_MAX
  {
    var q := SIZE_T_MAX / arraySize;
    Quotient(SIZE_T_MAX, arraySize);
    TimesMono(dataSize, q, arraySize);
    TimesMono(q + 1, dataSize, arraySize);
    if dataSize < TWO_32 && arraySize < TWO_32 {
      TimesMono(dataSize, TWO_32 - 1, arraySize);
      TimesMono(arraySize, TWO_32 - 1, TWO_32 - 1);
    }
  }

  // ----------------------------------------------------------------- allocation

  /** The system allocator, with a record of the block sizes it has been asked for. */
  class Allocator {
    const grant: nat -> bool
    ghost var asked: seq<nat>

    constructor (policy: nat -> bool)
      ensures grant == policy && asked == []
    {
      grant := policy;
      asked := [];
    }

    /** pb_realloc. */
    method Realloc(bytes: nat) returns (ok: bool)
      modifies this
      ensures asked == old(asked) + [bytes] && (ok <==> grant(bytes))
    {
      asked := asked + [bytes];
      ok := grant(bytes);
    }
  }

  /** allocate_field without the block: one request for all the bytes, unless they are none or too many. */
  method AllocateField(alloc: Allocator, dataSize: nat, arraySize: nat) returns (ok: bool)
    requires dataSize <= SIZE_T_MAX && arraySize <= SIZE_T_MAX
    modifies alloc
    ensures ok <==> 0 < dataSize * arraySize <= SIZE_T_MAX && alloc.grant(dataSize * arraySize)
    ensures alloc.asked == old(alloc.asked) + if 0 < dataSize * arraySize <= SIZE_T_MAX then [dataSize * arraySize]
            else []
  {
    if dataSize == 0 || arraySize == 0 {
      return false; // invalid size
    }
    AllocationCheck(dataSize, arraySize);
    if dataSize >= TWO_32 || arraySize >= TWO_32 {
      if SIZE_T_MAX / arraySize < dataSize {
        return false; // size too large
      }
    }
    ok := alloc.Realloc(arraySize * dataSize % TWO_64);
  }

  // -------------------------------------------------------------------- arrays

  /** The offset of item n of size q, computed in 32 bits. */
  function Offset(q: nat, n: nat): nat {
    q * n % TWO_32
  }

  /** An item stored at an offset inside a block; where it straddles two items, both are lost. */
  function StoreAt(slots: seq<Value>, q: nat, offset: nat, v: Value): (r: seq<Value>)
    requires q > 0 && offset + q <= |slots| * q
    ensures |r| == |slots|
  {
    InsideBlock(|slots|, q, offset);
    if offset % q == 0 then slots[offset / q := v] else slots[offset / q := VStale][offset / q + 1 := VStale]
  }

  /** The items that a store at such an offset touches are inside the block. */
  lemma {:induction false} InsideBlock(n: nat, q: nat, offset: nat)
    requires q > 0 && offset + q <= n * q
    ensures offset / q < n && (offset % q != 0 ==> offset / q + 1 < n)
  {
    var k := offset / q;
    Division(offset, q);
    Below(k, n, q, offset % q);
  }

  lemma {:induction false} Below(k: nat, n: nat, q: nat, r: nat)
    requires k * q + r + q <= n * q && q > 0
    ensures k < n && (r > 0 ==> k + 1 < n)
  {
    assert (k + 1) * q == k * q + q;
    if n <= k {
      TimesMono(n, k, q);
    } else if n <= k + 1 {
      TimesMono(n, k + 1, q);
    }
  }

  lemma {:induction false} OffsetInside(q: nat, n: nat)
    requires q > 0
    ensures Offset(q, n) <= q * n && Offset(q, n) + q <= (n + 1) * q
    ensures q * n < TWO_32 ==> Offset(q, n) == n * q && Offset(q, n) % q == 0 && Offset(q, n) / q == n
  {
    assert (n + 1) * q == n * q + q && q * n == n * q;
    QuotientIs(n, q, 0);
    Multiple(n, q);
  }

  lemma {:induction false} Multiple(n: nat, q: nat)
    requires q > 0
    ensures n * q % q == 0
  {
    QuotientIs(n, q, 0);
    Division(n * q, q);
  }

  /** The items after one more is stored, in a block that has room for it. */
  function Appended(items: seq<Value>, q: nat, v: Value): (r: seq<Value>)
    requires q > 0
    ensures |r| == |items| + 1
  {
    OffsetInside(q, |items|);
    StoreAt(items + [VStale], q, Offset(q, |items|), v)
  }

  /** The offset of item n is its true one. */
  predicate Unwrapped(q: nat, n: nat) {
    q * n < TWO_32
  }

  lemma {:induction false} UnwrappedBelow(q: nat, m: nat, n: nat)
    requires m <= n && Unwrapped(q, n)
    ensures Unwrapped(q, m)
  {
    TimesMono(m, n, q);
    assert q * m == m * q && q * n == n * q;
  }

  /** The item is appended exactly when its offset fits in 32 bits; otherwise an earlier one is overwritten. */
  lemma {:induction false} AppendedExact(items: seq<Value>, q: nat, v: Value)
    requires q > 0 && !v.VStale?
    ensures Appended(items, q, v) == items + [v] <==> Unwrapped(q, |items|)
    ensures !Unwrapped(q, |items|) ==> Appended(items, q, v)[|items|] == VStale
  {
    var n := |items|;
    OffsetInside(q, n);
    if Unwrapped(q, n) {
      assert (items + [VStale])[n := v] == items + [v];
    } else {
      LastLost(items, q, v);
      assert (items + [v])[n] == v;
    }
  }

  lemma {:induction false} LastLost(items: seq<Value>, q: nat, v: Value)
    requires q > 0 && !Unwrapped(q, |items|)
    ensures Appended(items, q, v)[|items|] == VStale
  {
    var n, o := |items|, Offset(q, |items|);
    OffsetInside(q, n);
    BeforeLast(q, n, o);
  }

  lemma {:induction false} BeforeLast(q: nat, n: nat, o: nat)
    requires q > 0 && o < TWO_32 <= q * n
    ensures o / q < n
  {
    Division(o, q);
    TimesMono(n, o / q, q);
    assert q * n == n * q;
  }

  /** The items after several more are stored. */
  function AppendedAll(items: seq<Value>, q: nat, vs: seq<Value>): (r: seq<Value>)
    requires q > 0
    ensures |r| == |items| + |vs|
    decreases |vs|
  {
    if vs == [] then items else Appended(AppendedAll(items, q, vs[..|vs| - 1]), q, vs[|vs| - 1])
  }

  /** All are appended exactly when the offset of the last one fits in 32 bits. */
  lemma {:induction false} AppendedAllExact(items: seq<Value>, q: nat, vs: seq<Value>)
    requires q > 0 && forall j :: 0 <= j < |vs| ==> !vs[j].VStale?
    ensures AppendedAll(items, q, vs) == items + vs <==> vs == [] || Unwrapped(q, |items| + |vs| - 1)
    decreases |vs|
  {
    hide Appended, Unwrapped;
    if vs == [] {
      assert items + vs == items;
    } else {
      var n, v := |vs| - 1, vs[|vs| - 1];
      var before := AppendedAll(items, q, vs[..n]);
      AppendedExact(before, q, v);
      assert items + vs == items + vs[..n] + [v];
      if Unwrapped(q, |items| + n) {
        if n > 0 {
          UnwrappedBelow(q, |items| + n - 1, |items| + n);
        }
        AppendedAllExact(items, q, vs[..n]);
      } else {
        assert (items + vs)[|items| + n] == v;
      }
    }
  }

  /** A repeated pointer field: the items its block has room for, and its count field. */
  class DynamicArray {
    const dataSize: nat
    var slots: seq<Value>
    var size: nat

    /** Memory behind the items that are counted has not been given a value. */
    ghost predicate Valid()
      reads this
    {
      && 0 < dataSize <= PB_SIZE_MAX
      && size <= |slots| && size <= PB_SIZE_MAX
      && (forall k :: size <= k < |slots| ==> slots[k].VStale?)
    }

    /** The items stored so far. */
    ghost function Items(): (items: seq<Value>)
      requires size <= |slots|
      reads this
      ensures |items| == size
    {
      slots[..size]
    }

    /** An array that has not been allocated: the pointer is NULL. */
    constructor (itemSize: nat)
      requires 0 < itemSize <= PB_SIZE_MAX
      ensures Valid() && dataSize == itemSize && size == 0 && slots == []
    {
      dataSize := itemSize;
      slots := [];
      size := 0;
    }

    /**
     * allocate_field on the array. A block that is resized keeps the items the two sizes have in
     * common.
     */
    method Allocate(arraySize: nat, alloc: Allocator) returns (ok: bool)
      requires Valid() && size < arraySize <= PB_SIZE_MAX
      modifies this`slots, alloc
      ensures Valid() && Items() == old(Items())
      ensures alloc.asked == old(alloc.asked) + [dataSize * arraySize] && (ok <==> alloc.grant(dataSize * arraySize))
      ensures if ok then |slots| == arraySize else slots == old(slots)
    {
      CountFits(dataSize, arraySize);
      ok := AllocateField(alloc, dataSize, arraySize);
      if ok {
        slots := Resized(slots, arraySize);
      }
    }

    /** Store an item where the offset of index size leads to, which is inside the block, and count it. */
    method Append(v: Value)
      requires Valid() && size < |slots| && size < PB_SIZE_MAX
      modifies this
      ensures Valid() && size == old(size) + 1 && |slots| == |old(slots)|
      ensures Items() == Appended(old(Items()), dataSize, v)
    {
      OffsetInside(dataSize, size);
      StorePrefix(slots, size, dataSize, Offset(dataSize, size), v);
      slots := StoreAt(slots, dataSize, Offset(dataSize, size), v);
      size := size + 1;
    }
  }

  /** A store into the first n + 1 items leaves the others alone. */
  lemma {:induction false} StorePrefix(slots: seq<Value>, n: nat, q: nat, offset: nat, v: Value)
    requires n < |slots| && q > 0 && offset + q <= (n + 1) * q && slots[n].VStale?
    ensures offset + q <= |slots| * q
    ensures StoreAt(slots, q, offset, v)[..n + 1] == StoreAt(slots[..n] + [VStale], q, offset, v)
    ensures StoreAt(slots, q, offset, v)[n + 1..] == slots[n + 1..]
  {
    TimesMono(n + 1, |slots|, q);
    InsideBlock(n + 1, q, offset);
    var k := offset / q;
    UpdatePrefix(slots, n, k, v);
    if offset % q != 0 {
      UpdatePrefix(slots, n, k, VStale);
      UpdateTwice(slots, n, k);
    }
  }

  lemma {:induction false} UpdatePrefix(slots: seq<Value>, n: nat, k: nat, v: Value)
    requires k <= n < |slots| && slots[n].VStale?
    ensures slots[k := v][..n + 1] == (slots[..n] + [VStale])[k := v] && slots[k := v][n + 1..] == slots[n + 1..]
  {
    assert slots[..n + 1] == slots[..n] + [VStale];
  }

  lemma {:induction false} UpdateTwice(slots: seq<Value>, n: nat, k: nat)
    requires k < n < |slots| && slots[n].VStale?
    ensures slots[k := VStale][k + 1 := VStale][..n + 1] == (slots[..n] + [VStale])[k := VStale][k + 1 := VStale]
    ensures slots[k := VStale][k + 1 := VStale][n + 1..] == slots[n + 1..]
  {
    assert slots[..n + 1] == slots[..n] + [VStale];
  }

  lemma {:induction false} CountFits(dataSize: nat, n: nat)
    requires 0 < dataSize <= PB_SIZE_MAX && 0 < n <= PB_SIZE_MAX
    ensures 0 < dataSize * n <= SIZE_T_MAX
  {
    TimesMono(dataSize, PB_SIZE_MAX, n);
    TimesMono(n, PB_SIZE_MAX, PB_SIZE_MAX);
    TimesMono(1, dataSize, n);
  }

  /** A block after realloc: what it has in common with the old one is kept, and the rest has no value yet. */
  function Resized(slots: seq<Value>, n: nat): (r: seq<Value>)
    ensures |r| == n && forall k :: 0 <= k < n ==> r[k] == if k < |slots| then slots[k] else VStale
  {
    seq(n, k requires 0 <= k < n => if k < |slots| then slots[k] else VStale)
  }

  // ------------------------------------------------------------- packed arrays

  /**
   * How many items to make room for: enough for the bytes left if every item takes dataSize of them,
   * and no more than that needs; one more than before when a count could not hold so many.
   */
  function Guess(bytesLeft: nat, dataSize: nat, room: nat): (n: nat)
    requires bytesLeft > 0 && dataSize > 0 && room < PB_SIZE_MAX
    ensures room < n <= 0xFFFF_FFFF && n <= room + bytesLeft
    ensures bytesLeft <= (0xFFFF_FFFF - room - 1) * dataSize ==>
              (n - room - 1) * dataSize < bytesLeft <= (n - room) * dataSize
    ensures bytesLeft > (0xFFFF_FFFF - room - 1) * dataSize ==> n == room + 1
  {
    var remain := (bytesLeft - 1) / dataSize + 1;
    assert remain <= bytesLeft && (remain - 1) * dataSize < bytesLeft <= remain * dataSize by {
      RoundedUp(bytesLeft, dataSize);
    }
    assert remain < PB_SIZE_MAX - room <==> bytesLeft <= (0xFFFF_FFFF - room - 1) * dataSize by {
      TimesMono(remain, PB_SIZE_MAX - room - 1, dataSize);
      TimesMono(PB_SIZE_MAX - room, remain, dataSize);
      TimesMono(PB_SIZE_MAX - room - 1, remain - 1, dataSize);
    }
    if remain < PB_SIZE_MAX - room then room + remain else room + 1
  }

  /** Division rounding upwards. */
  lemma {:induction false} RoundedUp(n: nat, q: nat)
    requires n > 0 && q > 0
    ensures var k := (n - 1) / q + 1; 0 < k <= n && (k - 1) * q < n <= k * q
  {
    var k, r := (n - 1) / q, (n - 1) % q;
    Division(n - 1, q);
    AtLeast(k, q);
    OneMore(k, q);
  }

  lemma {:induction false} AtLeast(k: nat, q: nat)
    requires q > 0
    ensures k <= k * q
  {
    TimesMono(1, q, k);
  }

  lemma {:induction false} OneMore(k: nat, q: nat)
    ensures (k + 1) * q == k * q + q
  {
  }

  /**
   * The block sizes a packed payload asks for, when size items are stored and the block has room for
   * some: nothing while there is room for one more, and nothing after a refusal or a bad element.
   */
  function Requests(f: Field, q: nat, s: seq<Byte>, size: nat, room: nat, grant: nat -> bool): seq<nat>
    requires q > 0 && size <= room <= PB_SIZE_MAX
    decreases |s|
  {
    if s == [] || size == PB_SIZE_MAX then []
    else
      var room' := if size < room then room else Guess(|s|, q, room);
      var asked := if size < room then [] else [q * room'];
      if size < room || grant(q * room') then
        match DecScalar(f, s)
        case Fail => asked
        case Read(_, n) => asked + Requests(f, q, s[n..], size + 1, room', grant)
      else asked
  }

  /** What one turn of the loop asks for, and what is asked for after it. */
  lemma {:induction false} RequestsNext(f: Field, q: nat, s: seq<Byte>, size: nat, room: nat, grant: nat -> bool)
    requires q > 0 && size <= room <= PB_SIZE_MAX
    ensures s == [] || size == PB_SIZE_MAX ==> Requests(f, q, s, size, room, grant) == []
    ensures s != [] && size < PB_SIZE_MAX ==>
              var room' := if size < room then room else Guess(|s|, q, room);
              var asked := if size < room then [] else [q * room'];
              Requests(f, q, s, size, room, grant) ==
              asked + if (size < room || grant(q * room')) && DecScalar(f, s).Read? then
                        Requests(f, q, s[DecScalar(f, s).used..], size + 1, room', grant)
                      else []
  {
    hide DecScalar, Guess;
  }

  /** An element of a fixed width. */
  predicate FixedWidth(f: Field, q: nat) {
    (f.ltype.LFixed32? && q == 4) || (f.ltype.LFixed64? && q == 8)
  }

  lemma {:induction false} NoRequests(f: Field, q: nat, s: seq<Byte>, size: nat, room: nat, grant: nat -> bool)
    requires FixedWidth(f, q) && size <= room <= PB_SIZE_MAX && |s| <= (room - size) * q
    ensures Requests(f, q, s, size, room, grant) == []
    decreases |s|
  {
    if s != [] {
      assert size < room;
      if |s| >= q {
        assert (room - size) * q == (room - (size + 1)) * q + q;
        NoRequests(f, q, s[q..], size + 1, room, grant);
      }
    }
  }

  /**
   * Elements of a fixed width are allocated all at once: one request, for as many items as there are
   * and as the bytes make, if a count can hold them.
   */
  lemma {:induction false} OneRequest(f: Field, q: nat, s: seq<Byte>, size: nat, k: nat, grant: nat -> bool)
    requires FixedWidth(f, q) && 0 < k && |s| == k * q && size + k < 0xFFFF_FFFF
    ensures Requests(f, q, s, size, size, grant) == [q * (size + k)]
  {
    hide Guess, Requests, FixedWidth;
    WidthPositive(f, q);
    GuessExact(k, q, size);
    FirstElement(f, q, s, size, size + k, grant);
    RestFits(k, q);
    NoRequests(f, q, s[q..], size + 1, size + k, grant);
  }

  lemma {:induction false} WidthPositive(f: Field, q: nat)
    ensures FixedWidth(f, q) ==> q > 0
  {
  }

  lemma {:induction false} RestFits(k: nat, q: nat)
    requires k > 0
    ensures q <= k * q && k * q - q == (k - 1) * q
  {
    assert k * q == (k - 1) * q + q;
  }

  /** The guess is exact when the bytes left make whole items. */
  lemma {:induction false} GuessExact(k: nat, q: nat, size: nat)
    requires 0 < k && q > 0 && size + k < 0xFFFF_FFFF
    ensures k * q > 0 && Guess(k * q, q, size) == size + k
  {
    hide Guess;
    RestFits(k, q);
    TimesMono(k, 0xFFFF_FFFF - size - 1, q);
    var g := Guess(k * q, q, size) - size;
    if g < k {
      TimesMono(g, k - 1, q);
    } else if g > k {
      TimesMono(k, g - 1, q);
    }
  }

  lemma {:induction false} FirstElement(f: Field, q: nat, s: seq<Byte>, size: nat, n: nat, grant: nat -> bool)
    requires FixedWidth(f, q) && |s| >= q && size < PB_SIZE_MAX && n == Guess(|s|, q, size)
    ensures size + 1 <= n <= PB_SIZE_MAX
    ensures Requests(f, q, s[q..], size + 1, n, grant) == [] ==> Requests(f, q, s, size, size, grant) == [q * n]
  {
    hide Guess;
  }

  // ------------------------------------------------------- what is asked for in all

  /** Every request is met. */
  predicate Met(asked: seq<nat>, grant: nat -> bool) {
    forall k :: 0 <= k < |asked| ==> grant(asked[k])
  }

  /** Every request but the last is met, and none is for more than the limit. */
  predicate Orderly(asked: seq<nat>, grant: nat -> bool, limit: nat) {
    forall k :: 0 <= k < |asked| ==> asked[k] <= limit && (k < |asked| - 1 ==> grant(asked[k]))
  }

  lemma {:induction false} OrderlyFirst(x: nat, asked: seq<nat>, grant: nat -> bool, limit: nat, less: nat)
    requires Orderly(asked, grant, less) && less <= limit
    ensures Orderly(asked, grant, limit)
    ensures x <= limit && grant(x) ==> Orderly([x] + asked, grant, limit)
  {
  }

  lemma {:induction false} OrderlyOne(x: nat, grant: nat -> bool, limit: nat)
    ensures Orderly([], grant, limit)
    ensures x <= limit ==> Orderly([x], grant, limit)
  {
  }

  /** As many items as there were and one for each byte left. */
  function Most(q: nat, size: nat, s: seq<Byte>): nat {
    q * (size + |s|)
  }

  /**
   * A request comes only after the earlier ones were met, and is for at most as many items as there
   * were plus the bytes of the payload.
   */
  lemma {:induction false} RequestsBounded(f: Field, q: nat, s: seq<Byte>, size: nat, room: nat, grant: nat -> bool)
    requires q > 0 && size <= room <= PB_SIZE_MAX
    ensures Orderly(Requests(f, q, s, size, room, grant), grant, Most(q, size, s))
    decreases |s|
  {
    hide *;
    RequestsNext(f, q, s, size, room, grant);
    OrderlyOne(0, grant, Most(q, size, s));
    if s != [] && size < PB_SIZE_MAX {
      var room', rest := RequestsAfter(f, q, s, size, room, grant);
      OrderlyOne(q * room', grant, Most(q, size, s));
      if rest.Some? {
        var n := DecScalar(f, s).used;
        RequestsBounded(f, q, s[n..], size + 1, room', grant);
        OrderlyFirst(q * room', rest.value, grant, Most(q, size, s), Most(q, size + 1, s[n..]));
      }
    }
  }

  /** The requests by the first element and by the others, if it comes to these. */
  lemma {:induction false} RequestsAfter(f: Field, q: nat, s: seq<Byte>, size: nat, room: nat, grant: nat -> bool)
      returns (room': nat, rest: Option<seq<nat>>)
    requires q > 0 && size <= room <= PB_SIZE_MAX && s != [] && size < PB_SIZE_MAX
    ensures size < room' <= PB_SIZE_MAX && (size == room ==> q * room' <= Most(q, size, s))
    ensures rest.Some? ==>
              && DecScalar(f, s).Read? && (size < room || grant(q * room'))
              && Most(q, size + 1, s[DecScalar(f, s).used..]) <= Most(q, size, s)
              && rest.value == Requests(f, q, s[DecScalar(f, s).used..], size + 1, room', grant)
    ensures rest.None? ==> Requests(f, q, s, size, room, grant) == if size < room then [] else [q * room']
    ensures rest.Some? ==>
              Requests(f, q, s, size, room, grant) == if size < room then rest.value else [q * room'] + rest.value
  {
    hide Guess, DecScalar, Requests, Most;
    RequestsNext(f, q, s, size, room, grant);
    GuessMost(q, s, size);
    room' := if size < room then room else Guess(|s|, q, room);
    rest := None;
    if DecScalar(f, s).Read? && (size < room || grant(q * room')) {
      MostLess(q, s, size, DecScalar(f, s).used);
      rest := Some(Requests(f, q, s[DecScalar(f, s).used..], size + 1, room', grant));
    }
  }

  lemma {:induction false} GuessMost(q: nat, s: seq<Byte>, size: nat)
    requires q > 0 && s != [] && size < PB_SIZE_MAX
    ensures q * Guess(|s|, q, size) <= Most(q, size, s)
  {
    hide Guess;
    TimesMono(Guess(|s|, q, size), size + |s|, q);
  }

  lemma {:induction false} MostLess(q: nat, s: seq<Byte>, size: nat, n: nat)
    requires 0 < n <= |s|
    ensures Most(q, size + 1, s[n..]) <= Most(q, size, s)
  {
    TimesMono(size + 1 + |s[n..]|, size + |s|, q);
  }

  /** What has been asked for, all of it granted, and what is still to be comes to this in all. */
  ghost predicate Asking(done: seq<nat>, f: Field, q: nat, s: seq<Byte>, size: nat, room: nat, grant: nat -> bool,
      total: seq<nat>)
  {
    q > 0 && size <= room <= PB_SIZE_MAX && Met(done, grant) && done + Requests(f, q, s, size, room, grant) == total
  }

  lemma {:induction false} StartAsking(f: Field, q: nat, s: seq<Byte>, size: nat, grant: nat -> bool)
    requires q > 0 && size <= PB_SIZE_MAX
    ensures Asking([], f, q, s, size, size, grant, Requests(f, q, s, size, size, grant))
  {
    hide Requests;
  }

  /** One turn of the loop, given what it asked for. */
  lemma {:induction false} AskNext(done: seq<nat>, f: Field, q: nat, s: seq<Byte>, size: nat, room: nat,
      grant: nat -> bool, total: seq<nat>, room': nat)
    requires Asking(done, f, q, s, size, room, grant, total)
    requires s != [] && size < PB_SIZE_MAX ==> room' == if size < room then room else Guess(|s|, q, room)
    ensures s == [] || size == PB_SIZE_MAX ==> done == total && Met(total, grant)
    ensures s != [] && size < PB_SIZE_MAX ==>
              var now := done + if size < room then [] else [q * room'];
              && size < room' <= PB_SIZE_MAX
              && (size >= room && !grant(q * room') ==> now == total && !Met(total, grant))
              && (size < room || grant(q * room') ==>
                    && Met(now, grant)
                    && (DecScalar(f, s).Fail? ==> now == total)
                    && (DecScalar(f, s).Read? ==>
                          Asking(now, f, q, s[DecScalar(f, s).used..], size + 1, room', grant, total)))
  {
    hide Requests, Guess, DecScalar;
    RequestsNext(f, q, s, size, room, grant);
    if s != [] && size < PB_SIZE_MAX {
      var now := done + if size < room then [] else [q * room'];
      assert size >= room ==> now[|done|] == q * room';
    }
  }

  /** Make room for one more item if there is none; room is the local allocated_size. */
  method Reserve(a: DynamicArray, bytesLeft: nat, room: nat, alloc: Allocator) returns (ok: bool, room': nat)
    requires a.Valid() && bytesLeft > 0 && a.size < PB_SIZE_MAX && a.size <= room <= |a.slots| && room <= PB_SIZE_MAX
    modifies a`slots, alloc
    ensures a.Valid() && a.Items() == old(a.Items())
    ensures room' == if a.size < room then room else Guess(bytesLeft, a.dataSize, room)
    ensures alloc.asked == old(alloc.asked) + if a.size < room then [] else [a.dataSize * room']
    ensures ok <==> a.size < room || alloc.grant(a.dataSize * room')
    ensures ok ==> a.size < room' <= |a.slots| && room' <= PB_SIZE_MAX
  {
    hide Guess, Resized;
    ok, room' := true, room;
    if a.size + 1 > room {
      room' := Guess(bytesLeft, a.dataSize, room);
      ok := a.Allocate(room', alloc);
    }
  }

  /** How many more items a count can hold. */
  function RoomLeft(size: nat): nat {
    if size < PB_SIZE_MAX then PB_SIZE_MAX - size else 0
  }

  /** The array has grown from items to now by vs, with s left of the payload. */
  ghost predicate Grown(f: Field, all: Option<seq<Value>>, items: seq<Value>, q: nat, vs: seq<Value>, now: seq<Value>,
      s: seq<Byte>) {
    && q > 0 && |now| <= PB_SIZE_MAX && now == AppendedAll(items, q, vs)
    && PackedSoFar(f, all, vs, s, PB_SIZE_MAX - |now|)
  }

  lemma {:induction false} GrownStart(f: Field, items: seq<Value>, q: nat, s: seq<Byte>)
    requires |items| <= PB_SIZE_MAX && q > 0
    ensures Grown(f, DecPacked(f, s, PB_SIZE_MAX - |items|), items, q, [], items, s)
  {
    hide PackedSoFar;
    PackedStart(f, s, PB_SIZE_MAX - |items|);
  }

  lemma {:induction false} GrownBy(f: Field, all: Option<seq<Value>>, items: seq<Value>, q: nat, vs: seq<Value>,
      now: seq<Value>, v: Value, s: seq<Byte>)
    requires q > 0 && |now| < PB_SIZE_MAX && now == AppendedAll(items, q, vs)
    requires PackedSoFar(f, all, vs + [v], s, PB_SIZE_MAX - |now| - 1)
    ensures Grown(f, all, items, q, vs + [v], Appended(now, q, v), s)
  {
    hide PackedSoFar, Appended;
    assert (vs + [v])[..|vs|] == vs;
  }

  lemma {:induction false} GrownEnd(f: Field, all: Option<seq<Value>>, items: seq<Value>, q: nat, vs: seq<Value>,
      now: seq<Value>, s: seq<Byte>)
    requires Grown(f, all, items, q, vs, now, s)
    ensures q > 0 && |now| <= PB_SIZE_MAX && now == AppendedAll(items, q, vs) &&
            PackedSoFar(f, all, vs, s, PB_SIZE_MAX - |now|)
    ensures s == [] ==> all == Some(vs)
    ensures s != [] && |now| == PB_SIZE_MAX ==> all.None?
  {
    hide PackedSoFar, AppendedAll;
    if s == [] || |now| == PB_SIZE_MAX {
      PackedEnd(f, all, vs, s, PB_SIZE_MAX - |now|);
    }
  }

  /** One turn of the loop over a packed array. */
  method GrowByOne(substream: IStream, f: Field, a: DynamicArray, room: nat, alloc: Allocator,
                   ghost all: Option<seq<Value>>, ghost items: seq<Value>, ghost vs: seq<Value>, ghost base: seq<nat>,
                   ghost done: seq<nat>, ghost total: seq<nat>)
    returns (ok: bool, room': nat, ghost vs': seq<Value>, ghost done': seq<nat>)
    requires substream.Valid() && substream.bytesLeft > 0 && Packable(f)
    requires a.Valid() && a.size <= room <= |a.slots| && room <= PB_SIZE_MAX
    requires Grown(f, all, items, a.dataSize, vs, a.Items(), substream.Rest())
    requires Asking(done, f, a.dataSize, substream.Rest(), a.size, room, alloc.grant, total)
    requires alloc.asked == base + done
    modifies substream, a, alloc
    ensures substream.Valid() && substream.Within() && a.Valid() && alloc.asked == base + done'
    ensures ok ==> substream.bytesLeft < old(substream.bytesLeft) && a.size == old(a.size) + 1
    ensures ok ==> substream.state + substream.bytesLeft == old(substream.state + substream.bytesLeft)
    ensures ok ==> a.size <= room' <= |a.slots| && room' <= PB_SIZE_MAX
    ensures ok ==> Grown(f, all, items, a.dataSize, vs', a.Items(), substream.Rest())
    ensures ok ==> Asking(done', f, a.dataSize, substream.Rest(), a.size, room', alloc.grant, total)
    ensures !ok ==> done' == total && (all.None? || !Met(total, alloc.grant))
  {
    hide PackedSoFar, Grown, AppendedAll, Appended, DecPacked, DecScalar, Requests, Guess, Asking, Met;
    ghost var now, s, size := a.Items(), substream.Rest(), a.size;
    room', vs', done' := room, vs, done;
    GrownEnd(f, all, items, a.dataSize, vs, now, s);
    if a.size == PB_SIZE_MAX {
      AskNext(done, f, a.dataSize, s, size, room, alloc.grant, total, room);
      return false, room', vs', done'; // too many array entries
    }
    ok, room' := Reserve(a, substream.bytesLeft, room, alloc);
    AskNext(done, f, a.dataSize, s, size, room, alloc.grant, total, room');
    done' := done + if size < room then [] else [a.dataSize * room'];
    if !ok {
      return;
    }
    var v;
    ok, v := DecodeElement(substream, f, all, vs, PB_SIZE_MAX - a.size);
    if !ok {
      return;
    }
    GrownBy(f, all, items, a.dataSize, vs, now, v, substream.Rest());
    a.Append(v);
    vs' := vs + [v];
  }

  /**
   * The loop over a packed array, on its payload. It makes exactly the requests it should, and
   * succeeds exactly when the payload is good, the count can hold all its elements, and every
   * request is met.
   */
  method DecodeElements(substream: IStream, f: Field, a: DynamicArray, alloc: Allocator) returns (ok: bool)
    requires substream.Valid() && Packable(f) && a.Valid()
    modifies substream, a, alloc
    ensures substream.Valid() && substream.Within() && a.Valid()
    ensures ok ==> substream.bytesLeft == 0 && substream.state == old(substream.state + substream.bytesLeft)
    ensures var all := DecPacked(f, old(substream.Rest()), RoomLeft(old(a.size)));
            var asked := Requests(f, a.dataSize, old(substream.Rest()), old(a.size), old(a.size), alloc.grant);
            && alloc.asked == old(alloc.asked) + asked
            && (ok <==> all.Some? && Met(asked, alloc.grant))
            && (ok ==> a.Items() == AppendedAll(old(a.Items()), a.dataSize, all.value))
  {
    hide DecPacked, Grown, AppendedAll, Requests, Asking, Met;
    ghost var all, items, vs := DecPacked(f, substream.Rest(), RoomLeft(a.size)), a.Items(), [];
    ghost var base, done := alloc.asked, [];
    ghost var total := Requests(f, a.dataSize, substream.Rest(), a.size, a.size, alloc.grant);
    GrownStart(f, items, a.dataSize, substream.Rest());
    StartAsking(f, a.dataSize, substream.Rest(), a.size, alloc.grant);
    var room := a.size;
    while substream.bytesLeft > 0
      invariant substream.Valid() && substream.Within() && a.Valid() && alloc.asked == base + done
      invariant substream.state + substream.bytesLeft == old(substream.state + substream.bytesLeft)
      invariant a.size <= room <= |a.slots| && room <= PB_SIZE_MAX
      invariant Grown(f, all, items, a.dataSize, vs, a.Items(), substream.Rest())
      invariant Asking(done, f, a.dataSize, substream.Rest(), a.size, room, alloc.grant, total)
      decreases substream.bytesLeft
    {
      ok, room, vs, done := GrowByOne(substream, f, a, room, alloc, all, items, vs, base, done, total);
      if !ok {
        return;
      }
    }
    GrownEnd(f, all, items, a.dataSize, vs, a.Items(), substream.Rest());
    AllAsked(done, f, a.dataSize, substream.Rest(), a.size, room, alloc.grant, total);
    return true;
  }

  lemma {:induction false} AllAsked(done: seq<nat>, f: Field, q: nat, s: seq<Byte>, size: nat, room: nat,
      grant: nat -> bool, total: seq<nat>)
    requires Asking(done, f, q, s, size, room, grant, total) && s == []
    ensures done == total && Met(total, grant)
  {
    hide Guess, DecScalar;
  }

  /** The payload of a length-delimited record; empty if there is none. */
  function PackedPayload(s: seq<Byte>): seq<Byte> {
    if Delimited(s).Read? then Delimited(s).val else []
  }

  function PackedUsed(s: seq<Byte>): nat {
    if Delimited(s).Read? then Delimited(s).used else 0
  }

  /** The elements of a packed record, at most room of them. */
  function PackedElements(f: Field, s: seq<Byte>, room: nat): Option<seq<Value>> {
    if Delimited(s).Read? then DecPacked(f, Delimited(s).val, room) else None
  }

  lemma {:induction false} NoPayload(f: Field, q: nat, size: nat, grant: nat -> bool)
    requires q > 0 && size <= PB_SIZE_MAX
    ensures Requests(f, q, [], size, size, grant) == []
  {
  }

  /**
   * The packed case of decode_pointer_field: the elements are stored, and the stream moves exactly
   * past the payload. It fails for a reason only: no payload, a bad one, more elements than a
   * count can hold, or a request that was refused.
   */
  method DecodePackedPointer(stream: IStream, f: Field, a: DynamicArray, alloc: Allocator) returns (ok: bool)
    requires stream.Valid() && Packable(f) && a.Valid()
    modifies stream, a, alloc
    ensures stream.Valid() && stream.Within() && a.Valid()
    ensures var all := PackedElements(f, old(stream.Rest()), RoomLeft(old(a.size)));
            var asked := Requests(f, a.dataSize, PackedPayload(old(stream.Rest())), old(a.size), old(a.size),
                alloc.grant);
            && alloc.asked == old(alloc.asked) + asked
            && (ok <==> all.Some? && Met(asked, alloc.grant))
            && (ok ==> a.Items() == AppendedAll(old(a.Items()), a.dataSize, all.value))
    ensures ok ==> stream.Took(PackedUsed(old(stream.Rest())))
  {
    NoPayload(f, a.dataSize, a.size, alloc.grant);
    hide DecPacked, Delimited, Requests, Met, AppendedAll;
    var substream;
    ok, substream := stream.MakeSubstream();
    if !ok {
      return;
    }
    var status := DecodeElements(substream, f, a, alloc);
    var closed := stream.CloseSubstream(substream);
    return closed && status;
  }

  // ------------------------------------------------------------- what was stored

  /** The elements of a packed payload are appended exactly when the offset of the last one fits in 32 bits. */
  lemma {:induction false} PackedAppended(f: Field, s: seq<Byte>, room: nat, items: seq<Value>, q: nat)
    requires q > 0 && DecPacked(f, s, room).Some?
    ensures var vs := DecPacked(f, s, room).value;
            AppendedAll(items, q, vs) == items + vs <==> vs == [] || q * (|items| + |vs| - 1) < TWO_32
  {
    hide DecPacked, Appended, AppendedAll;
    PackedKnown(f, s, room);
    AppendedAllExact(items, q, DecPacked(f, s, room).value);
  }

  lemma {:induction false} PackedKnown(f: Field, s: seq<Byte>, room: nat)
    requires DecPacked(f, s, room).Some?
    ensures forall j :: 0 <= j < |DecPacked(f, s, room).value| ==> !DecPacked(f, s, room).value[j].VStale?
  {
    hide DecPacked;
    PackedDecoded(f, s, room);
  }

  /** An element of eight bytes. */
  predicate EightByte(f: Field) {
    f.ltype.LUvarint? && f.dataSize == 8
  }

  /** One-byte varints are elements, one a byte. */
  lemma {:induction false} OneByteElements(f: Field, s: seq<Byte>, room: nat)
    requires EightByte(f) && |s| <= room && forall j :: 0 <= j < |s| ==> s[j] < 0x80
    ensures DecPacked(f, s, room).Some? && |DecPacked(f, s, room).value| == |s|
    decreases |s|
  {
    if s != [] {
      OneByteElement(f, s);
      hide DecScalar;
      OneByteElements(f, s[1..], room - 1);
    }
  }

  lemma {:induction false} OneByteElement(f: Field, s: seq<Byte>)
    requires EightByte(f) && s != [] && s[0] < 0x80
    ensures DecScalar(f, s) == Read(VInt(s[0]), 1)
  {
    assert VarintLen(s) == 1 && s[..1] == [s[0]];
    assert VarintVal([s[0]]) == s[0];
  }

  /**
   * A payload of 2^29 + 1 one-byte varints for an array of eight-byte elements, every allocation
   * being met: the last one is stored over the first, and its own place is left without a value.
   */
  lemma {:induction false} LargePayloadWraps(f: Field, s: seq<Byte>)
    requires EightByte(f) && |s| == 0x2000_0001 && forall j :: 0 <= j < |s| ==> s[j] < 0x80
    ensures var all := DecPacked(f, s, RoomLeft(0));
            && all.Some? && |all.value| == |s|
            && var now := AppendedAll([], 8, all.value);
               && now[0] == all.value[0x2000_0000] && now[0x2000_0000] == VStale
               && now != [] + all.value
  {
    OneByteElements(f, s, RoomLeft(0));
    PackedKnown(f, s, RoomLeft(0));
    hide DecPacked, EightByte, AppendedAll, Appended;
    var vs := DecPacked(f, s, RoomLeft(0)).value;
    AppendedAllExact([], 8, vs);
    LastWraps(vs);
  }

  lemma {:induction false} LastWraps(vs: seq<Value>)
    requires |vs| == 0x2000_0001
    ensures AppendedAll([], 8, vs)[0] == vs[0x2000_0000] && AppendedAll([], 8, vs)[0x2000_0000] == VStale
  {
    var before := AppendedAll([], 8, vs[..0x2000_0000]);
    assert Offset(8, |before|) == 0;
  }

  // ------------------------------------------------------------------ single items

  /** What pb_dec_bytes and pb_dec_string allocate for a run of this size. */
  function RunRequest(f: Field, size: nat): Option<nat> {
    if f.ltype.LBytes? then
      if size <= PB_SIZE_MAX then Some(size + BYTES_HEADER) else None
    else
      if size + 1 < TWO_32 then Some(size + 1) else None
  }

  /** One block for the size of the run and the word in front of it, or for the run and a terminator. */
  function RunRequests(f: Field, size: nat): seq<nat> {
    if f.ltype.LBytes? then if size <= 0xFFFF_FFFF then [size + 4] else []
    else if size < 0xFFFF_FFFF then [size + 1] else []
  }

  /** A run whose size has been read, given the requests the allocator meets. */
  function RunBehind(f: Field, size: nat, s: seq<Byte>, grant: nat -> bool): Option<Value> {
    var request := RunRequest(f, size);
    if request.Some? && grant(request.value) && size <= |s| then Some(VBytes(s[..size])) else None
  }

  /** pb_dec_bytes and pb_dec_string into a pointer. */
  function DecRunPointer(f: Field, s: seq<Byte>, grant: nat -> bool): (r: Parse<Value>) {
    match DecVarint32(s)
    case Fail => Fail
    case Read(size, k) =>
      match RunBehind(f, size, s[k..], grant)
      case None => Fail
      case Some(v) => Read(v, k + size)
  }

  /** A run is read if and only if it is all there and its block is granted. */
  lemma {:induction false} RunPointerRead(f: Field, s: seq<Byte>, grant: nat -> bool)
    requires f.ltype.LBytes? || f.ltype.LString?
    ensures DecRunPointer(f, s, grant).Read? <==>
            && DecVarint32(s).Read?
            && var size, k := DecVarint32(s).val, DecVarint32(s).used;
               && k + size <= |s|
               && RunRequests(f, size) != [] && Met(RunRequests(f, size), grant)
    ensures DecRunPointer(f, s, grant).Read? ==>
            var size, k := DecVarint32(s).val, DecVarint32(s).used;
            k + size <= |s| && DecRunPointer(f, s, grant) == Read(VBytes(s[k..k + size]), k + size)
  {
    hide DecVarint32;
    if DecVarint32(s).Read? {
      var size, k := DecVarint32(s).val, DecVarint32(s).used;
      var asked := RunRequests(f, size);
      assert asked != [] ==> (Met(asked, grant) <==> grant(asked[0]));
      assert k + size <= |s| ==> s[k..][..size] == s[k..k + size];
    }
  }

  /** An item of a repeated pointer field: strings and bytes have a block each. */
  function DecPointerItem(f: Field, s: seq<Byte>, grant: nat -> bool): Parse<Value> {
    if f.ltype.LBytes? || f.ltype.LString? then DecRunPointer(f, s, grant) else DecItem(f, s, BlankValue(f))
  }

  /** The pointer case of pb_dec_bytes and pb_dec_string. */
  method DecodeRunPointer(stream: IStream, f: Field, alloc: Allocator) returns (ok: bool, v: Value)
    requires stream.Valid()
    modifies stream, alloc
    ensures stream.Valid() && stream.Within()
    ensures var size := DecVarint32(old(stream.Rest()));
            alloc.asked == old(alloc.asked) + if size.Read? then RunRequests(f, size.val) else []
    ensures var r := DecRunPointer(f, old(stream.Rest()), alloc.grant);
            (ok <==> r.Read?) && (ok ==> v == r.val && stream.Took(r.used))
  {
    hide DecVarint32, RunBehind;
    ghost var s := stream.Rest();
    v := VStale;
    var size, eof;
    ok, size, eof := stream.DecodeVarint32Eof();
    if !ok {
      return;
    }
    stream.RestAfter(DecVarint32(s).used);
    ok, v := DecodeRunBehind(stream, f, size, alloc);
  }

  /** The part of them after the size. */
  method DecodeRunBehind(stream: IStream, f: Field, size: nat, alloc: Allocator) returns (ok: bool, v: Value)
    requires stream.Valid()
    modifies stream, alloc
    ensures stream.Valid() && stream.Within()
    ensures alloc.asked == old(alloc.asked) + RunRequests(f, size)
    ensures var r := RunBehind(f, size, old(stream.Rest()), alloc.grant);
            (ok <==> r.Some?) && (ok ==> v == r.value && stream.Took(size))
  {
    hide DecVarint32, AppendedAll, Appended;
    v := VStale;
    var bytes := size + BYTES_HEADER;
    if f.ltype.LBytes? {
      if size > PB_SIZE_MAX {
        return false, v; // bytes overflow
      }
    } else {
      // Space for the null terminator; the sum is a uint32_t.
      bytes := (size + 1) % TWO_32;
      if bytes < size {
        return false, v; // size too large
      }
    }
    ok := AllocateField(alloc, bytes, 1);
    if ok {
      var data;
      ok, data := stream.Read(size);
      v := VBytes(data);
    }
  }

  /** The field with its items in place: what the decoders of single items see of it. */
  function InPlace(f: Field): Field {
    f.(atype := Static)
  }

  /** How a field is allocated makes no difference to a single item. */
  lemma {:induction false} InPlaceItem(f: Field, s: seq<Byte>)
    ensures BlankValue(InPlace(f)) == BlankValue(f)
    ensures DecItem(InPlace(f), s, BlankValue(f)) == DecItem(f, s, BlankValue(f))
  {
    InPlaceBlank(f);
    InPlaceScalar(f, s);
    hide BlankValue, DecScalar, DecodeNoinit, Delimited;
  }

  lemma {:induction false} InPlaceBlank(f: Field)
    ensures BlankValue(InPlace(f)) == BlankValue(f)
  {
  }

  lemma {:induction false} InPlaceScalar(f: Field, s: seq<Byte>)
    ensures DecScalar(InPlace(f), s) == DecScalar(f, s)
  {
    hide DecVarint, DecVarint32, FromLittleEndian, ToSigned, UnZigZag;
  }

  /**
   * The unpacked case of decode_pointer_field: one more item, counted before it is decoded. It
   * succeeds exactly when the count can hold it, the block can grow by one item, and the item is good.
   */
  method DecodeOnePointer(stream: IStream, f: Field, a: DynamicArray, alloc: Allocator) returns (ok: bool)
    requires stream.Valid() && f.atype.Pointer? && StaticField(InPlace(f), false) && f.htype.Repeated? && a.Valid()
    modifies stream, a, alloc
    ensures stream.Valid() && stream.Within() && a.Valid() && old(alloc.asked) <= alloc.asked
    ensures var r := DecPointerItem(f, old(stream.Rest()), alloc.grant);
            && (ok <==> old(a.size) < 0xFFFF_FFFF && alloc.grant(a.dataSize * (old(a.size) + 1)) && r.Read?)
            && (ok ==> a.Items() == Appended(old(a.Items()), a.dataSize, r.val) && stream.Took(r.used))
    ensures old(a.size) < 0xFFFF_FFFF ==>
              |old(alloc.asked)| < |alloc.asked| && alloc.asked[|old(alloc.asked)|] == a.dataSize * (old(a.size) + 1)
  {
    hide DecItem, DecRunPointer, Appended, StaticField, ItemShape, BlankValue;
    if a.size == PB_SIZE_MAX {
      return false; // too many array entries
    }
    ok := a.Allocate(a.size + 1, alloc);
    if !ok {
      return;
    }
    var v;
    if f.ltype.LBytes? || f.ltype.LString? {
      ok, v := DecodeRunPointer(stream, f, alloc);
    } else {
      BlankShape(InPlace(f), false);
      InPlaceItem(f, stream.Rest());
      ok, v := DecodeItem(stream, InPlace(f), BlankValue(f));
    }
    a.Append(if ok then v else VStale);
  }
}
