/** The iterators of Realm's chunked range vector (index_set.hpp): over ranges, and over single indices. */
module IndexSet {
  import opened Basics

  /** The indices from first up to, but not including, second. */
  datatype Range = Range(first: nat, second: nat)

  type Chunk = seq<Range>

  predicate NonEmptyChunks(chunks: seq<Chunk>) {
    forall c :: 0 <= c < |chunks| ==> chunks[c] != []
  }

  /** All ranges, chunk after chunk. */
  function Flat(chunks: seq<Chunk>): seq<Range> {
    if chunks == [] then [] else Flat(chunks[..|chunks| - 1]) + chunks[|chunks| - 1]
  }

  /** The flat list has the ranges of all chunks and no others. */
  lemma {:induction false} FlatMembers(chunks: seq<Chunk>, r: Range)
    ensures r in Flat(chunks) <==> exists c :: 0 <= c < |chunks| && r in chunks[c]
  {
    if chunks != [] {
      var init := chunks[..|chunks| - 1];
      FlatMembers(init, r);
      if c :| 0 <= c < |chunks| && r in chunks[c] {
        assert c < |init| ==> init[c] == chunks[c];
      }
    }
  }

  /** Sorted, disjoint ranges, none of them empty. */
  predicate Ascending(ranges: seq<Range>) {
    && (forall i :: 0 <= i < |ranges| ==> ranges[i].first < ranges[i].second)
    && (forall i, j :: 0 <= i < j < |ranges| ==> ranges[i].second <= ranges[j].first)
  }

  // ------------------------------------------------------------------ positions

  /** The m_outer and m_inner of an iterator; a null m_inner is None. */
  datatype Place = Place(outer: nat, inner: Option<nat>)

  predicate ValidPlace(chunks: seq<Chunk>, p: Place) {
    if p.outer < |chunks| then p.inner.Some? && p.inner.value < |chunks[p.outer]|
    else p.outer == |chunks| && p.inner.None?
  }

  /** How many ranges come before a place. */
  function Position(chunks: seq<Chunk>, p: Place): nat
    requires p.outer <= |chunks|
  {
    |Flat(chunks[..p.outer])| + (if p.inner.Some? then p.inner.value else 0)
  }

  lemma {:induction false} FlatPrefix(chunks: seq<Chunk>, c: nat)
    requires c < |chunks|
    ensures Flat(chunks[..c + 1]) == Flat(chunks[..c]) + chunks[c]
    ensures |Flat(chunks[..c + 1])| <= |Flat(chunks)|
    ensures Flat(chunks)[..|Flat(chunks[..c + 1])|] == Flat(chunks[..c + 1])
    decreases |chunks|
  {
    assert chunks[..c + 1][..c] == chunks[..c];
    if c + 1 == |chunks| {
      assert chunks[..c + 1] == chunks;
    } else {
      var init := chunks[..|chunks| - 1];
      FlatPrefix(init, c);
      assert init[..c + 1] == chunks[..c + 1] && init[..c] == chunks[..c];
    }
  }

  /** The range at a place is the one at its position in the flat list. */
  lemma {:induction false} RangeAt(chunks: seq<Chunk>, p: Place)
    requires ValidPlace(chunks, p) && p.outer < |chunks|
    ensures Position(chunks, p) < |Flat(chunks)|
    ensures Flat(chunks)[Position(chunks, p)] == chunks[p.outer][p.inner.value]
  {
    FlatPrefix(chunks, p.outer);
    var n := |Flat(chunks[..p.outer + 1])|;
    assert Flat(chunks)[Position(chunks, p)] == Flat(chunks)[..n][Position(chunks, p)];
  }

  lemma {:induction false} EndPosition(chunks: seq<Chunk>, p: Place)
    requires ValidPlace(chunks, p)
    ensures p.outer == |chunks| <==> Position(chunks, p) == |Flat(chunks)|
    ensures Position(chunks, p) <= |Flat(chunks)|
  {
    if p.outer == |chunks| {
      assert chunks[..p.outer] == chunks;
    } else {
      RangeAt(chunks, p);
    }
  }

  lemma {:induction false} FlatMono(chunks: seq<Chunk>, c: nat, e: nat)
    requires c <= e <= |chunks|
    ensures |Flat(chunks[..c])| <= |Flat(chunks[..e])|
    decreases e
  {
    if c < e {
      FlatPrefix(chunks, e - 1);
      FlatMono(chunks, c, e - 1);
    }
  }

  /** Iterators at the same position are equal: the two fields are determined by it. */
  lemma {:induction false} PositionUnique(chunks: seq<Chunk>, p: Place, q: Place)
    requires ValidPlace(chunks, p) && ValidPlace(chunks, q)
    ensures p == q <==> Position(chunks, p) == Position(chunks, q)
  {
    if p.outer < q.outer {
      FlatPrefix(chunks, p.outer);
      FlatMono(chunks, p.outer + 1, q.outer);
    } else if q.outer < p.outer {
      FlatPrefix(chunks, q.outer);
      FlatMono(chunks, q.outer + 1, p.outer);
    }
  }

  // -------------------------------------------------------------- range iterator

  /** ChunkedRangeVectorIterator. */
  class RangeIterator {
    const chunks: seq<Chunk>
    var outer: nat
    var inner: Option<nat>

    ghost function Here(): Place
      reads this
    {
      Place(outer, inner)
    }

    ghost predicate Valid()
      reads this
    {
      NonEmptyChunks(chunks) && ValidPlace(chunks, Here())
    }

    /** How many ranges are behind the range. */
    ghost function Index(): nat
      requires Valid()
      reads this
    {
      Position(chunks, Here())
    }

    /** ChunkedRangeVector::begin. */
    constructor Begin(data: seq<Chunk>)
      requires NonEmptyChunks(data)
      ensures Valid() && chunks == data && Index() == 0
    {
      chunks := data;
      outer := 0;
      inner := if data == [] then None else Some(0);
    }

    /** ChunkedRangeVector::end. */
    constructor End(data: seq<Chunk>)
      requires NonEmptyChunks(data)
      ensures Valid() && chunks == data && Index() == |Flat(data)|
    {
      chunks := data;
      outer := |data|;
      inner := None;
      new;
      EndPosition(chunks, Here());
    }

    /** operator* and operator->. */
    method Deref() returns (r: Range)
      requires Valid() && Index() < |Flat(chunks)|
      ensures r == Flat(chunks)[Index()]
    {
      EndPosition(chunks, Here());
      RangeAt(chunks, Here());
      r := chunks[outer][inner.value];
    }

    /** operator==. */
    method Equals(it: RangeIterator) returns (equal: bool)
      requires Valid() && it.Valid() && it.chunks == chunks
      ensures equal <==> Index() == it.Index()
    {
      PositionUnique(chunks, Here(), it.Here());
      equal := outer == it.outer && inner == it.inner;
    }

    /** operator++. */
    method Increment()
      requires Valid() && Index() < |Flat(chunks)|
      modifies this
      ensures Valid() && Index() == old(Index()) + 1
    {
      EndPosition(chunks, Here());
      FlatPrefix(chunks, outer);
      inner := Some(inner.value + 1);
      if inner.value == |chunks[outer]| {
        NextChunk();
      }
    }

    /** next_chunk: from anywhere in a chunk, even behind its last range, to the start of the next one. */
    method NextChunk()
      requires NonEmptyChunks(chunks) && outer < |chunks|
      modifies this
      ensures Valid() && Index() == |Flat(chunks[..old(outer) + 1])|
      ensures outer == old(outer) + 1
    {
      outer := outer + 1;
      inner := if outer != |chunks| then Some(0) else None;
    }

    /** operator--. */
    method Decrement()
      requires Valid() && Index() > 0
      modifies this
      ensures Valid() && Index() == old(Index()) - 1
    {
      if inner.None? || inner.value == 0 {
        assert chunks[..0] == [];
        FlatPrefix(chunks, outer - 1);
        outer := outer - 1;
        inner := Some(|chunks[outer]| - 1);
      } else {
        inner := Some(inner.value - 1);
      }
    }
  }

  /** ++ and then -- restores an iterator that is not at the end, field by field. */
  method ForthAndBack(it: RangeIterator)
    requires it.Valid() && it.Index() < |Flat(it.chunks)|
    modifies it
    ensures it.Valid() && it.Here() == old(it.Here())
  {
    ghost var here := it.Here();
    it.Increment();
    it.Decrement();
    PositionUnique(it.chunks, it.Here(), here);
  }

  /** -- and then ++ restores an iterator that is not at the beginning. */
  method BackAndForth(it: RangeIterator)
    requires it.Valid() && it.Index() > 0
    modifies it
    ensures it.Valid() && it.Here() == old(it.Here())
  {
    ghost var here := it.Here();
    EndPosition(it.chunks, here);
    it.Decrement();
    it.Increment();
    PositionUnique(it.chunks, it.Here(), here);
  }

  // -------------------------------------------------------------- index iterator

  /** The indices of one range. */
  function Span(first: nat, second: nat): (s: seq<nat>)
    ensures first <= second ==> |s| == second - first
    ensures forall k :: 0 <= k < |s| ==> s[k] == first + k
  {
    if first < second then seq(second - first, k requires 0 <= k => first + k) else []
  }

  /** The indices of the first n ranges, in order. */
  function IndicesOf(ranges: seq<Range>, n: nat): seq<nat>
    requires n <= |ranges|
  {
    if n == 0 then [] else IndicesOf(ranges, n - 1) + Span(ranges[n - 1].first, ranges[n - 1].second)
  }

  /** The indices of the set. */
  function Indices(chunks: seq<Chunk>): seq<nat> {
    IndicesOf(Flat(chunks), |Flat(chunks)|)
  }

  lemma {:induction false} IndicesPrefix(ranges: seq<Range>, m: nat, n: nat)
    requires m <= n <= |ranges|
    ensures |IndicesOf(ranges, m)| <= |IndicesOf(ranges, n)|
    ensures IndicesOf(ranges, n)[..|IndicesOf(ranges, m)|] == IndicesOf(ranges, m)
    decreases n
  {
    if m < n {
      IndicesPrefix(ranges, m, n - 1);
    }
  }

  /** The index at an offset into a range is found behind those of the ranges before it. */
  lemma {:induction false} IndexAt(ranges: seq<Range>, n: nat, offset: nat)
    requires Ascending(ranges) && n < |ranges| && offset < ranges[n].second - ranges[n].first
    ensures var k := |IndicesOf(ranges, n)| + offset;
            && k < |IndicesOf(ranges, |ranges|)|
            && IndicesOf(ranges, |ranges|)[k] == ranges[n].first + offset
  {
    IndicesPrefix(ranges, n + 1, |ranges|);
    var next := IndicesOf(ranges, n + 1);
    assert next == IndicesOf(ranges, n) + Span(ranges[n].first, ranges[n].second);
    assert IndicesOf(ranges, |ranges|)[..|next|][|IndicesOf(ranges, n)| + offset] == ranges[n].first + offset;
  }

  /** An index is yielded exactly when some range contains it. */
  lemma {:induction false} IndicesMembers(ranges: seq<Range>, n: nat, x: nat)
    requires n <= |ranges|
    ensures x in IndicesOf(ranges, n) <==> exists i :: 0 <= i < n && ranges[i].first <= x < ranges[i].second
    decreases n
  {
    if n > 0 {
      IndicesMembers(ranges, n - 1, x);
      var r := ranges[n - 1];
      var span := Span(r.first, r.second);
      if r.first <= x < r.second {
        assert span[x - r.first] == x;
      }
    }
  }

  ghost predicate StrictlyAscending(s: seq<nat>) {
    forall i, j :: 0 <= i < j < |s| ==> s[i] < s[j]
  }

  lemma {:induction false} AscendingAppend(a: seq<nat>, first: nat, second: nat)
    requires StrictlyAscending(a) && forall i :: 0 <= i < |a| ==> a[i] < first
    ensures StrictlyAscending(a + Span(first, second))
  {
  }

  /** The indices are strictly ascending, so that each is yielded once. */
  lemma {:induction false} IndicesAscending(ranges: seq<Range>, n: nat)
    requires Ascending(ranges) && n <= |ranges|
    ensures StrictlyAscending(IndicesOf(ranges, n))
    decreases n
  {
    if n > 0 {
      IndicesAscending(ranges, n - 1);
      var a, r := IndicesOf(ranges, n - 1), ranges[n - 1];
      forall i | 0 <= i < |a|
        ensures a[i] < r.first
      {
        IndicesMembers(ranges, n - 1, a[i]);
        var k :| 0 <= k < n - 1 && ranges[k].first <= a[i] < ranges[k].second;
        assert ranges[k].second <= r.first;
      }
      hide StrictlyAscending, Span;
      AscendingAppend(a, r.first, r.second);
    }
  }

  /** IndexSet::IndexIterator. */
  class IndexIterator {
    const range: RangeIterator
    var offset: nat

    ghost predicate Valid()
      reads this, range
    {
      && range.Valid() && Ascending(Flat(range.chunks))
      && var n := range.Index();
         if n < |Flat(range.chunks)| then offset < Flat(range.chunks)[n].second - Flat(range.chunks)[n].first
         else n == |Flat(range.chunks)| && offset == 0
    }

    /** How many indices are behind the range. */
    ghost function Count(): nat
      requires Valid()
      reads this, range
    {
      |IndicesOf(Flat(range.chunks), range.Index())| + offset
    }

    constructor (it: RangeIterator)
      requires it.Valid() && Ascending(Flat(it.chunks))
      ensures Valid() && range == it && offset == 0
      ensures it.Index() == 0 ==> Count() == 0
      ensures it.Index() == |Flat(it.chunks)| ==> Count() == |Indices(it.chunks)|
    {
      range := it;
      offset := 0;
      new;
      EndPosition(it.chunks, it.Here());
    }

    /** operator*. */
    method Deref() returns (x: nat)
      requires Valid() && Count() < |Indices(range.chunks)|
      ensures x == Indices(range.chunks)[Count()]
    {
      AtEnd();
      OffsetIndex();
      hide *;
      var r := range.Deref();
      x := r.first + offset;
    }

    /**
     * operator==, which compares the ranges the iterators are in and not their offsets: it tells
     * whether a traversal has come to the end, and not whether two iterators are at the same index.
     */
    method Equals(it: IndexIterator) returns (equal: bool)
      requires Valid() && it.Valid() && it.range.chunks == range.chunks
      ensures equal <==> range.Index() == it.range.Index()
      ensures it.Count() == |Indices(range.chunks)| ==> (equal <==> Count() == it.Count())
    {
      AtEnd();
      it.AtEnd();
      equal := range.Equals(it.range);
    }

    lemma AtEnd()
      requires Valid()
      ensures Count() <= |Indices(range.chunks)|
      ensures Count() == |Indices(range.chunks)| <==> range.Index() == |Flat(range.chunks)|
    {
      EndPosition(range.chunks, range.Here());
      if range.Index() < |Flat(range.chunks)| {
        IndexAt(Flat(range.chunks), range.Index(), offset);
      }
    }

    lemma OffsetIndex()
      requires Valid() && range.Index() < |Flat(range.chunks)|
      ensures Count() < |Indices(range.chunks)|
      ensures Indices(range.chunks)[Count()] == Flat(range.chunks)[range.Index()].first + offset
    {
      IndexAt(Flat(range.chunks), range.Index(), offset);
    }

    /** operator++. */
    method Increment()
      requires Valid() && Count() < |Indices(range.chunks)|
      modifies this, range
      ensures Valid() && Count() == old(Count()) + 1
    {
      hide Flat, IndicesOf, Span, Indices, RangeIterator.Valid, RangeIterator.Index, Ascending;
      AtEnd();
      IndicesNext(Flat(range.chunks), range.Index());
      NonEmptyRanges(Flat(range.chunks));
      var r := range.Deref();
      offset := offset + 1;
      if r.first + offset == r.second {
        range.Increment();
        offset := 0;
      }
    }
  }

  lemma {:induction false} NonEmptyRanges(ranges: seq<Range>)
    requires Ascending(ranges)
    ensures forall i :: 0 <= i < |ranges| ==> ranges[i].first < ranges[i].second
  {
  }

  lemma {:induction false} IndicesNext(ranges: seq<Range>, n: nat)
    requires Ascending(ranges) && n < |ranges|
    ensures |IndicesOf(ranges, n + 1)| == |IndicesOf(ranges, n)| + (ranges[n].second - ranges[n].first)
  {
  }

  /** The index is in one of the ranges. */
  predicate InSet(chunks: seq<Chunk>, x: nat) {
    exists c, k :: 0 <= c < |chunks| && 0 <= k < |chunks[c]| && chunks[c][k].first <= x < chunks[c][k].second
  }

  lemma {:induction false} InFlat(chunks: seq<Chunk>, x: nat)
    ensures InSet(chunks, x) <==>
            exists i :: 0 <= i < |Flat(chunks)| && Flat(chunks)[i].first <= x < Flat(chunks)[i].second
  {
    hide Flat;
    if c, k :| 0 <= c < |chunks| && 0 <= k < |chunks[c]| && chunks[c][k].first <= x < chunks[c][k].second {
      FlatMembers(chunks, chunks[c][k]);
      assert chunks[c][k] in Flat(chunks);
    }
    if i :| 0 <= i < |Flat(chunks)| && Flat(chunks)[i].first <= x < Flat(chunks)[i].second {
      FlatMembers(chunks, Flat(chunks)[i]);
      var c :| 0 <= c < |chunks| && Flat(chunks)[i] in chunks[c];
      var k :| 0 <= k < |chunks[c]| && chunks[c][k] == Flat(chunks)[i];
    }
  }

  /** A traversal of as_indexes() from begin to end: every index of the set once, in ascending order. */
  method AllIndexes(chunks: seq<Chunk>) returns (s: seq<nat>)
    requires NonEmptyChunks(chunks) && Ascending(Flat(chunks))
    ensures forall x: nat :: x in s <==> InSet(chunks, x)
    ensures StrictlyAscending(s)
  {
    hide *;
    AllOnce(chunks);
    var first := new RangeIterator.Begin(chunks);
    var last := new RangeIterator.End(chunks);
    var it := new IndexIterator(first);
    var end := new IndexIterator(last);
    s := Traverse(it, end);
  }

  /** The loop of that traversal. */
  method Traverse(it: IndexIterator, end: IndexIterator) returns (s: seq<nat>)
    requires it.Valid() && end.Valid() && it != end && it.range != end.range && it.range.chunks == end.range.chunks
    requires it.Count() == 0 && end.Count() == |Indices(it.range.chunks)|
    modifies it, it.range
    ensures s == Indices(it.range.chunks)
  {
    hide *;
    ghost var all := Indices(it.range.chunks);
    s := [];
    it.AtEnd();
    NothingYielded(all);
    var done := it.Equals(end);
    while !done
      invariant it.Valid() && end.Valid() && end.Count() == |all|
      invariant it.Count() <= |all| && Yielded(all, it.Count(), s)
      invariant done <==> it.Count() == |all|
      decreases |all| - it.Count()
    {
      s := TakeNext(it, s);
      it.AtEnd();
      done := it.Equals(end);
    }
    AllYielded(all, s);
  }

  /** The traversal has yielded the first n indices. */
  ghost predicate Yielded(all: seq<nat>, n: nat, s: seq<nat>) {
    n <= |all| && s == all[..n]
  }

  lemma {:induction false} NothingYielded(all: seq<nat>)
    ensures Yielded(all, 0, [])
  {
  }

  lemma {:induction false} AllYielded(all: seq<nat>, s: seq<nat>)
    requires Yielded(all, |all|, s)
    ensures s == all
  {
  }

  /** One turn of the traversal. */
  method TakeNext(it: IndexIterator, s: seq<nat>) returns (s': seq<nat>)
    requires it.Valid() && it.Count() < |Indices(it.range.chunks)| && Yielded(Indices(it.range.chunks), it.Count(), s)
    modifies it, it.range
    ensures it.Valid() && it.Count() == old(it.Count()) + 1
    ensures Yielded(Indices(it.range.chunks), it.Count(), s')
  {
    hide Flat, Indices, Ascending, IndexIterator.Valid, RangeIterator.Valid, IndexIterator.Count;
    var x := it.Deref();
    s' := s + [x];
    it.Increment();
  }

  lemma {:induction false} AllOnce(chunks: seq<Chunk>)
    requires Ascending(Flat(chunks))
    ensures StrictlyAscending(Indices(chunks))
    ensures forall x: nat :: x in Indices(chunks) <==> InSet(chunks, x)
  {
    IndicesAscending(Flat(chunks), |Flat(chunks)|);
    assert Indices(chunks) == IndicesOf(Flat(chunks), |Flat(chunks)|);
    hide *;
    forall x: nat
      ensures x in Indices(chunks) <==> InSet(chunks, x)
    {
      IndicesMembers(Flat(chunks), |Flat(chunks)|, x);
      InFlat(chunks, x);
    }
  }
}
