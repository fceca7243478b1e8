/** Output streams (pb_encode.c): a memory buffer, or a stream that only counts. */
module OutputStream {
  import opened Basics

  /** The sequence s with b written over it from index at on. */
  function Splice(s: seq<Byte>, at: nat, b: seq<Byte>): (r: seq<Byte>)
    requires at + |b| <= |s|
    ensures |r| == |s|
  {
    s[..at] + b + s[at + |b|..]
  }

  lemma {:induction false} SpliceTwice(s: seq<Byte>, at: nat, a: seq<Byte>, b: seq<Byte>)
    requires at + |a| + |b| <= |s|
    ensures Splice(Splice(s, at, a), at + |a|, b) == Splice(s, at, a + b)
  {
    var t := Splice(s, at, a);
    assert t[..at + |a|] == s[..at] + a;
    assert t[at + |a| + |b|..] == s[at + |a| + |b|..];
    assert s[..at] + a + b == s[..at] + (a + b);
  }

  /** The buffer changes in the stretch from lo to hi and nowhere else. */
  ghost predicate SameOutside(s: seq<Byte>, t: seq<Byte>, lo: nat, hi: nat) {
    lo <= hi <= |s| && |t| == |s| && forall k :: 0 <= k < |s| && !(lo <= k < hi) ==> s[k] == t[k]
  }

  /** A stream at one moment: its limit (None when it only counts), buffer contents, cursor and count. */
  datatype Snap = Snap(limit: Option<nat>, contents: seq<Byte>, state: nat, written: nat) {
    predicate Sound() {
      limit.Some? ==> written <= limit.value && state + (limit.value - written) <= |contents|
    }

    /** Whether n more bytes fit. */
    predicate Fits(n: nat) {
      limit.Some? ==> written + n <= limit.value
    }
  }

  /** The stream has taken exactly b, and nothing else in the buffer has changed. */
  ghost predicate Emitted(s: Snap, t: Snap, b: seq<Byte>) {
    && t.written == s.written + |b|
    && (s.limit.Some? ==>
          && t.state == s.state + |b| <= |s.contents|
          && t.contents == Splice(s.contents, s.state, b))
  }

  /** No byte outside the stretch written so far has changed, whether or not the call succeeded. */
  ghost predicate Confined(s: Snap, t: Snap) {
    && t.limit == s.limit
    && s.written <= t.written
    && (s.limit.Some? ==>
          && t.state - s.state == t.written - s.written
          && SameOutside(s.contents, t.contents, s.state, t.state))
  }

  /**
   * What every encoder promises: it succeeds exactly when there is an encoding and it fits; it
   * then emits exactly those bytes, or counts them; and nothing outside the stretch it wrote
   * changes either way.
   */
  ghost predicate Encodes(s: Snap, t: Snap, enc: Option<seq<Byte>>, ok: bool) {
    && t.Sound()
    && Confined(s, t)
    && (ok <==> enc.Some? && s.Fits(|enc.value|))
    && (ok ==> Emitted(s, t, enc.value))
  }

  function Join(a: Option<seq<Byte>>, b: Option<seq<Byte>>): Option<seq<Byte>> {
    if a.Some? && b.Some? then Some(a.value + b.value) else None
  }

  lemma {:induction false} JoinAssoc(a: Option<seq<Byte>>, b: Option<seq<Byte>>, c: Option<seq<Byte>>)
    ensures Join(Join(a, b), c) == Join(a, Join(b, c))
    ensures Join(Some([]), a) == a
    ensures Join(a, Some([])) == a
  {
    if a.Some? {
      assert [] + a.value == a.value && a.value + [] == a.value;
      if b.Some? && c.Some? {
        assert a.value + b.value + c.value == a.value + (b.value + c.value);
      }
    }
  }

  /** One more piece of an encoding has been emitted. */
  lemma {:induction false} JoinStep(done: seq<Byte>, e: Option<seq<Byte>>, rest: Option<seq<Byte>>)
    ensures Join(Join(Some(done), e), rest) == Join(Some(done), Join(e, rest))
    ensures e.Some? ==> Join(Some(done), e) == Some(done + e.value)
    ensures Join(Some(done), Some([])) == Some(done)
    ensures Join(Some([]), rest) == rest
  {
    JoinAssoc(Some(done), e, rest);
    JoinAssoc(Some(done), None, None);
    JoinAssoc(rest, None, None);
  }

  lemma {:induction false} EncodesNothing(s: Snap)
    requires s.Sound()
    ensures Encodes(s, s, Some([]), true) && Encodes(s, s, None, false)
  {
  }

  lemma {:induction false} EncodesThen(s: Snap, t: Snap, u: Snap, a: Option<seq<Byte>>, b: Option<seq<Byte>>, ok: bool)
    requires Encodes(s, t, a, true) && Encodes(t, u, b, ok)
    ensures Encodes(s, u, Join(a, b), ok)
  {
    if ok && s.limit.Some? {
      SpliceTwice(s.contents, s.state, a.value, b.value);
    }
  }

  lemma {:induction false} EncodesFailed(s: Snap, t: Snap, a: Option<seq<Byte>>, b: Option<seq<Byte>>)
    requires Encodes(s, t, a, false)
    ensures Encodes(s, t, Join(a, b), false)
  {
  }

  class OStream {
    /** Null for a sizing stream, whose callback is NULL. */
    const buf: array?<Byte>
    const maxSize: nat
    /** The next index of buf to write. */
    var state: nat
    var bytesWritten: nat

    ghost function Now(): Snap
      reads this, buf
    {
      Snap(if buf == null then None else Some(maxSize), if buf == null then [] else buf[..], state, bytesWritten)
    }

    ghost function Frame(): (frame: set<object>)
      ensures forall o :: o in frame ==> o == this || o == buf
    {
      if buf == null then {this} else {this, buf}
    }

    /** PB_OSTREAM_SIZING. */
    constructor Sizing()
      ensures Now() == Snap(None, [], 0, 0) && Frame() == {this}
    {
      buf := null;
      maxSize := 0;
      state := 0;
      bytesWritten := 0;
    }

    /** A stream over a stretch of a buffer: pb_ostream_from_buffer, or the substream of a submessage. */
    constructor OnBuffer(target: array<Byte>, from: nat, size: nat)
      requires from + size <= target.Length
      ensures Now() == Snap(Some(size), target[..], from, 0) && Now().Sound() && Frame() == {this, target} &&
              buf == target
    {
      buf := target;
      maxSize := size;
      state := from;
      bytesWritten := 0;
    }

    /** pb_write. A sizing stream is passed no data. */
    method Write(src: seq<Byte>, count: nat, ghost b: seq<Byte>) returns (ok: bool)
      requires Now().Sound() && |b| == count && (buf != null ==> src == b)
      modifies Frame()
      ensures Encodes(old(Now()), Now(), Some(b), ok)
    {
      if count > 0 && buf != null {
        if bytesWritten + count > maxSize {
          return false;
        }
        BufWrite(src);
      }
      bytesWritten := bytesWritten + count;
      return true;
    }

    /** buf_write. */
    method BufWrite(src: seq<Byte>)
      requires buf != null && state + |src| <= buf.Length
      modifies this`state, buf
      ensures state == old(state) + |src|
      ensures buf[..] == Splice(old(buf[..]), old(state), src)
    {
      var dest := state;
      state := dest + |src|;
      for i := 0 to |src|
        invariant state == dest + |src|
        invariant forall k :: 0 <= k < buf.Length ==>
                  buf[k] == if dest <= k < dest + i then src[k - dest] else old(buf[..])[k]
      {
        buf[dest + i] := src[i];
      }
      ghost var spliced := Splice(old(buf[..]), dest, src);
      assert forall k :: 0 <= k < |spliced| ==>
          spliced[k] == if dest <= k < dest + |src| then src[k - dest] else old(buf[..])[k];
      assert buf[..] == spliced;
    }
  }
}
