/** Input streams over a memory buffer, and what they read without a descriptor (pb_decode.c). */
module InputStream {
  import opened Basics
  import opened Varint
  import opened Descriptors
  import opened Scalars
  import opened Decoding

  class IStream {
    const buf: array<Byte>
    /** The next index of buf to read. */
    var state: nat
    var bytesLeft: nat

    ghost predicate Valid()
      reads this
    {
      state + bytesLeft <= buf.Length
    }

    /** The bytes this stream may still read. */
    ghost function Rest(): seq<Byte>
      requires Valid()
      reads this, buf
    {
      buf[state..state + bytesLeft]
    }

    /** pb_istream_from_buffer, on a stretch of a buffer. */
    constructor (source: array<Byte>, from: nat, size: nat)
      requires from + size <= source.Length
      ensures Valid() && buf == source && state == from && bytesLeft == size
    {
      buf := source;
      state := from;
      bytesLeft := size;
    }

    /** Exactly n bytes have been consumed. */
    twostate predicate Took(n: nat)
      reads this
    {
      state == old(state) + n && bytesLeft + n == old(bytesLeft)
    }

    /** Consuming n bytes leaves the rest. */
    twostate lemma RestAfter(n: nat)
      requires old(Valid()) && Valid() && Took(n) && old(buf[..]) == buf[..]
      ensures n <= |old(Rest())| && Rest() == old(Rest())[n..]
    {
      assert forall k :: 0 <= k < buf.Length ==> buf[k] == old(buf[..])[k];
    }

    /** Whatever happened, no byte outside the old window can be read. */
    twostate predicate Within()
      reads this
    {
      old(state) <= state && state + bytesLeft <= old(state) + old(bytesLeft)
    }

    /** pb_read into a buffer. */
    method Read(count: nat) returns (ok: bool, data: seq<Byte>)
      requires Valid()
      modifies this
      ensures Valid() && Within()
      ensures ok <==> count <= old(bytesLeft)
      ensures ok ==> Took(count) && data == old(Rest())[..count]
      ensures !ok ==> Took(0)
    {
      data := [];
      if count == 0 {
        return true, data;
      }
      if bytesLeft < count {
        return false, data;
      }
      // buf_read
      var source := state;
      state := state + count;
      for i := 0 to count
        invariant |data| == i && data == buf[source..source + i]
        invariant state == source + count && bytesLeft == old(bytesLeft)
      {
        data := data + [buf[source + i]];
      }
      bytesLeft := bytesLeft - count;
      return true, data;
    }

    /** pb_read with a NULL buffer: skip. */
    method Discard(count: nat) returns (ok: bool)
      requires Valid()
      modifies this
      ensures Valid() && Within()
      ensures ok <==> count <= old(bytesLeft)
      ensures if ok then Took(count) else Took(0)
    {
      if count == 0 {
        return true;
      }
      if bytesLeft < count {
        return false;
      }
      state := state + count;
      bytesLeft := bytesLeft - count;
      return true;
    }

    /** pb_readbyte. */
    method ReadByte() returns (ok: bool, b: Byte)
      requires Valid()
      modifies this
      ensures Valid() && Within()
      ensures ok <==> old(Rest()) != []
      ensures ok ==> Took(1) && b == old(Rest())[0] && Rest() == old(Rest())[1..]
      ensures !ok ==> Took(0) && bytesLeft == 0
    {
      if bytesLeft == 0 {
        return false, 0;
      }
      b := buf[state];
      state := state + 1;
      bytesLeft := bytesLeft - 1;
      return true, b;
    }

    /**
     * pb_make_string_substream: a window on the next length-prefixed payload. The parent gives the
     * payload away but does not move past it until the substream is closed.
     */
    method MakeSubstream() returns (ok: bool, substream: IStream)
      requires Valid()
      modifies this
      ensures Valid() && Within()
      ensures ok <==> Delimited(old(Rest())).Read?
      ensures ok ==> fresh(substream) && substream.buf == buf && substream.Valid()
      ensures ok ==> substream.Rest() == Delimited(old(Rest())).val
      ensures ok ==> state == substream.state && state + substream.bytesLeft == old(state) + Delimited(old(Rest())).used
      ensures ok ==> bytesLeft + Delimited(old(Rest())).used == old(bytesLeft)
    {
      hide DecVarint32;
      ghost var s := Rest();
      substream := this;
      var size, eof;
      ok, size, eof := DecodeVarint32Eof();
      if !ok {
        return;
      }
      if bytesLeft < size {
        return false, substream;
      }
      substream := new IStream(buf, state, size);
      bytesLeft := bytesLeft - size;
    }

    /** pb_close_string_substream: skip what the reader left over and move the parent past the payload. */
    method CloseSubstream(substream: IStream) returns (ok: bool)
      requires substream != this && substream.Valid() && substream.buf == buf
      requires substream.state + substream.bytesLeft + bytesLeft <= buf.Length
      modifies this, substream
      ensures ok && Valid()
      ensures state == old(substream.state + substream.bytesLeft) && bytesLeft == old(bytesLeft)
    {
      if substream.bytesLeft > 0 {
        ok := substream.Discard(substream.bytesLeft);
        if !ok {
          return false;
        }
      }
      state := substream.state;
      return true;
    }

    // ----------------------------------------------------------------- varints

    /** pb_decode_varint32_eof. The shift count is a uint_fast8_t and wraps. */
    method DecodeVarint32Eof() returns (ok: bool, dest: nat, eof: bool)
      requires Valid()
      modifies this
      ensures Valid() && Within()
      ensures ok <==> DecVarint32(old(Rest())).Read?
      ensures ok ==> dest == DecVarint32(old(Rest())).val && Took(DecVarint32(old(Rest())).used)
      ensures eof <==> old(Rest()) == []
    {
      hide DecVarint32Rest;
      eof := false;
      dest := 0;
      var b: Byte;
      ok, b := ReadByte();
      if !ok {
        if bytesLeft == 0 {
          eof := true;
        }
        return;
      }
      if b < 0x80 {
        // A single group.
        dest := b;
        return;
      }
      ok, dest := DecodeVarint32Rest(b % 128);
    }

    /** The multi-byte case of pb_decode_varint32_eof. */
    method DecodeVarint32Rest(first: nat) returns (ok: bool, result: nat)
      requires Valid()
      modifies this
      ensures Valid() && Within()
      ensures ok <==> DecVarint32Rest(old(Rest()), 7, first).Read?
      ensures ok ==> result == DecVarint32Rest(old(Rest()), 7, first).val
      ensures ok ==> Took(DecVarint32Rest(old(Rest()), 7, first).used)
    {
      hide BitOr, DecVarint32Rest;
      ghost var s := Rest();
      var bitpos: nat := 7;
      result := first;
      var b: Byte := 0x80;
      ghost var i: nat := 0;
      while b >= 0x80
        invariant Valid() && i <= |s| && Rest() == s[i..] && Took(i)
        invariant b >= 0x80 ==> DecVarint32Rest(s, 7, first) == Later(DecVarint32Rest(s[i..], bitpos, result), i)
        invariant b < 0x80 ==> i > 0
        invariant b < 0x80 ==>
                    DecVarint32Rest(s, 7, first) ==
                    if bitpos == 35 && b / 16 % 8 != 0 then Parse.Fail else Parse.Read(result, i)
        decreases b >= 0x80, bytesLeft
      {
        ghost var rest := s[i..];
        RestUnfold(rest, bitpos, result);
        ok, b := ReadByte();
        if !ok {
          return;
        }
        if bitpos >= 32 {
          // Only empty groups, or the sign extension of a negative number.
          var signExtension: Byte := if bitpos < 63 then 0xFF else 0x01;
          if b % 128 != 0 && (result / TWO_31 == 0 || b != signExtension) {
            return false, result;
          }
        } else {
          result := BitOr(result, b % 128 * Pow2(bitpos) % TWO_32);
        }
        bitpos := (bitpos + 7) % 256;
        assert rest[1..] == s[i + 1..];
        i := i + 1;
      }
      if bitpos == 35 && b / 16 % 8 != 0 {
        // Of the fifth group, four bits are below bit 32.
        return false, result;
      }
      return true, result;
    }

    /** pb_decode_varint. */
    method DecodeVarint() returns (ok: bool, result: nat)
      requires Valid()
      modifies this
      ensures Valid() && Within()
      ensures ok <==> DecVarint(old(Rest())).Read?
      ensures ok ==> result == DecVarint(old(Rest())).val && Took(DecVarint(old(Rest())).used)
    {
      hide BitOr, Pow2, Groups, DecVarint;
      ghost var s := Rest();
      var bitpos: nat := 0;
      result := 0;
      var b: Byte := 0x80;
      ghost var i: nat := 0;
      NoGroups(s);
      while b >= 0x80
        invariant Valid() && i <= |s| && i <= 10 && Rest() == s[i..] && Took(i)
        invariant bitpos == 7 * i && Groups(s, i, result, b)
        decreases b >= 0x80, bytesLeft
      {
        if bitpos >= 64 {
          NoEnd(s, i, result, b);
          return false, result;
        }
        if i == |s| {
          NoEnd(s, i, result, b);
        }
        ghost var last := b;
        ok, b := ReadByte();
        if !ok {
          return;
        }
        NextGroup(s, i, result, last);
        assert s[i..][1..] == s[i + 1..];
        result := BitOr(result, b % 128 * Pow2(bitpos) % TWO_64);
        bitpos := (bitpos + 7) % 256;
        i := i + 1;
      }
      AllGroups(s, i, result, b);
      return true, result;
    }

    /** pb_decode_svarint. */
    method DecodeSvarint() returns (ok: bool, dest: int)
      requires Valid()
      modifies this
      ensures Valid() && Within()
      ensures ok <==> DecVarint(old(Rest())).Read?
      ensures ok ==> dest == UnZigZag(DecVarint(old(Rest())).val) && Took(DecVarint(old(Rest())).used)
    {
      var value;
      ok, value := DecodeVarint();
      if !ok {
        return false, 0;
      }
      if value % 2 == 1 {
        dest := ToSigned(TWO_64 - 1 - value / 2, 8);
      } else {
        dest := ToSigned(value / 2, 8);
      }
    }

    // ---------------------------------------------------------- keys, skipping

    /** pb_decode_tag. A zero key reads as the end of the message. */
    method DecodeTag() returns (ok: bool, wt: nat, tag: nat, eof: bool)
      requires Valid()
      modifies this
      ensures Valid() && Within()
      ensures var r := DecVarint32(old(Rest()));
              && (ok <==> r.Read? && r.val != 0)
              && (ok ==> tag * 8 + wt == r.val && wt < 8 && !eof)
              && (r.Read? ==> Took(r.used))
              && (r.Read? && r.val == 0 ==> eof)
              && (r.Fail? && old(Rest()) != [] ==> !eof)
    {
      hide DecVarint32;
      tag, wt := 0, 0;
      var temp;
      ok, temp, eof := DecodeVarint32Eof();
      if !ok {
        return;
      }
      if temp == 0 {
        return false, wt, tag, true; // a zero byte ends a message
      }
      tag := temp / 8;
      wt := temp % 8;
    }

    /** pb_skip_varint. */
    method SkipVarint() returns (ok: bool)
      requires Valid()
      modifies this
      ensures Valid() && Within()
      ensures ok <==> VarintLen(old(Rest())) > 0
      ensures ok ==> Took(VarintLen(old(Rest())))
    {
      hide VarintLen;
      ghost var s := Rest();
      var b: Byte := 0x80;
      ghost var i: nat := 0;
      while b >= 0x80
        invariant Valid() && i <= |s| && Rest() == s[i..] && Took(i)
        invariant b >= 0x80 ==> AllContinue(s[..i])
        invariant b < 0x80 ==> VarintLen(s) == i && i > 0
        decreases b >= 0x80, bytesLeft
      {
        if i == |s| {
          VarintLenNot(s, i);
        }
        ok, b := ReadByte();
        if !ok {
          return;
        }
        assert s[..i + 1] == s[..i] + [b];
        VarintLenAt(s, i);
        i := i + 1;
      }
      return true;
    }

    /** pb_skip_string. */
    method SkipString() returns (ok: bool)
      requires Valid()
      modifies this
      ensures Valid() && Within()
      ensures ok <==> Delimited(old(Rest())).Read?
      ensures ok ==> Took(Delimited(old(Rest())).used)
    {
      hide DecVarint32;
      var length, eof;
      ok, length, eof := DecodeVarint32Eof();
      if !ok {
        return;
      }
      ok := Discard(length);
    }

    /** pb_skip_field. */
    method SkipField(wt: nat) returns (ok: bool)
      requires Valid()
      modifies this
      ensures Valid() && Within()
      ensures ok <==> Skip(wt, old(Rest())).Some?
      ensures ok ==> Took(Skip(wt, old(Rest())).value)
    {
      hide VarintLen, Delimited;
      if wt == WT_VARINT {
        ok := SkipVarint();
      } else if wt == WT_64BIT {
        ok := Discard(8);
      } else if wt == WT_STRING {
        ok := SkipString();
      } else if wt == WT_32BIT {
        ok := Discard(4);
      } else {
        ok := false; // invalid wire_type
      }
    }

    // ------------------------------------------------------------ single values

    /** pb_decode_fixed32 (k = 4) and pb_decode_fixed64 (k = 8). */
    method DecodeFixed(k: nat) returns (ok: bool, dest: nat)
      requires Valid() && (k == 4 || k == 8)
      modifies this
      ensures Valid() && Within()
      ensures ok <==> |old(Rest())| >= k
      ensures ok ==> Took(k) && dest == FromLittleEndian(old(Rest())[..k])
    {
      var bytes;
      ok, bytes := Read(k);
      if !ok {
        return false, 0;
      }
      dest := FromLittleEndian(bytes);
    }

    /** pb_dec_varint, pb_dec_uvarint and pb_dec_svarint: narrow to the field's width, refusing what does not fit. */
    method DecodeInteger(f: Field) returns (ok: bool, v: int)
      requires Valid() && (f.ltype.LVarint? || f.ltype.LUvarint? || f.ltype.LSvarint?)
      modifies this
      ensures Valid() && Within()
      ensures ok <==> DecScalar(f, old(Rest())).Read?
      ensures ok ==> DecScalar(f, old(Rest())).val == VInt(v) && Took(DecScalar(f, old(Rest())).used)
    {
      hide DecVarint, ToSigned, UnZigZag;
      v := 0;
      if f.ltype.LSvarint? {
        var value;
        ok, value := DecodeSvarint();
        if !ok || !IntegerSize(f.dataSize) {
          return false, v;
        }
        var clamped := ToSigned(value, f.dataSize);
        return clamped == value, clamped;
      }
      var value;
      ok, value := DecodeVarint();
      if !ok || !IntegerSize(f.dataSize) {
        return false, v;
      }
      if f.ltype.LVarint? {
        // Negative int32 values may have been sent as 32-bit numbers, so narrow fields go through int32 first.
        var svalue := if f.dataSize == 8 then ToSigned(value, 8) else ToSigned(value, 4);
        var clamped := ToSigned(svalue, f.dataSize);
        return clamped == svalue, clamped;
      } else {
        var clamped := value % Modulus(f.dataSize);
        return clamped == value, clamped;
      }
    }

    /** pb_dec_bytes, pb_dec_string and pb_dec_fixed_length_bytes. */
    method DecodeRun(f: Field) returns (ok: bool, b: seq<Byte>)
      requires Valid() && (f.ltype.LBytes? || f.ltype.LString? || f.ltype.LFixedLengthBytes?)
      modifies this
      ensures Valid() && Within()
      ensures ok <==> DecRun(f, old(Rest())).Read?
      ensures ok ==> DecRun(f, old(Rest())).val == VBytes(b) && Took(DecRun(f, old(Rest())).used)
    {
      hide DecVarint32;
      ghost var s := Rest();
      b := [];
      var size, eof;
      ok, size, eof := DecodeVarint32Eof();
      if !ok {
        return;
      }
      ghost var k := DecVarint32(s).used;
      assert Rest() == s[k..];
      match f.ltype
      case LBytes =>
        if size > PB_SIZE_MAX || size + BYTES_HEADER > f.dataSize {
          return false, b; // bytes overflow
        }
        ok, b := Read(size);
      case LString =>
        // Space for the null terminator; the sum is a uint32_t.
        var allocSize := (size + 1) % TWO_32;
        if allocSize < size || allocSize > f.dataSize {
          return false, b;
        }
        ok, b := Read(size);
      case LFixedLengthBytes =>
        if size > PB_SIZE_MAX {
          return false, b; // bytes overflow
        }
        if size == 0 {
          // Nothing sent stands for zeros.
          return true, Zeros(f.dataSize);
        }
        if size != f.dataSize {
          return false, b; // neither empty nor of the field's size
        }
        ok, b := Read(size);
    }

    /** PB_DECODERS, except for submessages. */
    method DecodeScalar(f: Field) returns (ok: bool, v: Value)
      requires Valid() && !f.ltype.LSubmessage?
      modifies this
      ensures Valid() && Within()
      ensures ok <==> DecScalar(f, old(Rest())).Read?
      ensures ok ==> v == DecScalar(f, old(Rest())).val && Took(DecScalar(f, old(Rest())).used)
    {
      hide DecVarint32, DecVarint, DecRun;
      match f.ltype
      case LBool =>
        var value, eof;
        ok, value, eof := DecodeVarint32Eof();
        v := VInt(if value != 0 then 1 else 0);
      case LVarint | LUvarint | LSvarint =>
        var n;
        ok, n := DecodeInteger(f);
        v := VInt(n);
      case LFixed32 =>
        var n;
        ok, n := DecodeFixed(4);
        v := VInt(n);
      case LFixed64 =>
        var n;
        ok, n := DecodeFixed(8);
        v := VInt(n);
      case LBytes | LString | LFixedLengthBytes =>
        var b;
        ok, b := DecodeRun(f);
        v := VBytes(b);
    }
  }

  /** The loop of pb_decode_varint has taken i groups, the last one in byte b (0x80 before the first). */
  ghost predicate Groups(s: seq<Byte>, i: nat, result: nat, b: Byte) {
    && i <= |s|
    && result == VarintVal(s[..i]) % TWO_64
    && if b >= 0x80 then AllContinue(s[..i]) else i > 0 && VarintLen(s) == i
  }

  lemma {:induction false} NoGroups(s: seq<Byte>)
    ensures Groups(s, 0, 0, 0x80)
  {
    assert s[..0] == [];
  }

  /** Nothing ends the varint within i groups: there is none, or a longer one. */
  lemma {:induction false} NoEnd(s: seq<Byte>, i: nat, result: nat, b: Byte)
    requires Groups(s, i, result, b) && b >= 0x80 && (i == |s| || i >= 10)
    ensures DecVarint(s).Fail?
  {
    VarintLenNot(s, i);
    VarintLenFits(s);
  }

  lemma {:induction false} VarintLenFits(s: seq<Byte>)
    ensures VarintLen(s) <= |s|
  {
  }

  lemma {:induction false} NextGroup(s: seq<Byte>, i: nat, result: nat, b: Byte)
    requires Groups(s, i, result, b) && b >= 0x80 && i < |s| && i <= 9
    ensures Groups(s, i + 1, BitOr(result, s[i] % 128 * Pow2(7 * i) % TWO_64), s[i])
  {
    hide BitOr, Pow2, VarintVal, VarintLen;
    assert s[..i + 1] == s[..i] + [s[i]];
    VarintLenAt(s, i);
    Low64Step(s[..i], s[i]);
  }

  lemma {:induction false} AllGroups(s: seq<Byte>, i: nat, result: nat, b: Byte)
    requires Groups(s, i, result, b) && b < 0x80 && i <= 10
    ensures DecVarint(s) == Read(result, i)
  {
  }

  lemma {:induction false} RestUnfold(s: seq<Byte>, bitpos: nat, result: nat)
    ensures DecVarint32Rest(s, bitpos, result) ==
            if s == [] then Fail
            else if bitpos >= 32 && s[0] % 128 != 0 && (result / TWO_31 == 0 || s[0] != SignExtension(bitpos)) then Fail
            else if s[0] >= 128 then Later(DecVarint32Rest(s[1..], (bitpos + 7) % 256,
                Accumulate32(result, s[0], bitpos)), 1)
            else if (bitpos + 7) % 256 == 35 && s[0] / 16 % 8 != 0 then Fail
            else Read(Accumulate32(result, s[0], bitpos), 1)
  {
  }

  function Later(r: Parse<nat>, n: nat): Parse<nat> {
    match r
    case Fail => Fail
    case Read(v, used) => Read(v, used + n)
  }
}
