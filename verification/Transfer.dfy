/** The encoder and the decoder together: the laws about bytes and messages, as they hold of the code. */
module Transfer {
  import opened Basics
  import opened Descriptors
  import opened Encoding
  import opened Decoding
  import opened Messages
  import opened Shapes
  import opened Sending
  import opened ExactRoundTrip
  import opened InputStream
  import opened Encoder
  import opened Decoder

  /** What the encoder and the decoder ask of their callers holds of every storable message. */
  lemma {:induction false} Ready(d: Desc, m: Msg)
    requires WellFormed(d) && StorableMsg(d, m)
    ensures StaticDesc(d, false) && TypedDesc(d, false) && SendableMsg(d, m, false) && MsgAddressable(d, m)
  {
    hide *;
    WellFormedStatic(d, false);
    StorableSendable(d, m, false);
  }

  /**
   * pb_encode into a buffer, then pb_decode from what was written: it succeeds exactly when the
   * encoding fits the buffer and every string that is sent leaves room for its terminator, and
   * what arrives is the same message exactly when zero stands for the default wherever it is left out.
   */
  method SendAndReceive(buf: array<Byte>, d: Desc, m: Msg, dest: Destination) returns (ok: bool)
    requires WellFormed(d) && |m| == |d| && StorableMsg(d, m) && |dest.m| == |d|
    modifies buf, dest
    ensures Encode(d, m).Some?
    ensures ok <==> |Encode(d, m).value| <= buf.Length && ReadableMsg(d, m)
    ensures ok ==> (SameMsg(d, m, dest.m) <==> FaithfulMsg(d, m))
  {
    hide Encode, Decode, WellFormed, StorableMsg, ReadableMsg, FaithfulMsg, SameMsg, StaticDesc, TypedDesc, SendableMsg,
        MsgAddressable;
    Ready(d, m);
    RoundTripExact(d, m);
    var written;
    ok, written := EncodeToBuffer(buf, d, m);
    if !ok {
      return;
    }
    var stream := new IStream(buf, 0, written);
    ok := DecodeInto(stream, d, dest);
  }
}
