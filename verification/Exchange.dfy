/** A sender and a receiver that use one buffer, as pb_encode.h and pb_decode.h describe. */
module Exchange {
  import opened Basics
  import opened Pb
  import opened EncodeSpec
  import opened DecodeSpec
  import opened RoundTrip
  import opened Messages
  import Encoder
  import Decoder
  import opened IStreams

  /** Encoding a valid message into a buffer that is large enough and decoding what was
      written gives the message back; no byte behind the message is touched, and none is
      left over. */
  method SendAndReceive(buffer: array<byte>, fields: Descriptor, slots: seq<Slot>)
    returns (sent: bool, received: bool, dest: seq<Slot>)
    requires WellFormed(fields) && ZeroDefaults(fields) && Valid(fields, slots)
    modifies buffer
    ensures sent <==> Encode(fields, slots).Ok? && |Encode(fields, slots).bytes| <= buffer.Length
    ensures sent ==> buffer[|Encode(fields, slots).bytes|..] == old(buffer[..])[|Encode(fields, slots).bytes|..]
    ensures sent && Fits(Encode(fields, slots)) ==> received && dest == Normalize(fields, slots)
  {
    ValidTyped(fields, slots);
    hide WellFormed, WellTyped, ZeroDefaults, Valid, Encode, Decode, Normalize;
    dest, received := [], false;
    var count;
    sent, count := Encoder.EncodeToBuffer(buffer, fields, slots);
    if !sent { return; }
    var stream := new IStream(buffer[..], true, 0, count);
    assert stream.Left() == buffer[..count];
    if Fits(Encode(fields, slots)) { DecodeEncode(fields, slots); }
    received, dest := Decoder.DecodeMessage(stream, fields);
  }
}
