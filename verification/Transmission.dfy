// A message through a buffer: pb_encode fills it, pb_decode reads it back.
module Transmission {
  import opened Bits
  import opened Varints
  import opened Fields
  import opened Encoding
  import opened Decoding
  import opened OutputStreams
  import opened InputStreams
  import opened Encoder
  import opened Decoder
  import opened Views
  import opened RoundTrip

  /**
    * Sending fits exactly when there is an encoding no longer than the buffer; receiving what was sent, into any
    * memory, then works exactly when the strings that were sent are terminated, and shows the struct that was sent.
    */
  method SendAndReceive(fields: seq<Field>, message: seq<Slot>, buffer: array<byte>, memory: seq<Slot>)
    returns (sent: bool, received: bool, dest: seq<Slot>)
    requires TableOk(fields) && Fits(fields, message) && Fits(fields, memory) && Sized(fields, message)
    requires buffer.Length < TWO_32
    modifies buffer
    ensures sent <==> Encode(fields, message).Some? && |Encode(fields, message).value| <= buffer.Length
    ensures received <==> sent && Terminated(fields, message)
    ensures received ==> Fits(fields, dest) && View(fields, dest) == View(fields, message)
  {
    hide Encode, Decode, Terminated, View, TableOk, Fits, Sized;
    received, dest := false, memory;
    var output := new OStream.FromBuffer(buffer, 0, buffer.Length);
    sent := PbEncode(output, fields, message);
    if !sent {
      return;
    }
    var input := new IStream.FromBuffer(buffer, 0, output.bytesWritten);
    assert input.Rest() == Encode(fields, message).value;
    EncodeDecode(fields, message, memory);
    received, dest := PbDecode(input, fields, memory);
  }
}
