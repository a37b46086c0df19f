/** The fixed frame layout shared by the send and receive paths:
    byte 0 magic, bytes 1-2 source, 3-4 destination, 5-6 reset counter,
    7-8 message counter, 9 type, then the payload (bytes 10-13 for a
    Beacon). Multi-byte fields are big-endian. */
module Frame {
  import opened Wire

  const Magic: Byte := 0xAA
  const Broadcast: U16 := 0xFFFF
  const BeaconType: Byte := 0x01

  const SourceOffset: nat := 1
  const DestinationOffset: nat := 3
  const ResetCounterOffset: nat := 5
  const MessageCounterOffset: nat := 7
  const TypeOffset: nat := 9
  const HeaderLength: nat := 10
  const BeaconPayloadLength: nat := 4

  /** Bytes the receive path may read: the header and a Beacon payload. */
  const MinFrameLength: nat := HeaderLength + BeaconPayloadLength

  datatype Header = Header(
    source: U16,
    destination: U16,
    resetCounter: U16,
    messageCounter: U16,
    msgType: Byte)

  /** Reference layout of a frame header. */
  function EncodeHeader(h: Header): (r: seq<Byte>)
    ensures |r| == HeaderLength
    ensures r[0] == Magic && r[TypeOffset] == h.msgType
  {
    [Magic] + ToBe16(h.source) + ToBe16(h.destination)
      + ToBe16(h.resetCounter) + ToBe16(h.messageCounter) + [h.msgType]
  }

  /** The header fields of a received buffer, each 16-bit field as
      `(b[k] << 8) + b[k+1]`. */
  function DecodeHeader(buf: seq<Byte>): (h: Header)
    requires |buf| >= HeaderLength
  {
    Header(
      Be16(buf[1], buf[2]),
      Be16(buf[3], buf[4]),
      Be16(buf[5], buf[6]),
      Be16(buf[7], buf[8]),
      buf[9])
  }

  /** A buffer that starts with the magic number is exactly the encoding
      of its decoded header. */
  lemma EncodeDecodeHeader(buf: seq<Byte>)
    requires |buf| >= HeaderLength && buf[0] == Magic
    ensures EncodeHeader(DecodeHeader(buf)) == buf[..HeaderLength]
  {
    SplitJoin16(buf[1], buf[2]);
    SplitJoin16(buf[3], buf[4]);
    SplitJoin16(buf[5], buf[6]);
    SplitJoin16(buf[7], buf[8]);
  }

  /** Decoding an encoded header gives back every field. */
  lemma DecodeEncodeHeader(h: Header)
    ensures DecodeHeader(EncodeHeader(h)) == h
  {
    var b := EncodeHeader(h);
    assert b[1..3] == ToBe16(h.source);
    assert b[3..5] == ToBe16(h.destination);
    assert b[5..7] == ToBe16(h.resetCounter);
    assert b[7..9] == ToBe16(h.messageCounter);
  }

  /** Payload length by type byte; only Beacon is known. */
  function PayloadLength(t: Byte): (r: nat)
    ensures r <= BeaconPayloadLength
  {
    if t == BeaconType then BeaconPayloadLength else 0
  }

  // Builders for the outgoing frame. Each writes the bytes of one field
  // and leaves every other byte as it was.

  /** `__setTypeByte`: byte 9 becomes the type. */
  function SetType(buf: seq<Byte>, t: Byte): (r: seq<Byte>)
    requires |buf| >= HeaderLength
    ensures |r| == |buf| && DecodeHeader(r).msgType == t
    ensures forall i :: 0 <= i < |buf| && i != TypeOffset ==> r[i] == buf[i]
  {
    buf[TypeOffset := t]
  }

  /** `__setDestinationByte`: bytes 3-4 become the destination, big-endian. */
  function SetDestination(buf: seq<Byte>, d: U16): (r: seq<Byte>)
    requires |buf| >= HeaderLength
    ensures |r| == |buf| && DecodeHeader(r).destination == d
    ensures forall i :: 0 <= i < |buf| && i != DestinationOffset && i != DestinationOffset + 1 ==>
      r[i] == buf[i]
  {
    JoinSplit16(d);
    buf[DestinationOffset := Hi(d)][DestinationOffset + 1 := Lo(d)]
  }

  /** `__setPayloadByte`: byte `10 + offset` becomes the value. The offset is
      not bounded by the source, so the caller keeps it inside the buffer. */
  function SetPayloadByte(buf: seq<Byte>, offset: Byte, value: Byte): (r: seq<Byte>)
    requires HeaderLength + offset < |buf|
    ensures |r| == |buf| && r[HeaderLength + offset] == value
    ensures forall i :: 0 <= i < |buf| && i != HeaderLength + offset ==> r[i] == buf[i]
  {
    buf[HeaderLength + offset := value]
  }

  /** The body of `sendMessageBeacon` on the outgoing buffer: Beacon type,
      broadcast destination, and the uptime big-endian in bytes 10-13. The
      magic number, source and counter bytes, and the bytes after the
      payload, are untouched. */
  function BeaconFrame(buf: seq<Byte>, uptime: U32): (r: seq<Byte>)
    requires |buf| >= MinFrameLength
    ensures |r| == |buf|
    ensures DecodeHeader(r).destination == Broadcast
    ensures DecodeHeader(r).msgType == BeaconType
    ensures Be32At(r, HeaderLength) == uptime
    ensures forall i :: 0 <= i < |buf| && (i < DestinationOffset || ResetCounterOffset <= i < TypeOffset || MinFrameLength <= i) ==>
      r[i] == buf[i]
  {
    var b := ToBe32(uptime);
    var r := SetPayloadByte(SetPayloadByte(SetPayloadByte(SetPayloadByte(
      SetDestination(SetType(buf, BeaconType), Broadcast),
      0, b[0]), 1, b[1]), 2, b[2]), 3, b[3]);
    assert r[HeaderLength..MinFrameLength] == b;
    r
  }

  /** The counter stamping of `copyToBuffer`: bytes 5-6 carry the reset
      counter and bytes 7-8 the message counter, big-endian. */
  function StampCounters(buf: seq<Byte>, rst: U16, msg: U16): (r: seq<Byte>)
    requires |buf| >= HeaderLength
    ensures |r| == |buf|
    ensures DecodeHeader(r).resetCounter == rst
    ensures DecodeHeader(r).messageCounter == msg
    ensures forall i :: 0 <= i < |buf| && (i < ResetCounterOffset || TypeOffset <= i) ==> r[i] == buf[i]
  {
    JoinSplit16(rst);
    JoinSplit16(msg);
    buf[ResetCounterOffset := Hi(rst)][ResetCounterOffset + 1 := Lo(rst)]
       [MessageCounterOffset := Hi(msg)][MessageCounterOffset + 1 := Lo(msg)]
  }

  /** A Beacon frame with its counters stamped: the header holds the source
      bytes as they were, the broadcast destination, the Beacon type and the
      two counters, and the payload holds the uptime. */
  lemma StampedBeacon(buf: seq<Byte>, uptime: U32, rst: U16, msg: U16)
    requires |buf| >= MinFrameLength
    ensures var r := StampCounters(BeaconFrame(buf, uptime), rst, msg);
      && r[0] == buf[0] && r[1] == buf[1] && r[2] == buf[2]
      && DecodeHeader(r).destination == Broadcast
      && DecodeHeader(r).resetCounter == rst
      && DecodeHeader(r).messageCounter == msg
      && DecodeHeader(r).msgType == BeaconType
      && Be32At(r, HeaderLength) == uptime
  {
    var b := BeaconFrame(buf, uptime);
    var r := StampCounters(b, rst, msg);
    assert r[3] == b[3] && r[4] == b[4] && r[TypeOffset] == b[TypeOffset];
    assert r[10] == b[10] && r[11] == b[11] && r[12] == b[12] && r[13] == b[13];
  }

  /** The wipe of `copyToBuffer`: everything after the magic number and
      source address becomes zero. */
  function Wipe(buf: seq<Byte>): (r: seq<Byte>)
    requires |buf| >= 3
    ensures |r| == |buf| && r[..3] == buf[..3]
    ensures forall i :: 3 <= i < |r| ==> r[i] == 0
  {
    buf[..3] + seq(|buf| - 3, _ => 0)
  }
}
