/** The packed 16-byte header that opens every batch frame of the
    Simulator-to-MFR datagram protocol. */
module PacketHeaderCodec {
  import opened Bytes

  /** `sizeof(PacketHeader)` under one-byte packing: four `uint32_t` fields, no padding. */
  const HEADER_SIZE: nat := 16
  /** Protocol identifier written into `magic`. */
  const MAGIC: u32 := 0xA1B2_C3D4

  datatype PacketHeader = PacketHeader(magic: u32, seqID: u32, payloadCRC: u32, count: u32)

  /** The wire image of a header: `magic`, `seqID`, `payloadCRC`, `count` at
      offsets 0, 4, 8 and 12, each field little-endian. */
  function EncodeHeader(h: PacketHeader): (b: seq<u8>)
    ensures |b| == HEADER_SIZE
  {
    Le32(h.magic) + Le32(h.seqID) + Le32(h.payloadCRC) + Le32(h.count)
  }

  /** Reads the header from the first 16 bytes of a buffer, as the
      `reinterpret_cast<const PacketHeader*>` of the receiver does. */
  function DecodeHeader(b: seq<u8>): PacketHeader
    requires |b| >= HEADER_SIZE
  {
    PacketHeader(FromLe32(b[0..4]), FromLe32(b[4..8]), FromLe32(b[8..12]), FromLe32(b[12..16]))
  }

  /** Each field sits at its packed offset: 0, 4, 8 and 12. */
  lemma FieldOffsets(h: PacketHeader)
    ensures FromLe32(EncodeHeader(h)[0..4]) == h.magic
    ensures FromLe32(EncodeHeader(h)[4..8]) == h.seqID
    ensures FromLe32(EncodeHeader(h)[8..12]) == h.payloadCRC
    ensures FromLe32(EncodeHeader(h)[12..16]) == h.count
  {
    var b := EncodeHeader(h);
    assert b[0..4] == Le32(h.magic);
    assert b[4..8] == Le32(h.seqID);
    assert b[8..12] == Le32(h.payloadCRC);
    assert b[12..16] == Le32(h.count);
    Le32RoundTrip(h.magic);
    Le32RoundTrip(h.seqID);
    Le32RoundTrip(h.payloadCRC);
    Le32RoundTrip(h.count);
  }

  /** A header followed by any payload reads back as the same header. */
  lemma DecodeEncode(h: PacketHeader, payload: seq<u8>)
    ensures DecodeHeader(EncodeHeader(h) + payload) == h
  {
    var b := EncodeHeader(h) + payload;
    assert b[0..16] == EncodeHeader(h);
    FieldOffsets(h);
  }

  /** Every 16-byte image is the encoding of the header read from it. */
  lemma EncodeDecode(b: seq<u8>)
    requires |b| == HEADER_SIZE
    ensures EncodeHeader(DecodeHeader(b)) == b
  {
    FromLe32RoundTrip(b[0..4]);
    FromLe32RoundTrip(b[4..8]);
    FromLe32RoundTrip(b[8..12]);
    FromLe32RoundTrip(b[12..16]);
    assert b == b[0..4] + b[4..8] + b[8..12] + b[12..16];
  }

  /** A batch datagram: the header's wire image, then the payload. */
  function FrameBytes(h: PacketHeader, payload: seq<u8>): (f: seq<u8>)
    ensures |f| == HEADER_SIZE + |payload|
  {
    EncodeHeader(h) + payload
  }

  /** A receiver reading a frame recovers the header and the payload. */
  lemma ParseFrameBytes(h: PacketHeader, payload: seq<u8>)
    ensures DecodeHeader(FrameBytes(h, payload)) == h
    ensures FrameBytes(h, payload)[HEADER_SIZE..] == payload
  {
    DecodeEncode(h, payload);
    assert (EncodeHeader(h) + payload)[HEADER_SIZE..] == payload;
  }
}
