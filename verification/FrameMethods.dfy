/** The imperative bodies of common/frame.cpp and receiver/frame_parser.cpp, each proved
    equal to the function that specifies it. */
module FrameMethods {
  import opened Bytes
  import opened Crc32
  import opened Frames

  method EncodeHeader(h: FrameHeader) returns (bytes: seq<byte>)
    ensures bytes == HeaderBytes(h)
  {
    hide Le;
    var buf := new byte[HEADER_SIZE];
    var offset := PutLe(buf, 0, h.magic, 4);
    offset := PutLe(buf, offset, h.version, 2);
    offset := PutLe(buf, offset, h.headerSize, 2);
    offset := PutLe(buf, offset, h.moduleId, 2);
    offset := PutLe(buf, offset, h.flags, 2);
    offset := PutLe(buf, offset, h.frameId, 8);
    offset := PutLe(buf, offset, h.timestampNs, 8);
    ghost var front := buf[..offset];
    assert front == Le(h.magic, 4) + Le(h.version, 2) + Le(h.headerSize, 2) + Le(h.moduleId, 2) + Le(h.flags, 2)
                    + Le(h.frameId, 8) + Le(h.timestampNs, 8);
    offset := PutLe(buf, offset, h.channelCount, 2);
    offset := PutLe(buf, offset, h.sampleRateHz, 2);
    offset := PutLe(buf, offset, h.sampleFormat, 2);
    offset := PutLe(buf, offset, h.reserved, 2);
    offset := PutLe(buf, offset, h.payloadLen, 4);
    offset := PutLe(buf, offset, h.headerCrc, 4);
    bytes := buf[..];
    assert buf[..offset] == buf[..];
  }

  method DecodeHeader(bytes: seq<byte>) returns (h: FrameHeader)
    requires |bytes| >= HEADER_SIZE
    ensures h == HeaderOf(bytes)
  {
    hide FromLe, Pow256;
    Pow256Values();
    var magic, offset := GetLe(bytes, 0, 4);
    var version, headerSize, moduleId, flags, frameId, timestampNs;
    version, offset := GetLe(bytes, offset, 2);
    headerSize, offset := GetLe(bytes, offset, 2);
    moduleId, offset := GetLe(bytes, offset, 2);
    flags, offset := GetLe(bytes, offset, 2);
    frameId, offset := GetLe(bytes, offset, 8);
    timestampNs, offset := GetLe(bytes, offset, 8);
    var channelCount, sampleRateHz, sampleFormat, reserved, payloadLen, headerCrc;
    channelCount, offset := GetLe(bytes, offset, 2);
    sampleRateHz, offset := GetLe(bytes, offset, 2);
    sampleFormat, offset := GetLe(bytes, offset, 2);
    reserved, offset := GetLe(bytes, offset, 2);
    payloadLen, offset := GetLe(bytes, offset, 4);
    headerCrc, offset := GetLe(bytes, offset, 4);
    h := FrameHeader(magic, version, headerSize, moduleId, flags, frameId, timestampNs,
      channelCount, sampleRateHz, sampleFormat, reserved, payloadLen, headerCrc);
  }

  /** encode_payload: writes every sample, re before im, from `offset` on. */
  method EncodePayload(payload: seq<ComplexSample>, out: array<byte>)
    requires out.Length == SAMPLE_BYTES * |payload|
    modifies out
    ensures out[..] == PayloadToBytes(payload)
  {
    hide Le;
    var offset := 0;
    for i := 0 to |payload|
      invariant offset == SAMPLE_BYTES * i
      invariant out[..offset] == PayloadToBytes(payload[..i])
    {
      ghost var before := out[..offset];
      offset := PutLe(out, offset, Unsigned(payload[i].re), 4);
      offset := PutLe(out, offset, Unsigned(payload[i].im), 4);
      assert out[..offset] == before + SampleToBytes(payload[i]);
      assert payload[..i + 1][..i] == payload[..i];
    }
    assert payload[..|payload|] == payload && out[..offset] == out[..];
  }

  method CrcOf(bytes: seq<byte>) returns (value: u32)
    ensures value == CrcValue(bytes)
  {
    var crc := ComputeCrc(bytes);
    value := Value(crc);
  }

  method PayloadCrc(payload: seq<ComplexSample>) returns (value: u32)
    ensures value == CrcValue(PayloadToBytes(payload))
  {
    var bytes := new byte[|payload| * SAMPLE_BYTES];
    EncodePayload(payload, bytes);
    value := CrcOf(bytes[..]);
  }

  /** put_le onto the end of a growing vector. */
  method AppendLe(bytes: seq<byte>, value: nat, width: nat) returns (result: seq<byte>)
    ensures result == bytes + Le(value, width)
  {
    result := bytes;
    var rest := value;
    for i := 0 to width
      invariant result + Le(rest, width - i) == bytes + Le(value, width)
    {
      result := result + [ToByte(rest)];
      rest := rest / 256;
    }
  }

  /** serialize_frame_into. The payload must fit the 32-bit length that sizes the buffer. */
  method SerializeFrameInto(f: Frame) returns (result: seq<byte>)
    requires SAMPLE_BYTES * |f.payload| < 0x1_0000_0000
    ensures result == Serialize(f)
  {
    hide Le, HeaderBytes, CrcValue, PayloadToBytes;
    var header := f.header.(payloadLen := |f.payload| * SAMPLE_BYTES, headerCrc := 0);
    var headerBytes := EncodeHeader(header);
    var crc := CrcOf(headerBytes);
    header := header.(headerCrc := crc);
    assert header == SealedHeader(f);
    headerBytes := EncodeHeader(header);

    result := AppendLe([], |headerBytes|, 4);
    result := result + headerBytes;
    var payload := new byte[header.payloadLen];
    EncodePayload(f.payload, payload);
    result := result + payload[..];
    crc := CrcOf(payload[..]);
    result := AppendLe(result, crc, 4);
  }

  lemma PayloadOfNothing()
    ensures PayloadOf([]) == []
  {
  }

  lemma PayloadOfNext(bytes: seq<byte>, cursor: nat, next: nat)
    requires cursor <= next && next + 8 <= |bytes| && (next - cursor) % 8 == 0
    ensures PayloadOf(bytes[cursor..next + 8])
         == PayloadOf(bytes[cursor..next]) + [ComplexSample(Signed(U32At(bytes, next)), Signed(U32At(bytes, next + 4)))]
  {
    hide FromLe, Pow256;
    var b, sample := bytes[cursor..next + 8], bytes[next..next + 8];
    assert b[..|b| - 8] == bytes[cursor..next];
    assert b[|b| - 8..] == sample;
    assert sample[0..4] == bytes[next..next + 4] && sample[4..8] == bytes[next + 4..next + 8];
  }

  method DecodePayload(bytes: seq<byte>, cursor: nat, count: nat) returns (payload: seq<ComplexSample>, next: nat)
    requires cursor + SAMPLE_BYTES * count <= |bytes|
    ensures next == cursor + SAMPLE_BYTES * count
    ensures payload == PayloadOf(bytes[cursor..next])
  {
    hide FromLe, Pow256, PayloadOf;
    Pow256Values();
    payload, next := [], cursor;
    PayloadOfNothing();
    assert bytes[cursor..cursor] == [];
    for i := 0 to count
      invariant next == cursor + SAMPLE_BYTES * i
      invariant payload == PayloadOf(bytes[cursor..next])
    {
      PayloadOfNext(bytes, cursor, next);
      var re, im;
      re, next := GetLe(bytes, next, 4);
      im, next := GetLe(bytes, next, 4);
      payload := payload + [ComplexSample(Signed(re), Signed(im))];
    }
  }

  /** deserialize_frame_into, with its exceptions as Thrown. */
  method DeserializeFrameInto(bytes: seq<byte>) returns (r: Decoded)
    ensures r == Deserialize(bytes)
  {
    hide FromLe, Pow256, PayloadOf;
    Pow256Values();
    if |bytes| < FRAME_PREFIX_SIZE + HEADER_SIZE + FRAME_CRC_SIZE {
      return Thrown(FrameTooShort);
    }
    var headerLen, prefixOffset := GetLe(bytes, 0, 4);
    if headerLen != HEADER_SIZE {
      return Thrown(UnexpectedHeaderLength);
    }
    var header := DecodeHeader(bytes[FRAME_PREFIX_SIZE..FRAME_PREFIX_SIZE + headerLen]);
    if header.payloadLen % SAMPLE_BYTES != 0 {
      return Thrown(PayloadNotWholeSamples);
    }
    if header.payloadLen != PAYLOAD_BYTES {
      return Thrown(UnexpectedPayloadLength);
    }
    if |bytes| != FRAME_PREFIX_SIZE + headerLen + header.payloadLen + FRAME_CRC_SIZE {
      return Thrown(FrameLengthMismatch);
    }
    var payload, cursor := DecodePayload(bytes, FRAME_PREFIX_SIZE + headerLen, header.payloadLen / SAMPLE_BYTES);
    var payloadCrc;
    payloadCrc, cursor := GetLe(bytes, cursor, 4);
    r := Ok(Frame(header, payload, payloadCrc));
  }

  method ValidateFrame(f: Frame) returns (problem: Problem)
    ensures problem == Validate(f)
  {
    hide HeaderBytes, CrcValue, PayloadToBytes;
    if f.header.magic != FRAME_MAGIC {
      return BadMagic;
    }
    if f.header.version != PROTOCOL_VERSION {
      return UnsupportedVersion;
    }
    if f.header.headerSize != HEADER_SIZE {
      return BadHeaderSize;
    }
    if f.header.channelCount != CHANNEL_COUNT {
      return UnexpectedChannelCount;
    }
    if f.header.sampleRateHz == 0 || f.header.sampleRateHz > MAX_SAMPLE_RATE_HZ {
      return UnexpectedSampleRate;
    }
    if f.header.sampleFormat != SAMPLE_FORMAT_COMPLEX_INT32 {
      return UnexpectedSampleFormat;
    }
    if f.header.payloadLen != |f.payload| * SAMPLE_BYTES {
      return PayloadLengthMismatch;
    }
    var headerBytes := EncodeHeader(f.header.(headerCrc := 0));
    var expectedHeaderCrc := CrcOf(headerBytes);
    if f.header.headerCrc != expectedHeaderCrc {
      return HeaderCrcMismatch;
    }
    var payloadCrc := PayloadCrc(f.payload);
    if f.payloadCrc != payloadCrc {
      return PayloadCrcMismatch;
    }
    return NoProblem;
  }
}
