/** Wire frames: layout, serialisation, decoding and validation (common/frame.h, common/frame.cpp). */
module Frames {
  import opened Bytes
  import opened CrcBits
  import opened Crc32

  const FRAME_MAGIC: u32 := 0x434D4231
  const PROTOCOL_VERSION: u16 := 2
  const CHANNEL_COUNT: u16 := 1704
  const MAX_SAMPLE_RATE_HZ: u16 := 1000
  const SAMPLE_FORMAT_COMPLEX_INT32: u16 := 1
  const SAMPLE_BYTES: nat := 8
  const PAYLOAD_BYTES: u32 := 13632
  const HEADER_SIZE: u16 := 44
  const FRAME_PREFIX_SIZE: nat := 4
  const FRAME_CRC_SIZE: nat := 4
  const WIRE_FRAME_SIZE: nat := 13684
  const FRAME_ID_WIRE_OFFSET: nat := 16

  type i32 = x: int | -0x8000_0000 <= x < 0x8000_0000

  datatype FrameHeader = FrameHeader(
    magic: u32, version: u16, headerSize: u16, moduleId: u16, flags: u16,
    frameId: u64, timestampNs: u64,
    channelCount: u16, sampleRateHz: u16, sampleFormat: u16, reserved: u16,
    payloadLen: u32, headerCrc: u32)

  datatype ComplexSample = ComplexSample(re: i32, im: i32)

  datatype Frame = Frame(header: FrameHeader, payload: seq<ComplexSample>, payloadCrc: u32)

  // What deserialize_frame throws (the first five) and what validate_frame returns.
  datatype Problem =
    | FrameTooShort
    | UnexpectedHeaderLength
    | PayloadNotWholeSamples
    | UnexpectedPayloadLength
    | FrameLengthMismatch
    | NoProblem
    | BadMagic
    | UnsupportedVersion
    | BadHeaderSize
    | UnexpectedChannelCount
    | UnexpectedSampleRate
    | UnexpectedSampleFormat
    | PayloadLengthMismatch
    | HeaderCrcMismatch
    | PayloadCrcMismatch

  datatype Decoded = Ok(frame: Frame) | Thrown(problem: Problem)

  // ---- integers on the wire

  /** The conversion from int32_t to uint32_t. */
  function Unsigned(x: i32): u32 {
    if x < 0 then x + 0x1_0000_0000 else x
  }

  /** The conversion from uint32_t to int32_t. */
  function Signed(x: u32): i32 {
    if x < 0x8000_0000 then x else x - 0x1_0000_0000
  }

  /** Both conversions keep the value modulo 2^32: two's complement. */
  lemma TwosComplement(x: i32, y: u32)
    ensures (Unsigned(x) as int - x as int) % 0x1_0000_0000 == 0
    ensures (y as int - Signed(y) as int) % 0x1_0000_0000 == 0
  {
  }

  function WordBytes(w: bv32): (b: seq<byte>)
    ensures |b| == 4
  {
    [Index(Lane(w, 0)), Index(Lane(w, 1)), Index(Lane(w, 2)), Index(Lane(w, 3))]
  }

  /** The number a 32-bit word stands for. */
  function Value(w: bv32): u32 {
    FromLe(WordBytes(w))
  }

  function CrcValue(data: seq<byte>): u32 {
    Value(Crc(data))
  }

  function U16At(b: seq<byte>, offset: nat): u16
    requires offset + 2 <= |b|
  {
    Pow256Values();
    FromLe(b[offset..offset + 2])
  }

  function U32At(b: seq<byte>, offset: nat): u32
    requires offset + 4 <= |b|
  {
    Pow256Values();
    FromLe(b[offset..offset + 4])
  }

  function U64At(b: seq<byte>, offset: nat): u64
    requires offset + 8 <= |b|
  {
    Pow256Values();
    FromLe(b[offset..offset + 8])
  }

  // ---- layout

  /** The header before header_crc. */
  function HeaderPrefix(h: FrameHeader): (b: seq<byte>)
    ensures |b| == 40
  {
    Le(h.magic, 4) + Le(h.version, 2) + Le(h.headerSize, 2) + Le(h.moduleId, 2) + Le(h.flags, 2)
    + Le(h.frameId, 8) + Le(h.timestampNs, 8)
    + Le(h.channelCount, 2) + Le(h.sampleRateHz, 2) + Le(h.sampleFormat, 2) + Le(h.reserved, 2)
    + Le(h.payloadLen, 4)
  }

  function HeaderBytes(h: FrameHeader): (b: seq<byte>)
    ensures |b| == 44
  {
    HeaderPrefix(h) + Le(h.headerCrc, 4)
  }

  function HeaderOf(b: seq<byte>): FrameHeader
    requires |b| >= 44
  {
    FrameHeader(
      U32At(b, 0), U16At(b, 4), U16At(b, 6), U16At(b, 8), U16At(b, 10),
      U64At(b, 12), U64At(b, 20),
      U16At(b, 28), U16At(b, 30), U16At(b, 32), U16At(b, 34),
      U32At(b, 36), U32At(b, 40))
  }

  function SampleToBytes(s: ComplexSample): (b: seq<byte>)
    ensures |b| == 8
  {
    Le(Unsigned(s.re), 4) + Le(Unsigned(s.im), 4)
  }

  function SampleOf(b: seq<byte>): ComplexSample
    requires |b| == 8
  {
    ComplexSample(Signed(U32At(b, 0)), Signed(U32At(b, 4)))
  }

  function PayloadToBytes(p: seq<ComplexSample>): (b: seq<byte>)
    ensures |b| == 8 * |p|
  {
    if |p| == 0 then []
    else PayloadToBytes(p[..|p| - 1]) + SampleToBytes(p[|p| - 1])
  }

  function PayloadOf(b: seq<byte>): (p: seq<ComplexSample>)
    requires |b| % 8 == 0
    ensures |p| == |b| / 8
  {
    if |b| == 0 then []
    else PayloadOf(b[..|b| - 8]) + [SampleOf(b[|b| - 8..])]
  }

  // ---- serialisation, decoding, validation as functions

  function HeaderCrcOf(h: FrameHeader): u32 {
    CrcValue(HeaderBytes(h.(headerCrc := 0)))
  }

  /** The header that serialize_frame writes: payload_len and header_crc are recomputed. */
  function SealedHeader(f: Frame): FrameHeader {
    var h := f.header.(payloadLen := (8 * |f.payload|) % 0x1_0000_0000);
    h.(headerCrc := HeaderCrcOf(h))
  }

  function Serialize(f: Frame): seq<byte> {
    var payload := PayloadToBytes(f.payload);
    Le(HEADER_SIZE, 4) + HeaderBytes(SealedHeader(f)) + payload + Le(CrcValue(payload), 4)
  }

  function Deserialize(b: seq<byte>): Decoded {
    if |b| < 52 then Thrown(FrameTooShort)
    else if U32At(b, 0) != HEADER_SIZE then Thrown(UnexpectedHeaderLength)
    else
      var h := HeaderOf(b[4..48]);
      if h.payloadLen % SAMPLE_BYTES != 0 then Thrown(PayloadNotWholeSamples)
      else if h.payloadLen != PAYLOAD_BYTES then Thrown(UnexpectedPayloadLength)
      else if |b| != WIRE_FRAME_SIZE then Thrown(FrameLengthMismatch)
      else Ok(Frame(h, PayloadOf(b[48..13680]), U32At(b, 13680)))
  }

  function Validate(f: Frame): Problem {
    var h := f.header;
    if h.magic != FRAME_MAGIC then BadMagic
    else if h.version != PROTOCOL_VERSION then UnsupportedVersion
    else if h.headerSize != HEADER_SIZE then BadHeaderSize
    else if h.channelCount != CHANNEL_COUNT then UnexpectedChannelCount
    else if h.sampleRateHz == 0 || h.sampleRateHz > MAX_SAMPLE_RATE_HZ then UnexpectedSampleRate
    else if h.sampleFormat != SAMPLE_FORMAT_COMPLEX_INT32 then UnexpectedSampleFormat
    else if h.payloadLen != |f.payload| * SAMPLE_BYTES then PayloadLengthMismatch
    else if h.headerCrc != HeaderCrcOf(h) then HeaderCrcMismatch
    else if f.payloadCrc != CrcValue(PayloadToBytes(f.payload)) then PayloadCrcMismatch
    else NoProblem
  }

  /** What a reader of the bytes is told: the thrown problem, or the validation result. */
  function ProblemOf(b: seq<byte>): Problem {
    match Deserialize(b)
    case Ok(f) => Validate(f)
    case Thrown(p) => p
  }

  predicate Accepts(b: seq<byte>) {
    ProblemOf(b).NoProblem?
  }

  // ---- layout round trips

  lemma HeaderOfHeaderBytes(h: FrameHeader)
    ensures HeaderOf(HeaderBytes(h)) == h
  {
    hide Le, FromLe, Pow256;
    Pow256Values();
    var p0: seq<byte> := [];
    var p1 := p0 + Le(h.magic, 4);
    var p2 := p1 + Le(h.version, 2);
    var p3 := p2 + Le(h.headerSize, 2);
    var p4 := p3 + Le(h.moduleId, 2);
    var p5 := p4 + Le(h.flags, 2);
    var p6 := p5 + Le(h.frameId, 8);
    var p7 := p6 + Le(h.timestampNs, 8);
    var p8 := p7 + Le(h.channelCount, 2);
    var p9 := p8 + Le(h.sampleRateHz, 2);
    var p10 := p9 + Le(h.sampleFormat, 2);
    var p11 := p10 + Le(h.reserved, 2);
    var p12 := p11 + Le(h.payloadLen, 4);
    var b := HeaderBytes(h);
    assert Le(h.magic, 4) == p1;
    FieldAt(b, p12, h.headerCrc, 4);
    FieldAt(b, p11, h.payloadLen, 4);
    FieldAt(b, p10, h.reserved, 2);
    FieldAt(b, p9, h.sampleFormat, 2);
    FieldAt(b, p8, h.sampleRateHz, 2);
    FieldAt(b, p7, h.channelCount, 2);
    FieldAt(b, p6, h.timestampNs, 8);
    FieldAt(b, p5, h.frameId, 8);
    FieldAt(b, p4, h.flags, 2);
    FieldAt(b, p3, h.moduleId, 2);
    FieldAt(b, p2, h.headerSize, 2);
    FieldAt(b, p1, h.version, 2);
    FieldAt(b, p0, h.magic, 4);
  }

  lemma FieldAt(b: seq<byte>, prefix: seq<byte>, value: nat, width: nat)
    requires value < Pow256(width)
    requires prefix + Le(value, width) <= b
    ensures prefix <= b && FromLe(b[|prefix|..|prefix| + width]) == value
  {
    assert b[|prefix|..|prefix| + width] == Le(value, width);
    FromLeOfLe(value, width);
  }

  lemma HeaderBytesOfHeaderOf(b: seq<byte>)
    requires |b| == 44
    ensures HeaderPrefix(HeaderOf(b)) == b[..40]
    ensures HeaderBytes(HeaderOf(b)) == b
  {
    hide Le, FromLe, Pow256;
    LeOfFromLe(b[0..4]);
    LeOfFromLe(b[4..6]);
    LeOfFromLe(b[6..8]);
    LeOfFromLe(b[8..10]);
    LeOfFromLe(b[10..12]);
    LeOfFromLe(b[12..20]);
    LeOfFromLe(b[20..28]);
    LeOfFromLe(b[28..30]);
    LeOfFromLe(b[30..32]);
    LeOfFromLe(b[32..34]);
    LeOfFromLe(b[34..36]);
    LeOfFromLe(b[36..40]);
    LeOfFromLe(b[40..44]);
  }

  lemma SampleRoundTrip(s: ComplexSample)
    ensures SampleOf(SampleToBytes(s)) == s
  {
    var b := SampleToBytes(s);
    assert b[0..4] == Le(Unsigned(s.re), 4) && b[4..8] == Le(Unsigned(s.im), 4);
    FromLeOfLe(Unsigned(s.re), 4);
    FromLeOfLe(Unsigned(s.im), 4);
  }

  lemma SampleBytesRoundTrip(b: seq<byte>)
    requires |b| == 8
    ensures SampleToBytes(SampleOf(b)) == b
  {
    LeOfFromLe(b[0..4]);
    LeOfFromLe(b[4..8]);
  }

  lemma PayloadGrows(p: seq<ComplexSample>, s: ComplexSample)
    ensures PayloadToBytes(p + [s]) == PayloadToBytes(p) + SampleToBytes(s)
  {
    hide SampleToBytes;
    assert (p + [s])[..|p|] == p;
  }

  lemma BytesGrow(b: seq<byte>, sample: seq<byte>)
    requires |b| % 8 == 0 && |sample| == 8
    ensures PayloadOf(b + sample) == PayloadOf(b) + [SampleOf(sample)]
  {
    hide SampleOf;
    var all := b + sample;
    assert all[..|all| - 8] == b && all[|all| - 8..] == sample;
  }

  lemma {:induction false} PayloadRoundTrip(p: seq<ComplexSample>)
    ensures PayloadOf(PayloadToBytes(p)) == p
  {
    if |p| > 0 {
      hide PayloadToBytes, PayloadOf, SampleOf, SampleToBytes;
      var front, s := p[..|p| - 1], p[|p| - 1];
      assert p == front + [s];
      PayloadRoundTrip(front);
      PayloadGrows(front, s);
      BytesGrow(PayloadToBytes(front), SampleToBytes(s));
      SampleRoundTrip(s);
    }
  }

  lemma {:induction false} PayloadBytesRoundTrip(b: seq<byte>)
    requires |b| % 8 == 0
    ensures PayloadToBytes(PayloadOf(b)) == b
  {
    if |b| > 0 {
      hide PayloadToBytes, PayloadOf, SampleOf, SampleToBytes;
      var front, sample := b[..|b| - 8], b[|b| - 8..];
      assert b == front + sample;
      PayloadBytesRoundTrip(front);
      BytesGrow(front, sample);
      PayloadGrows(PayloadOf(front), SampleOf(sample));
      SampleBytesRoundTrip(sample);
    }
  }
}
