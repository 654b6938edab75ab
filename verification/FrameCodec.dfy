/** What the codec promises: both round trips, the set of accepted byte strings, and the
    same verdict read directly off the bytes. */
module FrameCodec {
  import opened Bytes
  import opened Frames
  import opened FrameParser

  predicate FixedFields(h: FrameHeader) {
    && h.magic == FRAME_MAGIC
    && h.version == PROTOCOL_VERSION
    && h.headerSize == HEADER_SIZE
    && h.channelCount == CHANNEL_COUNT
    && 0 < h.sampleRateHz <= MAX_SAMPLE_RATE_HZ
    && h.sampleFormat == SAMPLE_FORMAT_COMPLEX_INT32
  }

  predicate WellFormed(f: Frame) {
    |f.payload| == CHANNEL_COUNT && FixedFields(f.header)
  }

  /** The frame a reader of Serialize(f) gets: lengths and CRCs recomputed, nothing else touched. */
  function Sealed(f: Frame): Frame {
    Frame(SealedHeader(f), f.payload, CrcValue(PayloadToBytes(f.payload)))
  }

  lemma Parts(f: Frame)
    ensures var b, payload := Serialize(f), PayloadToBytes(f.payload);
            && |b| == 52 + |payload|
            && b[0..4] == Le(HEADER_SIZE, 4)
            && b[4..48] == HeaderBytes(SealedHeader(f))
            && b[48..48 + |payload|] == payload
            && b[48 + |payload|..] == Le(CrcValue(payload), 4)
  {
    hide Le, CrcValue, HeaderBytes, PayloadToBytes;
    var payload := PayloadToBytes(f.payload);
    var front := Le(HEADER_SIZE, 4) + HeaderBytes(SealedHeader(f));
    assert Serialize(f) == (front + payload) + Le(CrcValue(payload), 4);
  }

  /** Encoding then decoding gives the same header fields and samples back. */
  lemma DecodeOfSerialize(f: Frame)
    requires |f.payload| == CHANNEL_COUNT
    ensures Deserialize(Serialize(f)) == Ok(Sealed(f))
  {
    hide HeaderBytes, PayloadToBytes, CrcValue, Le, FromLe, Pow256, Serialize, PayloadOf, HeaderOf;
    Parts(f);
    var b := Serialize(f);
    Pow256Values();
    FromLeOfLe(HEADER_SIZE, 4);
    HeaderOfHeaderBytes(SealedHeader(f));
    PayloadRoundTrip(f.payload);
    FromLeOfLe(CrcValue(PayloadToBytes(f.payload)), 4);
    assert b[13680..13684] == b[13680..];
  }

  lemma ValidateSealed(f: Frame)
    requires |f.payload| == CHANNEL_COUNT
    ensures !Validate(Sealed(f)).HeaderCrcMismatch? && !Validate(Sealed(f)).PayloadCrcMismatch?
    ensures Validate(Sealed(f)).NoProblem? <==> FixedFields(f.header)
  {
    hide HeaderBytes, PayloadToBytes, CrcValue;
    var h := f.header.(payloadLen := (8 * |f.payload|) % 0x1_0000_0000);
    assert SealedHeader(f).(headerCrc := 0) == h.(headerCrc := 0);
  }

  /** A serialised frame is accepted exactly when its payload has one sample per channel and
      its fixed fields are right; the stored lengths and CRCs of the argument do not matter. */
  lemma SerializedAccepted(f: Frame)
    ensures Accepts(Serialize(f)) <==> WellFormed(f)
  {
    hide Serialize, Deserialize, Validate;
    if |f.payload| == CHANNEL_COUNT {
      DecodeOfSerialize(f);
      ValidateSealed(f);
    } else {
      SerializedWrongSize(f);
    }
  }

  lemma SerializedWrongSize(f: Frame)
    requires |f.payload| != CHANNEL_COUNT
    ensures Deserialize(Serialize(f)) in {Thrown(UnexpectedPayloadLength), Thrown(FrameLengthMismatch)}
  {
    hide HeaderBytes, PayloadToBytes, CrcValue, Le, FromLe, Pow256, Serialize, PayloadOf, HeaderOf;
    Parts(f);
    Pow256Values();
    FromLeOfLe(HEADER_SIZE, 4);
    HeaderOfHeaderBytes(SealedHeader(f));
  }

  /** Accepted bytes are canonical: re-serialising the decoded frame gives exactly those bytes. */
  lemma SerializeOfDecode(b: seq<byte>)
    requires Accepts(b)
    ensures Deserialize(b).Ok? && WellFormed(Deserialize(b).frame)
    ensures Serialize(Deserialize(b).frame) == b
  {
    hide HeaderBytes, PayloadToBytes, CrcValue, Le, FromLe, Pow256, PayloadOf, HeaderOf;
    var f := Deserialize(b).frame;
    assert |f.payload| == CHANNEL_COUNT;
    assert SealedHeader(f) == f.header by {
      assert f.header.(payloadLen := (8 * |f.payload|) % 0x1_0000_0000) == f.header;
    }
    HeaderBytesOfHeaderOf(b[4..48]);
    PayloadBytesRoundTrip(b[48..13680]);
    LeOfFromLe(b[0..4]);
    LeOfFromLe(b[13680..13684]);
    assert b == b[0..4] + b[4..48] + b[48..13680] + b[13680..13684];
  }

  /** The accepted byte strings are exactly the serialisations of well-formed frames. */
  lemma AcceptedIsImage(b: seq<byte>)
    ensures Accepts(b) <==> exists f: Frame :: WellFormed(f) && Serialize(f) == b
  {
    hide Serialize, Deserialize, Validate;
    if Accepts(b) {
      SerializeOfDecode(b);
    }
    forall f: Frame | WellFormed(f) && Serialize(f) == b
      ensures Accepts(b)
    {
      SerializedAccepted(f);
    }
  }

  // ---- the verdict read off the bytes

  /** The first rule that a byte string breaks, by its bytes alone. */
  function FirstProblem(b: seq<byte>): Problem {
    if |b| < 52 then FrameTooShort
    else if U32At(b, 0) != 44 then UnexpectedHeaderLength
    else if U32At(b, 40) % 8 != 0 then PayloadNotWholeSamples
    else if U32At(b, 40) != 13632 then UnexpectedPayloadLength
    else if |b| != 13684 then FrameLengthMismatch
    else if U32At(b, 4) != 0x434D4231 then BadMagic
    else if U16At(b, 8) != 2 then UnsupportedVersion
    else if U16At(b, 10) != 44 then BadHeaderSize
    else if U16At(b, 32) != 1704 then UnexpectedChannelCount
    else if !(1 <= U16At(b, 34) <= 1000) then UnexpectedSampleRate
    else if U16At(b, 36) != 1 then UnexpectedSampleFormat
    else if U32At(b, 44) != CrcValue(b[4..44] + [0, 0, 0, 0]) then HeaderCrcMismatch
    else if U32At(b, 13680) != CrcValue(b[48..13680]) then PayloadCrcMismatch
    else NoProblem
  }

  /** The class of a full-size byte string, by its bytes alone. */
  function RawError(b: seq<byte>): ParseError
    requires |b| == WIRE_FRAME_SIZE
  {
    match FirstProblem(b)
    case UnexpectedHeaderLength | PayloadNotWholeSamples | UnexpectedPayloadLength => Malformed
    case NoProblem => ParsedOk
    case HeaderCrcMismatch => HeaderCrc
    case PayloadCrcMismatch => PayloadCrc
    case _ => UnexpectedProtocol
  }

  lemma SliceOfSlice(b: seq<byte>, from: nat, to: nat, width: nat)
    requires 4 <= from && from + width == to <= 48 <= |b|
    ensures b[4..48][from - 4..to - 4] == b[from..to]
  {
    var s := b[4..48];
    forall i | 0 <= i < width
      ensures s[from - 4..to - 4][i] == b[from..to][i]
    {
      assert s[from - 4 + i] == b[from + i];
    }
  }

  lemma HeaderFieldsAt(b: seq<byte>)
    requires |b| >= 48
    ensures var h := HeaderOf(b[4..48]);
            && h.magic == U32At(b, 4) && h.version == U16At(b, 8) && h.headerSize == U16At(b, 10)
            && h.moduleId == U16At(b, 12) && h.flags == U16At(b, 14)
            && h.frameId == U64At(b, 16) && h.timestampNs == U64At(b, 24)
            && h.channelCount == U16At(b, 32) && h.sampleRateHz == U16At(b, 34) && h.sampleFormat == U16At(b, 36)
            && h.reserved == U16At(b, 38) && h.payloadLen == U32At(b, 40) && h.headerCrc == U32At(b, 44)
  {
    hide FromLe, Pow256;
    SliceOfSlice(b, 4, 8, 4);
    SliceOfSlice(b, 8, 10, 2);
    SliceOfSlice(b, 10, 12, 2);
    SliceOfSlice(b, 12, 14, 2);
    SliceOfSlice(b, 14, 16, 2);
    SliceOfSlice(b, 16, 24, 8);
    SliceOfSlice(b, 24, 32, 8);
    SliceOfSlice(b, 32, 34, 2);
    SliceOfSlice(b, 34, 36, 2);
    SliceOfSlice(b, 36, 38, 2);
    SliceOfSlice(b, 38, 40, 2);
    SliceOfSlice(b, 40, 44, 4);
    SliceOfSlice(b, 44, 48, 4);
  }

  /** Re-encoding the decoded header with a zero CRC field gives the raw header bytes so zeroed. */
  lemma ZeroedHeader(b: seq<byte>)
    requires |b| == 44
    ensures HeaderBytes(HeaderOf(b).(headerCrc := 0)) == b[..40] + [0, 0, 0, 0]
  {
    HeaderBytesOfHeaderOf(b);
    assert HeaderPrefix(HeaderOf(b).(headerCrc := 0)) == HeaderPrefix(HeaderOf(b)) by {
      hide Le;
    }
    assert Le(0, 4) == [0, 0, 0, 0];
  }

  /** The validator decodes and re-encodes; the problem it names can be read directly off the bytes, for
      every byte string. */
  lemma ProblemIsRaw(b: seq<byte>)
    ensures ProblemOf(b) == FirstProblem(b)
  {
    hide HeaderBytes, PayloadToBytes, CrcValue, Le, FromLe, Pow256, PayloadOf, HeaderOf;
    if |b| >= 52 {
      HeaderFieldsAt(b);
      if |b| == 13684 {
        ZeroedHeader(b[4..48]);
        assert b[4..48][..40] == b[4..44];
        PayloadBytesRoundTrip(b[48..13680]);
      }
    }
  }

  /** The parser's class, likewise. */
  lemma ErrorIsRaw(b: seq<byte>)
    requires |b| == WIRE_FRAME_SIZE
    ensures ErrorOf(b) == RawError(b)
  {
    ProblemIsRaw(b);
    hide FirstProblem, Validate, FromLe, HeaderOf, PayloadOf;
    ThrownOnDecoding(b);
  }

  /** Which problems decoding throws. */
  lemma ThrownOnDecoding(b: seq<byte>)
    ensures Deserialize(b).Thrown? <==>
              ProblemOf(b).FrameTooShort? || ProblemOf(b).UnexpectedHeaderLength?
              || ProblemOf(b).PayloadNotWholeSamples? || ProblemOf(b).UnexpectedPayloadLength?
              || ProblemOf(b).FrameLengthMismatch?
    ensures ProblemOf(b).FrameTooShort? || ProblemOf(b).FrameLengthMismatch? ==> |b| != WIRE_FRAME_SIZE
  {
    hide FromLe, HeaderOf, PayloadOf, CrcValue, HeaderBytes, PayloadToBytes;
  }

  lemma AcceptsIsRaw(b: seq<byte>)
    ensures Accepts(b) <==> |b| == WIRE_FRAME_SIZE && RawError(b).ParsedOk?
  {
    if |b| == WIRE_FRAME_SIZE {
      hide RawError;
      ErrorIsRaw(b);
    }
  }

  // ---- the wire format

  lemma {:induction false} SampleInPayload(p: seq<ComplexSample>, k: nat)
    requires k < |p|
    ensures PayloadToBytes(p)[8 * k..8 * k + 8] == SampleToBytes(p[k])
  {
    hide SampleToBytes;
    var n := |p| - 1;
    var b := PayloadToBytes(p);
    if k < n {
      SampleInPayload(p[..n], k);
      assert b[8 * k..8 * k + 8] == PayloadToBytes(p[..n])[8 * k..8 * k + 8];
    }
  }

  lemma SliceOfTail(b: seq<byte>, p: seq<byte>, from: nat, at: nat, width: nat)
    requires from + |p| <= |b| && b[from..from + |p|] == p && at + width <= |p|
    ensures b[from + at..from + at + width] == p[at..at + width]
  {
    var s, t := b[from + at..from + at + width], p[at..at + width];
    forall i | 0 <= i < width
      ensures s[i] == t[i]
    {
      assert b[from..from + |p|][at + i] == b[from + at + i];
    }
  }

  /** Channel k of a serialised frame: eight bytes from offset 48 + 8 * k, the real part before the
      imaginary part, each in two's complement. */
  lemma SampleOnWire(f: Frame, k: nat)
    requires k < |f.payload|
    ensures 48 + 8 * k + 8 <= |Serialize(f)|
    ensures U32At(Serialize(f), 48 + 8 * k) == Unsigned(f.payload[k].re)
    ensures U32At(Serialize(f), 48 + 8 * k + 4) == Unsigned(f.payload[k].im)
  {
    hide PayloadToBytes, HeaderBytes, CrcValue, Serialize, Le, FromLe, Pow256;
    Parts(f);
    SampleInPayload(f.payload, k);
    var b, payload, s := Serialize(f), PayloadToBytes(f.payload), f.payload[k];
    var at := 48 + 8 * k;
    SliceOfTail(b, payload, 48, 8 * k, 8);
    assert b[at..at + 4] == b[at..at + 8][..4] && b[at + 4..at + 8] == b[at..at + 8][4..];
    assert SampleToBytes(s)[..4] == Le(Unsigned(s.re), 4) && SampleToBytes(s)[4..] == Le(Unsigned(s.im), 4);
    Pow256Values();
    FromLeOfLe(Unsigned(s.re), 4);
    FromLeOfLe(Unsigned(s.im), 4);
  }

  /** The header fields of a serialised frame, each at its offset, whatever the size of the payload. */
  lemma HeaderOnWire(f: Frame)
    ensures var b, h, size := Serialize(f), f.header, 8 * |f.payload|;
            && |b| == 52 + size && U32At(b, 0) == 44
            && U32At(b, 4) == h.magic && U16At(b, 8) == h.version && U16At(b, 10) == h.headerSize
            && U16At(b, 12) == h.moduleId && U16At(b, 14) == h.flags
            && U64At(b, 16) == h.frameId && U64At(b, 24) == h.timestampNs
            && U16At(b, 32) == h.channelCount && U16At(b, 34) == h.sampleRateHz && U16At(b, 36) == h.sampleFormat
            && U16At(b, 38) == h.reserved && U32At(b, 40) == size % 0x1_0000_0000
            && U32At(b, 44) == CrcValue(b[4..44] + [0, 0, 0, 0])
            && U32At(b, 48 + size) == CrcValue(b[48..48 + size])
  {
    hide PayloadToBytes, HeaderBytes, CrcValue, Serialize, Le, FromLe, Pow256, HeaderOf;
    Parts(f);
    var b := Serialize(f);
    Pow256Values();
    FromLeOfLe(HEADER_SIZE, 4);
    HeaderOfHeaderBytes(SealedHeader(f));
    HeaderFieldsAt(b);
    ZeroedHeader(b[4..48]);
    assert b[4..48][..40] == b[4..44];
    FromLeOfLe(CrcValue(PayloadToBytes(f.payload)), 4);
    var end := 48 + 8 * |f.payload|;
    assert b[end..end + 4] == b[end..];
  }
}
