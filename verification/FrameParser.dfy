/** How the receiver classifies a wire frame (receiver/frame_parser.cpp). */
module FrameParser {
  import opened Bytes
  import opened Frames
  import opened FrameMethods

  datatype ParseError = ParsedOk | Malformed | HeaderCrc | PayloadCrc | UnexpectedProtocol

  function Classify(p: Problem): ParseError {
    match p
    case NoProblem => ParsedOk
    case HeaderCrcMismatch => HeaderCrc
    case PayloadCrcMismatch => PayloadCrc
    case _ => UnexpectedProtocol
  }

  /** The error class of a byte string: a decoding exception, or the class of the validation result. */
  function ErrorOf(b: seq<byte>): ParseError {
    match Deserialize(b)
    case Ok(f) => Classify(Validate(f))
    case Thrown(_) => Malformed
  }

  /** parse_frame_into. `frame` is the decoded frame when decoding did not throw. */
  method ParseFrameInto(bytes: seq<byte>) returns (error: ParseError, decoded: Decoded)
    ensures error == ErrorOf(bytes)
    ensures decoded == Deserialize(bytes)
    ensures error.ParsedOk? <==> Accepts(bytes)
  {
    hide Deserialize, Validate;
    decoded := DeserializeFrameInto(bytes);
    match decoded
    case Ok(frame) =>
      var problem := ValidateFrame(frame);
      error := Classify(problem);
    case Thrown(problem) =>
      ThrownIsProblem(bytes);
      error := Malformed;
  }

  lemma ThrownIsProblem(b: seq<byte>)
    requires Deserialize(b).Thrown?
    ensures !Deserialize(b).problem.NoProblem?
  {
  }

  datatype Peeked = Length(value: u32) | WrongSize | UnexpectedLength

  /** peek_header_len: the length prefix alone, which must be the fixed one. */
  method PeekHeaderLen(prefix: seq<byte>) returns (r: Peeked)
    ensures r.WrongSize? <==> |prefix| != 4
    ensures r.Length? <==> |prefix| == 4 && U32At(prefix, 0) == HEADER_SIZE
    ensures r.Length? ==> r.value == HEADER_SIZE
  {
    if |prefix| != 4 {
      return WrongSize;
    }
    var headerLen, next := GetLe(prefix, 0, 4);
    if headerLen != HEADER_SIZE {
      return UnexpectedLength;
    }
    return Length(headerLen);
  }

  /** peek_payload_len: the payload_len of an encoded header. */
  method PeekPayloadLen(header: seq<byte>) returns (r: Peeked)
    ensures r.WrongSize? <==> |header| != HEADER_SIZE
    ensures |header| == HEADER_SIZE ==> r == Length(HeaderOf(header).payloadLen)
  {
    if |header| != HEADER_SIZE {
      return WrongSize;
    }
    // magic 4, version 2, header_size 2, module_id 2, flags 2, frame_id 8, timestamp_ns 8, four fields of 2
    var payloadLen, next := GetLe(header, 4 + 2 + 2 + 2 + 2 + 8 + 8 + 2 + 2 + 2 + 2, 4);
    Pow256Values();
    return Length(payloadLen);
  }
}
