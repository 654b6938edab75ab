/** Damage to an accepted frame: every change confined to 32 consecutive bits is rejected,
    and the error class tells which part was hit. */
module FrameDetection {
  import opened Bytes
  import opened CrcBits
  import opened Crc32
  import opened CrcDetection
  import opened Frames
  import opened FrameParser
  import opened FrameCodec

  /** `a` and `b` have the same size and agree outside [lo, hi). */
  ghost predicate SameOutside(a: seq<byte>, b: seq<byte>, lo: nat, hi: nat) {
    |a| == |b| && forall i :: 0 <= i < |a| && !(lo <= i < hi) ==> a[i] == b[i]
  }

  /** A burst seen through a window is a burst of the window. */
  lemma BurstInWindow(a: seq<byte>, b: seq<byte>, j: nat, r: nat, lo: nat, hi: nat) returns (j': nat, r': nat)
    requires Burst(a, b, j, r) && lo <= hi <= |a|
    ensures Burst(a[lo..hi], b[lo..hi], j', r')
  {
    if lo <= j {
      j', r' := j - lo, r;
      BurstInside(a, b, j, r, lo, hi);
    } else {
      j', r' := 0, 0;
      BurstFromLeft(a, b, j, r, lo, hi);
    }
  }

  lemma SameInWindow(a: seq<byte>, b: seq<byte>, j: nat, r: nat, lo: nat, hi: nat, i: nat)
    requires Burst(a, b, j, r) && lo <= hi <= |a| && i < hi - lo && !(j <= lo + i < j + 5)
    ensures |b| == |a| && a[lo..hi][i] == b[lo..hi][i]
  {
    hide Flips, LowBits;
  }

  lemma BurstInside(a: seq<byte>, b: seq<byte>, j: nat, r: nat, lo: nat, hi: nat)
    requires Burst(a, b, j, r) && lo <= hi <= |a| && lo <= j
    ensures Burst(a[lo..hi], b[lo..hi], j - lo, r)
  {
    hide Flips, LowBits;
    forall i | 0 <= i < hi - lo && !(j - lo <= i < j - lo + 5)
      ensures a[lo..hi][i] == b[lo..hi][i]
    {
      SameInWindow(a, b, j, r, lo, hi, i);
    }
  }

  lemma BurstFromLeft(a: seq<byte>, b: seq<byte>, j: nat, r: nat, lo: nat, hi: nat)
    requires Burst(a, b, j, r) && lo <= hi <= |a| && j < lo
    ensures Burst(a[lo..hi], b[lo..hi], 0, 0)
  {
    hide Flips, LowBits;
    forall i | 0 <= i < hi - lo && !(0 <= i < 5)
      ensures a[lo..hi][i] == b[lo..hi][i]
    {
      SameInWindow(a, b, j, r, lo, hi, i);
    }
    if hi - lo > 0 {
      NoLowBits(Flips(a[lo], b[lo]));
    }
    if hi - lo > 4 {
      SameInWindow(a, b, j, r, lo, hi, 4);
      FlipsSelf(a[lo + 4], 0);
    }
  }

  lemma BurstPadded(a: seq<byte>, b: seq<byte>, j: nat, r: nat, pad: seq<byte>)
    requires Burst(a, b, j, r) && |pad| == 4
    ensures exists j', r' :: Burst(a + pad, b + pad, j', r')
  {
    hide Flips, LowBits;
    var a', b' := a + pad, b + pad;
    if j < |a| {
      BurstBeforePad(a, b, j, r, pad);
    } else {
      assert a' == b';
      assert Burst(a', b', |a'|, 0);
    }
  }

  lemma BurstBeforePad(a: seq<byte>, b: seq<byte>, j: nat, r: nat, pad: seq<byte>)
    requires Burst(a, b, j, r) && |pad| == 4 && j < |a|
    ensures Burst(a + pad, b + pad, j, r)
  {
    hide Flips, LowBits;
    if j + 4 >= |a| {
      FlipsSelf((a + pad)[j + 4], r);
    }
  }

  // ---- a word and its four bytes

  lemma WordOfWordBytes(w: bv32)
    ensures var b := WordBytes(w); WordLe(b[0], b[1], b[2], b[3]) == w
  {
    var b := WordBytes(w);
    assert && Word(b[0]) == Lane(w, 0) && Word(b[1]) == Lane(w, 1)
           && Word(b[2]) == Lane(w, 2) && Word(b[3]) == Lane(w, 3) by {
      hide Word, Lane;
    }
    hide Word;
    OrOfLanes(w);
  }

  lemma ValueInjective(v: bv32, w: bv32)
    requires Value(v) == Value(w)
    ensures v == w
  {
    hide WordLe, WordBytes, FromLe;
    FromLeInjective(WordBytes(v), WordBytes(w));
    WordOfWordBytes(v);
    WordOfWordBytes(w);
  }

  lemma WordFromBytes(tail: seq<byte>, w: bv32)
    requires |tail| == 4
    ensures FromLe(tail) == Value(w) <==> WordLe(tail[0], tail[1], tail[2], tail[3]) == w
  {
    hide WordLe, WordBytes, FromLe;
    WordOfWordBytes(w);
    if FromLe(tail) == Value(w) {
      FromLeInjective(tail, WordBytes(w));
    }
    if WordLe(tail[0], tail[1], tail[2], tail[3]) == w {
      WordLeInjective(tail, WordBytes(w));
    }
  }

  // ---- data followed by its CRC is a code word

  /** The register after any data followed by its own CRC. */
  function Residue(): bv32 {
    Shift(0xFFFF_FFFF, 32)
  }

  lemma ResidueIff(r: bv32, w: bv32)
    ensures Shift(Xor(r, w), 32) == Residue() <==> w == Complement(r)
  {
    hide Shift, Step, Xor, Complement;
    XorComplement(r, w);
    if Shift(Xor(r, w), 32) == Residue() {
      ShiftInjective(Xor(r, w), 0xFFFF_FFFF, 32);
    }
  }

  lemma RegisterTail(data: seq<byte>, tail: seq<byte>)
    requires |tail| == 4
    ensures Register(INITIAL, data + tail)
         == Shift(Xor(Register(INITIAL, data), WordLe(tail[0], tail[1], tail[2], tail[3])), 32)
  {
    hide Shift, Xor, WordLe, Register;
    assert tail == [tail[0], tail[1], tail[2], tail[3]];
    RegisterConcat(INITIAL, data, tail);
    RegisterWord(Register(INITIAL, data), tail[0], tail[1], tail[2], tail[3]);
  }

  lemma CodeWord(data: seq<byte>, tail: seq<byte>)
    requires |tail| == 4
    ensures FromLe(tail) == CrcValue(data) <==> Register(INITIAL, data + tail) == Residue()
  {
    hide Shift, Xor, WordLe, Register, FromLe, Value, Residue, Complement;
    RegisterTail(data, tail);
    ResidueIff(Register(INITIAL, data), WordLe(tail[0], tail[1], tail[2], tail[3]));
    WordFromBytes(tail, Crc(data));
  }

  /** A burst anywhere in data and CRC together cannot lead from one code word to another. */
  lemma CodeWordBurst(data: seq<byte>, tail: seq<byte>, data': seq<byte>, tail': seq<byte>, j: nat, r: nat)
    requires |tail| == |tail'| == 4
    requires Burst(data + tail, data' + tail', j, r)
    requires FromLe(tail) == CrcValue(data) && FromLe(tail') == CrcValue(data')
    ensures data + tail == data' + tail'
  {
    hide Register, FromLe, CrcValue, Burst;
    CodeWord(data, tail);
    CodeWord(data', tail');
    BurstLeavesTrace(data + tail, data' + tail', j, r);
  }

  lemma CrcValueBurst(a: seq<byte>, b: seq<byte>, j: nat, r: nat)
    requires Burst(a, b, j, r) && CrcValue(a) == CrcValue(b)
    ensures a == b
  {
    hide Crc, Burst, Value;
    ValueInjective(Crc(a), Crc(b));
    if a != b {
      BurstDetected(a, b, j, r);
    }
  }

  // ---- fixed fields pin their bytes

  lemma SameFieldSameBytes(a: seq<byte>, b: seq<byte>, offset: nat, width: nat)
    requires offset + width <= |a| && offset + width <= |b|
    requires FromLe(a[offset..offset + width]) == FromLe(b[offset..offset + width])
    ensures a[offset..offset + width] == b[offset..offset + width]
  {
    FromLeInjective(a[offset..offset + width], b[offset..offset + width]);
  }

  /** Two frames with the same fixed fields agree on those bytes. */
  lemma FixedBytes(a: seq<byte>, b: seq<byte>)
    requires |a| == |b| == WIRE_FRAME_SIZE
    requires !RawError(a).Malformed? && !RawError(b).Malformed?
    ensures a[0..4] == b[0..4] && a[40..44] == b[40..44]
  {
    hide FromLe, Pow256, CrcValue;
    SameFieldSameBytes(a, b, 0, 4);
    SameFieldSameBytes(a, b, 40, 4);
  }

  /** Header bytes before header_crc, as the header CRC reads them. */
  function CrcInput(b: seq<byte>): seq<byte>
    requires |b| == WIRE_FRAME_SIZE
  {
    b[4..44] + [0, 0, 0, 0]
  }

  lemma HeaderBurst(a: seq<byte>, b: seq<byte>, j: nat, r: nat)
    requires |a| == |b| == WIRE_FRAME_SIZE
    requires Burst(a, b, j, r) && CrcValue(CrcInput(a)) == CrcValue(CrcInput(b))
    ensures a[4..44] == b[4..44]
  {
    hide CrcValue, Flips, LowBits, Burst;
    var j', r' := BurstInWindow(a, b, j, r, 4, 44);
    BurstPadded(a[4..44], b[4..44], j', r', [0, 0, 0, 0]);
    var j2, r2 :| Burst(CrcInput(a), CrcInput(b), j2, r2);
    CrcValueBurst(CrcInput(a), CrcInput(b), j2, r2);
    assert CrcInput(a)[..40] == a[4..44] && CrcInput(b)[..40] == b[4..44];
  }

  lemma PayloadBurst(a: seq<byte>, b: seq<byte>, j: nat, r: nat)
    requires |a| == |b| == WIRE_FRAME_SIZE && Burst(a, b, j, r)
    requires U32At(a, 13680) == CrcValue(a[48..13680]) && U32At(b, 13680) == CrcValue(b[48..13680])
    ensures a[48..] == b[48..]
  {
    hide CrcValue, Flips, LowBits, FromLe, Pow256, Burst;
    var j', r' := BurstInWindow(a, b, j, r, 48, WIRE_FRAME_SIZE);
    assert a[48..WIRE_FRAME_SIZE] == a[48..] && b[48..WIRE_FRAME_SIZE] == b[48..];
    assert a[48..13680] + a[13680..13684] == a[48..] && b[48..13680] + b[13680..13684] == b[48..];
    CodeWordBurst(a[48..13680], a[13680..13684], b[48..13680], b[13680..13684], j', r');
  }

  /** The stored header CRC can only have moved with payload_len, and that field is fixed. */
  lemma HeaderSame(a: seq<byte>, b: seq<byte>, j: nat, r: nat)
    requires |a| == |b| == WIRE_FRAME_SIZE && Burst(a, b, j, r)
    requires U32At(a, 44) == CrcValue(CrcInput(a)) && U32At(b, 44) == CrcValue(CrcInput(b))
    requires a[40..44] == b[40..44]
    ensures a[4..48] == b[4..48]
  {
    hide FromLe, Pow256, Flips, LowBits, CrcValue;
    if j < 40 {
      assert a[44..48] == b[44..48];
      hide Burst, CrcInput;
      HeaderBurst(a, b, j, r);
    } else {
      assert a[4..40] == b[4..40];
      assert a[4..44] == a[4..40] + a[40..44] && b[4..44] == b[4..40] + b[40..44];
      hide Burst;
      SameFieldSameBytes(a, b, 44, 4);
    }
    assert a[4..48] == a[4..44] + a[44..48] && b[4..48] == b[4..44] + b[44..48];
  }

  lemma RawParts(b: seq<byte>)
    requires |b| == WIRE_FRAME_SIZE && RawError(b).ParsedOk?
    ensures U32At(b, 44) == CrcValue(CrcInput(b))
    ensures U32At(b, 13680) == CrcValue(b[48..13680])
  {
  }

  lemma WholeFromParts(a: seq<byte>, b: seq<byte>)
    requires |a| == |b| == WIRE_FRAME_SIZE
    requires a[0..4] == b[0..4] && a[4..48] == b[4..48] && a[48..] == b[48..]
    ensures a == b
  {
    assert a == a[0..4] + a[4..48] + a[48..];
    assert b == b[0..4] + b[4..48] + b[48..];
  }

  /** No burst leads from one accepted frame to another: any nonzero change confined to 32
      consecutive bits, anywhere in an accepted frame, is rejected. */
  lemma BurstRejected(a: seq<byte>, b: seq<byte>, j: nat, r: nat)
    requires Accepts(a) && Burst(a, b, j, r) && a != b
    ensures !Accepts(b)
  {
    hide Accepts;
    if Accepts(b) {
      AcceptedBurst(a, b, j, r);
    }
  }

  lemma AcceptedBurst(a: seq<byte>, b: seq<byte>, j: nat, r: nat)
    requires Accepts(a) && Accepts(b) && Burst(a, b, j, r)
    ensures a == b
  {
    hide Accepts, RawError, Burst, CrcValue, FromLe, Pow256, CrcInput;
    AcceptsIsRaw(a);
    AcceptsIsRaw(b);
    RawParts(a);
    RawParts(b);
    FixedBytes(a, b);
    HeaderSame(a, b, j, r);
    PayloadBurst(a, b, j, r);
    WholeFromParts(a, b);
  }

  // ---- which part was hit

  predicate SameSlice(a: seq<byte>, b: seq<byte>, lo: nat, hi: nat)
    requires lo <= hi <= |a| && hi <= |b|
  {
    a[lo..hi] == b[lo..hi]
  }

  predicate RateAllowed(b: seq<byte>)
    requires |b| == WIRE_FRAME_SIZE
  {
    0 < U16At(b, 34) <= MAX_SAMPLE_RATE_HZ
  }

  /** The class a reader reports for b, a damaged copy of the accepted frame a. */
  function DamageClass(a: seq<byte>, b: seq<byte>): ParseError
    requires |a| == |b| == WIRE_FRAME_SIZE
  {
    // header_len or payload_len
    if !SameSlice(a, b, 0, 4) || !SameSlice(a, b, 40, 44) then Malformed
    // magic, version, header_size; channel_count; sample_format; or a rate out of range
    else if !SameSlice(a, b, 4, 12) || !SameSlice(a, b, 32, 34) || !SameSlice(a, b, 36, 38)
            || !RateAllowed(b) then UnexpectedProtocol
    // module_id, flags, frame_id, timestamp_ns, rate, reserved or header_crc
    else if !SameSlice(a, b, 4, 48) then HeaderCrc
    // payload or payload_crc
    else PayloadCrc
  }

  /** For an accepted frame a, a field of b has the fixed value exactly when its bytes are unchanged. */
  lemma FieldUnchanged(a: seq<byte>, b: seq<byte>, offset: nat, width: nat)
    requires offset + width <= |a| && offset + width <= |b|
    ensures SameSlice(a, b, offset, offset + width)
       <==> FromLe(a[offset..offset + width]) == FromLe(b[offset..offset + width])
  {
    hide FromLe;
    if FromLe(a[offset..offset + width]) == FromLe(b[offset..offset + width]) {
      SameFieldSameBytes(a, b, offset, width);
    }
  }

  lemma JoinSlices(a: seq<byte>, b: seq<byte>, lo: nat, mid: nat, hi: nat)
    requires lo <= mid <= hi <= |a| && hi <= |b|
    ensures SameSlice(a, b, lo, hi) <==> SameSlice(a, b, lo, mid) && SameSlice(a, b, mid, hi)
  {
    assert a[lo..hi] == a[lo..mid] + a[mid..hi] && b[lo..hi] == b[lo..mid] + b[mid..hi];
    assert a[lo..mid] == a[lo..hi][..mid - lo] && b[lo..mid] == b[lo..hi][..mid - lo];
    assert a[mid..hi] == a[lo..hi][mid - lo..] && b[mid..hi] == b[lo..hi][mid - lo..];
  }

  /** The fixed fields, field by field and byte by byte. */
  lemma FixedFieldsUnchanged(a: seq<byte>, b: seq<byte>)
    requires |a| == |b| == WIRE_FRAME_SIZE && RawError(a).ParsedOk?
    ensures SameSlice(a, b, 0, 4) <==> U32At(b, 0) == HEADER_SIZE
    ensures SameSlice(a, b, 40, 44) <==> U32At(b, 40) == PAYLOAD_BYTES
    ensures SameSlice(a, b, 4, 12)
       <==> U32At(b, 4) == FRAME_MAGIC && U16At(b, 8) == PROTOCOL_VERSION && U16At(b, 10) == HEADER_SIZE
    ensures SameSlice(a, b, 32, 34) <==> U16At(b, 32) == CHANNEL_COUNT
    ensures SameSlice(a, b, 36, 38) <==> U16At(b, 36) == SAMPLE_FORMAT_COMPLEX_INT32
  {
    hide FromLe, Pow256, CrcValue, SameSlice;
    FieldUnchanged(a, b, 0, 4);
    FieldUnchanged(a, b, 40, 4);
    FieldUnchanged(a, b, 4, 4);
    FieldUnchanged(a, b, 8, 2);
    FieldUnchanged(a, b, 10, 2);
    FieldUnchanged(a, b, 32, 2);
    FieldUnchanged(a, b, 36, 2);
    JoinSlices(a, b, 4, 8, 12);
    JoinSlices(a, b, 8, 10, 12);
  }

  /** With the fixed fields intact, only the CRCs are left to decide. */
  lemma CrcsDecide(a: seq<byte>, b: seq<byte>)
    requires |a| == |b| == WIRE_FRAME_SIZE && RawError(a).ParsedOk?
    ensures DamageClass(a, b) == Malformed <==> RawError(b) == Malformed
    ensures DamageClass(a, b) == UnexpectedProtocol <==> RawError(b) == UnexpectedProtocol
    ensures !RawError(b).Malformed? && !RawError(b).UnexpectedProtocol? ==>
              RawError(b) == if U32At(b, 44) != CrcValue(CrcInput(b)) then HeaderCrc
                             else if U32At(b, 13680) != CrcValue(b[48..13680]) then PayloadCrc
                             else ParsedOk
  {
    hide FromLe, Pow256, CrcValue, SameSlice;
    FixedFieldsUnchanged(a, b);
  }

  lemma SameHeaderSameCrc(a: seq<byte>, b: seq<byte>)
    requires |a| == |b| == WIRE_FRAME_SIZE && SameSlice(a, b, 4, 48)
    ensures CrcInput(a) == CrcInput(b) && a[44..48] == b[44..48]
  {
    JoinSlices(a, b, 4, 44, 48);
  }

  /** A burst that hits the header shows in the header CRC, any other in the payload CRC. */
  lemma BurstBreaksHeaderCrc(a: seq<byte>, b: seq<byte>, j: nat, r: nat)
    requires |a| == |b| == WIRE_FRAME_SIZE && RawError(a).ParsedOk?
    requires Burst(a, b, j, r) && SameSlice(a, b, 40, 44)
    ensures SameSlice(a, b, 4, 48) <==> U32At(b, 44) == CrcValue(CrcInput(b))
  {
    RawParts(a);
    hide Burst, CrcValue, FromLe, Pow256, CrcInput, RawError;
    if U32At(b, 44) == CrcValue(CrcInput(b)) {
      HeaderSame(a, b, j, r);
    }
    if SameSlice(a, b, 4, 48) {
      SameHeaderSameCrc(a, b);
    }
  }

  lemma BurstBreaksPayloadCrc(a: seq<byte>, b: seq<byte>, j: nat, r: nat)
    requires |a| == |b| == WIRE_FRAME_SIZE && RawError(a).ParsedOk?
    requires Burst(a, b, j, r) && a != b
    requires SameSlice(a, b, 0, 4) && SameSlice(a, b, 4, 48)
    ensures U32At(b, 13680) != CrcValue(b[48..13680])
  {
    RawParts(a);
    hide Burst, CrcValue, FromLe, Pow256, CrcInput, RawError;
    if U32At(b, 13680) == CrcValue(b[48..13680]) {
      PayloadBurst(a, b, j, r);
      WholeFromParts(a, b);
    }
  }

  /** Every burst on an accepted frame is rejected, and with the class of the part it hit. */
  lemma BurstClass(a: seq<byte>, b: seq<byte>, j: nat, r: nat)
    requires Accepts(a) && Burst(a, b, j, r) && a != b
    ensures |a| == |b| == WIRE_FRAME_SIZE
    ensures ErrorOf(b) == DamageClass(a, b)
  {
    AcceptsIsRaw(a);
    assert |b| == WIRE_FRAME_SIZE by {
      hide Flips, LowBits, Accepts, RawError;
    }
    hide Burst, CrcValue, FromLe, Pow256, CrcInput, RawError, Accepts, ErrorOf, SameSlice;
    ErrorIsRaw(b);
    CrcsDecide(a, b);
    if !RawError(b).Malformed? && !RawError(b).UnexpectedProtocol? {
      assert SameSlice(a, b, 0, 4) && SameSlice(a, b, 40, 44);
      BurstBreaksHeaderCrc(a, b, j, r);
      if SameSlice(a, b, 4, 48) {
        BurstBreaksPayloadCrc(a, b, j, r);
      }
    }
  }

  // ---- edits of a few bytes

  lemma FewBytesAreBurst(a: seq<byte>, b: seq<byte>, lo: nat, hi: nat)
    requires SameOutside(a, b, lo, hi) && hi <= lo + 4
    ensures Burst(a, b, lo, 0)
  {
    hide Flips, LowBits;
    if lo < |a| {
      NoLowBits(Flips(a[lo], b[lo]));
    }
    if lo + 4 < |a| {
      FlipsSelf(a[lo + 4], 0);
    }
  }

  /** The edit leaves a slice beside it alone, and shows in a slice around it. */
  lemma EditInSlice(a: seq<byte>, b: seq<byte>, lo: nat, hi: nat, from: nat, to: nat)
    requires SameOutside(a, b, lo, hi) && a != b && from <= to <= |a|
    ensures hi <= from || to <= lo ==> SameSlice(a, b, from, to)
    ensures from <= lo && hi <= to ==> !SameSlice(a, b, from, to)
  {
    if from <= lo && hi <= to && SameSlice(a, b, from, to) {
      forall i | 0 <= i < |a|
        ensures a[i] == b[i]
      {
        if from <= i < to {
          assert a[from..to][i - from] == b[from..to][i - from];
        }
      }
    }
  }

  /** Any edit of at most four consecutive bytes of an accepted frame is rejected, every single-bit flip
      among them, and one that stays within a field is reported by the class of that field. */
  lemma FewBytesRejected(a: seq<byte>, b: seq<byte>, lo: nat, hi: nat)
    requires Accepts(a) && SameOutside(a, b, lo, hi) && hi <= lo + 4 && a != b
    ensures !Accepts(b)
    // header_len; payload_len
    ensures hi <= 4 || (40 <= lo && hi <= 44) ==> ErrorOf(b) == Malformed
    // magic, version, header_size; channel_count; sample_format
    ensures (4 <= lo && hi <= 12) || (32 <= lo && hi <= 34) || (36 <= lo && hi <= 38) ==>
              ErrorOf(b) == UnexpectedProtocol
    // module_id, flags, frame_id, timestamp_ns; reserved; header_crc
    ensures (12 <= lo && hi <= 32) || (38 <= lo && hi <= 40) || (44 <= lo && hi <= 48) ==> ErrorOf(b) == HeaderCrc
    // payload and payload_crc
    ensures 48 <= lo ==> ErrorOf(b) == PayloadCrc
  {
    hide Accepts, ErrorOf, Burst, FromLe, Pow256, SameOutside;
    FewBytesAreBurst(a, b, lo, hi);
    BurstRejected(a, b, lo, 0);
    BurstClass(a, b, lo, 0);
    EditInFrame(a, b, lo, hi);
  }

  lemma EditInFrame(a: seq<byte>, b: seq<byte>, lo: nat, hi: nat)
    requires |a| == |b| == WIRE_FRAME_SIZE && Accepts(a) && SameOutside(a, b, lo, hi) && a != b
    ensures hi <= 4 || (40 <= lo && hi <= 44) ==> DamageClass(a, b) == Malformed
    ensures (4 <= lo && hi <= 12) || (32 <= lo && hi <= 34) || (36 <= lo && hi <= 38) ==>
              DamageClass(a, b) == UnexpectedProtocol
    ensures (12 <= lo && hi <= 32) || (38 <= lo && hi <= 40) || (44 <= lo && hi <= 48) ==>
              DamageClass(a, b) == HeaderCrc
    ensures 48 <= lo ==> DamageClass(a, b) == PayloadCrc
  {
    RateInRange(a, b);
    hide Accepts, FromLe, Pow256, SameOutside, SameSlice, RateAllowed;
    EditInSlice(a, b, lo, hi, 0, 4);
    EditInSlice(a, b, lo, hi, 40, 44);
    EditInSlice(a, b, lo, hi, 4, 12);
    EditInSlice(a, b, lo, hi, 32, 34);
    EditInSlice(a, b, lo, hi, 34, 36);
    EditInSlice(a, b, lo, hi, 36, 38);
    EditInSlice(a, b, lo, hi, 4, 48);
  }

  lemma RateInRange(a: seq<byte>, b: seq<byte>)
    requires |a| == |b| == WIRE_FRAME_SIZE && Accepts(a)
    ensures SameSlice(a, b, 34, 36) ==> RateAllowed(b)
  {
    AcceptsIsRaw(a);
    hide FromLe, Pow256, CrcValue;
  }
}
