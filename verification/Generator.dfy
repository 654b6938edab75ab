/** Simulated frames (sender/data_simulator.cpp) and the source file made of them
    (tools/frame_check/frame_gen.cpp). */
module Generator {
  import opened Bytes
  import opened CrcBits
  import opened Crc32
  import opened Frames
  import opened FrameMethods
  import opened FrameCodec
  import opened CaptureFiles
  import opened SegmentNames
  import opened CaptureSegments
  import opened CaptureWriters

  const WORD: nat := 0x1_0000_0000
  const LONG: nat := 0x1_0000_0000_0000_0000

  /** simulated_sample: re counts up, im is its complement, both as 32-bit words. */
  function SimulatedSample(frameId: u64, channel: nat): ComplexSample {
    var base := (frameId + channel) % LONG % WORD;
    ComplexSample(Signed(base), Signed(WORD - 1 - base))
  }

  function SimulatedPayload(frameId: u64): (p: seq<ComplexSample>)
    ensures |p| == CHANNEL_COUNT
  {
    seq(CHANNEL_COUNT, channel requires 0 <= channel => SimulatedSample(frameId, channel))
  }

  /** The header that fill_frame writes: defaults, with the four given fields. */
  function FilledHeader(frameId: u64, timestampNs: u64, moduleId: u16, rateHz: u16): FrameHeader {
    FrameHeader(FRAME_MAGIC, PROTOCOL_VERSION, HEADER_SIZE, moduleId, 0, frameId, timestampNs,
                CHANNEL_COUNT, rateHz, SAMPLE_FORMAT_COMPLEX_INT32, 0, PAYLOAD_BYTES, 0)
  }

  /** re is id + channel modulo 2^32 as a signed number, and im its bitwise complement. */
  lemma SampleMeaning(frameId: u64, channel: nat)
    ensures var s := SimulatedSample(frameId, channel);
            && s.im == -1 - s.re
            && (s.re as int - (frameId + channel) as int) % 0x1_0000_0000 == 0
  {
    var sum: nat := frameId as nat + channel;
    WrapTwice(sum);
    SignedWrapped(sum);
  }

  lemma WrapTwice(sum: nat)
    ensures sum % LONG % WORD == sum % WORD
  {
  }

  lemma SignedWrapped(sum: nat)
    ensures (Signed(sum % WORD) - sum) % WORD == 0
    ensures Signed(WORD - 1 - sum % WORD) == -1 - Signed(sum % WORD)
  {
    var q := sum / WORD;
    var d: int := if sum % WORD < 0x8000_0000 then -q else -q - 1;
    assert Signed(sum % WORD) - sum == d * WORD;
  }

  method FillFrame(frame: Frame, frameId: u64, timestampNs: u64, moduleId: u16, rateHz: u16) returns (f: Frame)
    ensures f.header == FilledHeader(frameId, timestampNs, moduleId, rateHz)
    ensures f.payload == SimulatedPayload(frameId) && f.payloadCrc == frame.payloadCrc
  {
    var payload := frame.payload;
    if |payload| != CHANNEL_COUNT {
      payload := seq(CHANNEL_COUNT, _ => ComplexSample(0, 0));
    }
    for channel := 0 to |payload|
      invariant |payload| == CHANNEL_COUNT
      invariant forall k :: 0 <= k < channel ==> payload[k] == SimulatedSample(frameId, k)
    {
      payload := payload[channel := SimulatedSample(frameId, channel)];
    }
    f := Frame(FilledHeader(frameId, timestampNs, moduleId, rateHz), payload, frame.payloadCrc);
  }

  // ---- the random pattern

  function Right12(s: bv64): bv64 { s ^ (s >> 12) }

  function Left25(s: bv64): bv64 { s ^ (s << 25) }

  function Right27(s: bv64): bv64 { s ^ (s >> 27) }

  function Scrambled(s: bv64): bv64 { s * 0x2545F4914F6CDD1D }

  function NextState(s: bv64): bv64 {
    Right27(Left25(Right12(s)))
  }

  function LowHalf(word: bv64): u32 {
    Value((word & 0xFFFF_FFFF) as bv32)
  }

  function HighHalf(word: bv64): u32 {
    Value((word >> 32) as bv32)
  }

  lemma Right12Nonzero(s: bv64)
    requires s != 0
    ensures Right12(s) != 0
  {
  }

  lemma Left25Nonzero(s: bv64)
    requires s != 0
    ensures Left25(s) != 0
  {
  }

  lemma Right27Nonzero(s: bv64)
    requires s != 0
    ensures Right27(s) != 0
  {
  }

  /** The generator's published constants: the first three draws from state 1. */
  lemma FirstDraws()
    ensures Scrambled(NextState(1)) == 0x47E4CE4B896CDD1D
    ensures Scrambled(NextState(NextState(1))) == 0xABCFA6A8E079651D
    ensures Scrambled(NextState(NextState(NextState(1)))) == 0xB9D10D8FEB731F57
  {
    assert NextState(1) == 0x2000001;
    assert NextState(0x2000001) == 0x4004000802801;
    assert NextState(0x4004000802801) == 0xD004003202803;
  }

  lemma StateStaysNonzero(s: bv64)
    requires s != 0
    ensures NextState(s) != 0
  {
    hide Right12, Left25, Right27;
    Right12Nonzero(s);
    Left25Nonzero(Right12(s));
    Right27Nonzero(Left25(Right12(s)));
  }

  /** The state after n draws. */
  function StateAfter(seed: bv64, n: nat): bv64 {
    if n == 0 then seed else NextState(StateAfter(seed, n - 1))
  }

  /** The generator never gets stuck: from a nonzero seed no state is zero. */
  lemma {:induction false} StateNeverZero(seed: bv64, n: nat)
    requires seed != 0
    ensures StateAfter(seed, n) != 0
  {
    hide NextState;
    if n > 0 {
      StateNeverZero(seed, n - 1);
      StateStaysNonzero(StateAfter(seed, n - 1));
    }
  }

  /** A nonzero seed is the first state, zero stands for one, and so no draw comes from state zero. */
  lemma FirstStateUsable(o: Options, n: nat)
    ensures FirstState(o) == FirstState(o.(seed := if o.seed == 0 then 1 else o.seed))
    ensures o.seed != 0 ==> FirstState(o) == o.seed
    ensures StateAfter(FirstState(o), n) != 0
  {
    hide StateAfter;
    StateNeverZero(FirstState(o), n);
  }

  lemma {:induction false} DrawsAdd(seed: bv64, m: nat, n: nat)
    ensures StateAfter(StateAfter(seed, m), n) == StateAfter(seed, m + n)
  {
    hide NextState;
    if n > 0 {
      DrawsAdd(seed, m, n - 1);
    }
  }

  /** The sample made of draw n: the low half of the word first. */
  function RandomSample(seed: bv64, n: nat): ComplexSample {
    var word := Scrambled(StateAfter(seed, n + 1));
    ComplexSample(Signed(LowHalf(word)), Signed(HighHalf(word)))
  }

  /** Eight bytes are the 64-bit word, little-endian. */
  predicate IsWord(b: seq<byte>, word: bv64)
    requires |b| == 8
  {
    && Word(b[0]) as bv64 == Octet(word, 0) && Word(b[1]) as bv64 == Octet(word, 1)
    && Word(b[2]) as bv64 == Octet(word, 2) && Word(b[3]) as bv64 == Octet(word, 3)
    && Word(b[4]) as bv64 == Octet(word, 4) && Word(b[5]) as bv64 == Octet(word, 5)
    && Word(b[6]) as bv64 == Octet(word, 6) && Word(b[7]) as bv64 == Octet(word, 7)
  }

  lemma SampleIsWord(word: bv64)
    ensures IsWord(SampleToBytes(ComplexSample(Signed(LowHalf(word)), Signed(HighHalf(word)))), word)
  {
    hide Word, Lane, Octet, LowHalf, HighHalf, SampleToBytes, Signed;
    HalvesOnWire(word);
    LanesOfLowHalf(word);
    LanesOfHighHalf(word);
  }

  /** On the wire a random sample is its draw, little-endian. */
  lemma DrawOnWire(seed: bv64, n: nat)
    ensures IsWord(SampleToBytes(RandomSample(seed, n)), Scrambled(StateAfter(seed, n + 1)))
  {
    hide Scrambled, StateAfter, LowHalf, HighHalf, SampleToBytes, Signed, IsWord;
    SampleIsWord(Scrambled(StateAfter(seed, n + 1)));
  }

  lemma HalvesOnWire(word: bv64)
    ensures var b := SampleToBytes(ComplexSample(Signed(LowHalf(word)), Signed(HighHalf(word))));
            var low, high := (word & 0xFFFF_FFFF) as bv32, (word >> 32) as bv32;
            && Word(b[0]) == Lane(low, 0) && Word(b[1]) == Lane(low, 1)
            && Word(b[2]) == Lane(low, 2) && Word(b[3]) == Lane(low, 3)
            && Word(b[4]) == Lane(high, 0) && Word(b[5]) == Lane(high, 1)
            && Word(b[6]) == Lane(high, 2) && Word(b[7]) == Lane(high, 3)
  {
    hide Word, Lane, FromLe, Le;
    LeOfFromLe(WordBytes((word & 0xFFFF_FFFF) as bv32));
    LeOfFromLe(WordBytes((word >> 32) as bv32));
  }

  /** The random payload drawn after `from` earlier draws. */
  function RandomPayload(seed: bv64, from: nat): (p: seq<ComplexSample>)
    ensures |p| == CHANNEL_COUNT
  {
    seq(CHANNEL_COUNT, k requires 0 <= k => RandomSample(seed, from + k))
  }

  /** xorshift64*: the word is the new state times a constant. */
  method XorShift64Star(state: bv64) returns (next: bv64, word: bv64)
    ensures next == NextState(state) && word == Scrambled(next)
  {
    hide Right12, Left25, Right27, Scrambled;
    next := Right12(state);
    next := Left25(next);
    next := Right27(next);
    word := Scrambled(next);
  }

  /** Overwrites every sample with a random one. */
  method FillRandom(frame: Frame, state: bv64, ghost seed: bv64, ghost from: nat) returns (f: Frame, next: bv64)
    requires |frame.payload| == CHANNEL_COUNT && state == StateAfter(seed, from)
    ensures f == frame.(payload := RandomPayload(seed, from)) && next == StateAfter(seed, from + CHANNEL_COUNT)
  {
    hide NextState, Scrambled, LowHalf, HighHalf;
    var payload := frame.payload;
    next := state;
    for i := 0 to |payload|
      invariant |payload| == |frame.payload| && next == StateAfter(seed, from + i)
      invariant forall k :: 0 <= k < i ==> payload[k] == RandomSample(seed, from + k)
    {
      var word;
      next, word := XorShift64Star(next);
      assert next == StateAfter(seed, from + i + 1);
      payload := payload[i := ComplexSample(Signed(LowHalf(word)), Signed(HighHalf(word)))];
    }
    f := frame.(payload := payload);
  }

  // ---- the source file

  // What a generated capture depends on; the seed is used by the random pattern only.
  datatype Options = Options(moduleId: u16, rateHz: u16, random: bool, seed: bv64)

  /** timestamp_ns of frame id: id * 10^9 / rate, in unsigned 64-bit arithmetic. */
  function TimestampNs(id: u64, rateHz: u16): u64
    requires rateHz > 0
  {
    (id * 1_000_000_000) % LONG / rateHz
  }

  /** The time of frame id in nanoseconds, id / rate seconds rounded down, as long as the product does not
      wrap; beyond that of the wrapped product. */
  lemma TimestampMeaning(id: u64, rateHz: u16)
    requires rateHz > 0
    ensures var t, product := TimestampNs(id, rateHz), id * 1_000_000_000;
            && t * rateHz <= product % 0x1_0000_0000_0000_0000 < (t + 1) * rateHz
            && (product < 0x1_0000_0000_0000_0000 ==> t * rateHz <= product < (t + 1) * rateHz)
  {
    var product: nat := id * 1_000_000_000;
    QuotientSpan(product % LONG, rateHz);
  }

  lemma QuotientSpan(k: nat, n: nat)
    requires n > 0
    ensures k / n * n <= k < (k / n + 1) * n
  {
  }

  /** The generator's first state: zero is replaced by one. */
  function FirstState(o: Options): bv64 {
    if o.seed == 0 then 1 else o.seed
  }

  function PayloadFor(o: Options, id: u64): (p: seq<ComplexSample>)
    ensures |p| == CHANNEL_COUNT
  {
    if o.random then RandomPayload(FirstState(o), CHANNEL_COUNT * id) else SimulatedPayload(id)
  }

  /** Channel k of frame id: the counter pattern, or draw number 1704 * id + k + 1 from the seed. */
  lemma PayloadMeaning(o: Options, id: u64, k: nat)
    requires k < 1704
    ensures !o.random ==>
              var s := PayloadFor(o, id)[k];
              s.im == -1 - s.re && (s.re as int - (id + k) as int) % 0x1_0000_0000 == 0
    ensures o.random ==>
              IsWord(SampleToBytes(PayloadFor(o, id)[k]), Scrambled(StateAfter(FirstState(o), 1704 * id + k + 1)))
  {
    hide Scrambled, StateAfter, IsWord, SampleToBytes, SimulatedSample, RandomSample, FirstState;
    SampleMeaning(id, k);
    DrawOnWire(FirstState(o), 1704 * id + k);
  }

  /** The frame generated with the given id. */
  function FrameFor(o: Options, id: u64): Frame
    requires o.rateHz > 0
  {
    Frame(FilledHeader(id, TimestampNs(id, o.rateHz), o.moduleId, o.rateHz), PayloadFor(o, id), 0)
  }

  ghost predicate AllGenerated(fs: seq<seq<byte>>, o: Options)
    requires o.rateHz > 0
  {
    |fs| < LONG && forall k :: 0 <= k < |fs| ==> fs[k] == Serialize(FrameFor(o, k))
  }

  /** What readers see of a generated frame. */
  lemma GeneratedFrame(o: Options, id: u64)
    requires 0 < o.rateHz <= MAX_SAMPLE_RATE_HZ
    ensures var bytes := Serialize(FrameFor(o, id));
            && |bytes| == WIRE_FRAME_SIZE && Accepts(bytes)
            && Deserialize(bytes).Ok?
            && Deserialize(bytes).frame.payload == PayloadFor(o, id)
            && var h := Deserialize(bytes).frame.header;
               && h.frameId == id && h.moduleId == o.moduleId && h.sampleRateHz == o.rateHz
               && h.timestampNs == TimestampNs(id, o.rateHz) && h.flags == 0 && h.reserved == 0
  {
    hide Serialize, Deserialize, Validate, TimestampNs, PayloadFor;
    var f := FrameFor(o, id);
    SerializedAccepted(f);
    DecodeOfSerialize(f);
    Parts(f);
  }

  /** One round of the generation loop: fill, randomise, serialise. */
  method GenerateOne(frame: Frame, o: Options, id: u64, state: bv64) returns (f: Frame, next: bv64, bytes: seq<byte>)
    requires o.rateHz > 0 && frame.payloadCrc == 0
    requires o.random ==> state == StateAfter(FirstState(o), CHANNEL_COUNT * id)
    ensures f == FrameFor(o, id) && bytes == Serialize(f) && |bytes| == WIRE_FRAME_SIZE
    ensures o.random ==> next == StateAfter(FirstState(o), CHANNEL_COUNT * (id + 1))
  {
    hide Serialize, TimestampNs, SimulatedPayload, RandomPayload, StateAfter, FirstState, FilledHeader;
    f := FillFrame(frame, id, TimestampNs(id, o.rateHz), o.moduleId, o.rateHz);
    next := state;
    if o.random {
      f, next := FillRandom(f, state, FirstState(o), CHANNEL_COUNT * id);
      assert CHANNEL_COUNT * id + CHANNEL_COUNT == CHANNEL_COUNT * (id + 1);
    }
    bytes := SerializeFrameInto(f);
    SerializedSize(o, id);
  }

  /** The generation loop: `count` frames through one writer sized to hold them all in one segment.
      `disks` answers the successive writes. */
  method WriteFrames(writer: CaptureWriter, count: u64, o: Options, disks: seq<Disk>) returns (ok: bool)
    requires count > 0 && o.rateHz > 0 && |disks| == count
    requires writer.Valid() && writer.actions == [] && writer.framesPerSegment == count && writer.initial == map[]
    requires writer.streamGood && writer.frames == []
    modifies writer
    ensures writer.Valid() && AllGenerated(writer.frames, o)
    ensures ok ==> |writer.frames| == count && writer.streamGood
    ensures ok ==> FailsOnlyBetweenSegments(map[], count, writer.actions)
    requires writer.currentSegment == -1
    ensures ok ==> writer.streamOpen
    ensures ok <==> !disks[0].OpenFails? && forall d :: d in disks ==> !d.WriteFails?
  {
    hide Serialize, After, FrameFor, StartsSegment, FirstState, StateAfter, Written;
    var state := FirstState(o);
    assert state == StateAfter(FirstState(o), CHANNEL_COUNT * 0) by { NoDraws(FirstState(o)); }
    var frame := Frame(FilledHeader(0, 0, 0, 0), [], 0);
    for id := 0 to count
      invariant writer.Valid() && writer.streamGood
      invariant o.random ==> state == StateAfter(FirstState(o), CHANNEL_COUNT * id)
      invariant frame.payloadCrc == 0 && |writer.frames| == id && AllGenerated(writer.frames, o)
      invariant FailsOnlyBetweenSegments(map[], count, writer.actions)
      invariant writer.currentSegment == (if id == 0 then -1 else 0) && (id > 0 ==> writer.streamOpen)
      invariant id > 0 ==> !disks[0].OpenFails?
      invariant forall k :: 0 <= k < id ==> !disks[k].WriteFails?
    {
      var bytes;
      ghost var before := writer.actions;
      frame, state, bytes := GenerateOne(frame, o, id, state);
      assert frame.payloadCrc == 0 by { FrameForFields(o, id); }
      WriteInOneSegment(writer.State(), count, bytes, disks[id]);
      ok := writer.Write(bytes, disks[id]);
      if !ok {
        assert disks[id] in disks;
        return false;
      }
      GoodWrite(map[], count, before, WriteFrame(bytes, disks[id]));
    }
    return true;
  }

  /** A write to the one segment fails only if the first open or the write itself fails. */
  lemma WriteInOneSegment(w: Storage, count: nat, frame: seq<byte>, disk: Disk)
    requires |w.frames| < count && w.good && |frame| == WIRE_FRAME_SIZE
    requires w.current == (if |w.frames| == 0 then -1 else 0) && (|w.frames| > 0 ==> w.open)
    ensures var a := Written(w, count, frame, disk);
            && (a.ok <==> !disk.WriteFails? && (|w.frames| == 0 ==> !disk.OpenFails?))
            && (a.ok ==> a.storage.current == 0 && a.storage.open)
  {
    hide SegmentName, SegmentOf, First;
    FirstZero(count);
    SegmentUnique(|w.frames|, count, 0);
  }

  lemma AllFullSize(fs: seq<seq<byte>>, o: Options)
    requires o.rateHz > 0 && AllGenerated(fs, o)
    ensures FullSize(fs)
  {
    hide Serialize, FrameFor;
    forall k | 0 <= k < |fs|
      ensures |fs[k]| == WIRE_FRAME_SIZE
    {
      SerializedSize(o, k);
    }
  }

  lemma SerializedSize(o: Options, id: u64)
    requires o.rateHz > 0
    ensures |Serialize(FrameFor(o, id))| == WIRE_FRAME_SIZE
  {
    hide Serialize, TimestampNs, PayloadFor;
    Parts(FrameFor(o, id));
  }

  lemma NoDraws(seed: bv64)
    ensures StateAfter(seed, 0) == seed
  {
  }

  lemma FrameForFields(o: Options, id: u64)
    requires o.rateHz > 0
    ensures FrameFor(o, id).payloadCrc == 0
  {
  }

  /** main of frame_gen: the frames written into an empty temporary directory, flushed, and the one
      segment moved to the output. */
  method Generate(count: u64, o: Options, disks: seq<Disk>, flushWorks: bool)
    returns (ok: bool, output: seq<byte>, ghost frames: seq<seq<byte>>)
    requires count > 0 && o.rateHz > 0 && |disks| == count
    ensures ok ==> |frames| == count && AllGenerated(frames, o) && output == Concat(frames)
    ensures ok <==> !disks[0].OpenFails? && (forall d :: d in disks ==> !d.WriteFails?) && flushWorks
  {
    hide After, AllGenerated, FailsOnlyBetweenSegments, Holds;
    var writer := new CaptureWriter(map[], count);
    NothingFails(map[], count);
    ok := WriteFrames(writer, count, o, disks);
    frames, output := writer.frames, [];
    if !ok {
      return;
    }
    ghost var before, actions := writer.State(), writer.actions;
    ok := writer.Flush(flushWorks);
    if !ok {
      return;
    }
    HoldsExactly(map[], count, actions);
    AllFullSize(frames, o);
    GeneratedFile(before.directory, frames);
    output := writer.directory[SegmentName(0)];
  }

  /** The generated file: one segment that holds all the frames end to end. */
  lemma GeneratedFile(files: map<string, seq<byte>>, frames: seq<seq<byte>>)
    requires |frames| > 0 && FullSize(frames) && Holds(files, map[], frames, |frames|)
    ensures files == map[SegmentName(0) := Concat(frames)]
  {
    OneSegmentOnly(|frames|);
    WholeContent(frames);
    OneEntry(files, frames);
  }

  lemma OneEntry(files: map<string, seq<byte>>, frames: seq<seq<byte>>)
    requires HoldsSegments(files, frames, |frames|, 1) && KeepsOthers(files, map[], 1)
    requires First(0, |frames|) <= |frames| && Content(frames, |frames|, 0) == Concat(frames)
    ensures files == map[SegmentName(0) := Concat(frames)]
  {
    hide SegmentName, Content, First, Concat;
    assert SegmentName(0) in files && files[SegmentName(0)] == Concat(frames);
    hide HoldsSegments;
    OnlySegment(files);
    OnlyKey(files, SegmentName(0));
  }

  lemma OnlySegment(files: map<string, seq<byte>>)
    requires KeepsOthers(files, map[], 1)
    ensures forall name :: name in files ==> name == SegmentName(0)
  {
    hide SegmentName, IsSegment;
    forall name | name in files
      ensures name == SegmentName(0)
    {
      FirstSegment(name);
    }
  }

  lemma FirstSegment(name: string)
    requires IsSegment(name, 1)
    ensures name == SegmentName(0)
  {
    hide SegmentName;
  }

  lemma OnlyKey(files: map<string, seq<byte>>, name: string)
    requires name in files && forall other :: other in files ==> other == name
    ensures files == map[name := files[name]]
  {
  }

  lemma WholeContent(frames: seq<seq<byte>>)
    requires |frames| > 0
    ensures First(0, |frames|) == 0 && Content(frames, |frames|, 0) == Concat(frames)
  {
    FirstZero(|frames|);
    FirstNext(0, |frames|);
    hide First;
    assert frames[0..|frames|] == frames;
  }

  lemma OneFile(f: File)
    ensures AllFrames([f]) == FileFrames(f) && AllTrailing([f]) == FileTrailing(f)
  {
    assert [f][1..] == [];
  }

  lemma OneSegmentOnly(n: nat)
    requires n > 0
    ensures SegmentCount(n, n) == 1
  {
    hide First, SegmentOf;
    FirstZero(n);
    SegmentUnique(n - 1, n, 0);
  }
}
