/** The independent Python checker (tools/frame_check/verify_bin.py): its own frame test,
    proved to agree with the C++ parser, and its counting loop over files. */
module VerifyBin {
  import opened Bytes
  import opened Frames
  import opened FrameParser
  import opened FrameCodec
  import opened CaptureFiles

  const HEADER_LEN := 44
  const CHANNELS := 1704
  const PAYLOAD_LEN := CHANNELS * 8
  const FRAME_BYTES := 4 + HEADER_LEN + PAYLOAD_LEN + 4

  // The problem strings of check_frame, by kind.
  datatype Finding = Fine | BadHeaderLen | BadField | BadHeaderCrc | BadPayloadCrc

  datatype FrameId = NoId | Id(value: nat)

  datatype Checked = Checked(frameId: FrameId, problem: Finding)

  /** check_frame, on the raw bytes; zlib.crc32 is the bit-by-bit definition. */
  function CheckFrame(frame: seq<byte>, rate: int): Checked
    requires |frame| == FRAME_BYTES
  {
    if U32At(frame, 0) != HEADER_LEN then Checked(NoId, BadHeaderLen)
    else
      var header := frame[4..4 + HEADER_LEN];
      var id := Id(U64At(header, 12));
      if U32At(header, 0) != 0x434D4231 || U16At(header, 4) != 2 || U16At(header, 6) != 44
         || U16At(header, 28) != CHANNELS || U16At(header, 30) != rate
         || U16At(header, 32) != 1 || U32At(header, 36) != PAYLOAD_LEN then Checked(id, BadField)
      else if CrcValue(header[..40] + [0, 0, 0, 0]) != U32At(header, 40) then Checked(id, BadHeaderCrc)
      else if CrcValue(frame[4 + HEADER_LEN..4 + HEADER_LEN + PAYLOAD_LEN]) != U32At(frame, FRAME_BYTES - 4)
      then Checked(id, BadPayloadCrc)
      else Checked(id, Fine)
  }

  /** The two validators accept the same frames: at any rate the protocol allows, the Python checker
      is content exactly when the C++ parser is and the decoded rate is the one asked for. */
  lemma ValidatorsAgree(frame: seq<byte>, rate: int)
    requires |frame| == FRAME_BYTES
    ensures 0 < rate <= MAX_SAMPLE_RATE_HZ && CheckFrame(frame, rate).problem.Fine?
       <==> Accepts(frame) && Deserialize(frame).frame.header.sampleRateHz == rate
  {
    RatesAgree(frame, rate);
    if Accepts(frame) {
      SerializeOfDecode(frame);
      DecodedRate(frame);
    }
  }

  lemma DecodedRate(frame: seq<byte>)
    requires |frame| == FRAME_BYTES && Deserialize(frame).Ok?
    ensures Deserialize(frame).frame.header.sampleRateHz == U16At(frame, 34)
    ensures Deserialize(frame).frame.header.frameId == U64At(frame, 16)
  {
    hide FromLe, Pow256, PayloadOf, HeaderOf;
    HeaderFieldsAt(frame);
  }

  lemma RatesAgree(frame: seq<byte>, rate: int)
    requires |frame| == FRAME_BYTES
    ensures 0 < rate <= MAX_SAMPLE_RATE_HZ && CheckFrame(frame, rate).problem.Fine?
       <==> Accepts(frame) && U16At(frame, 34) == rate
  {
    hide FromLe, Pow256, CrcValue, Accepts;
    AcceptsIsRaw(frame);
    SliceOfSlice(frame, 4, 8, 4);
    SliceOfSlice(frame, 8, 10, 2);
    SliceOfSlice(frame, 10, 12, 2);
    SliceOfSlice(frame, 32, 34, 2);
    SliceOfSlice(frame, 34, 36, 2);
    SliceOfSlice(frame, 36, 38, 2);
    SliceOfSlice(frame, 40, 44, 4);
    SliceOfSlice(frame, 44, 48, 4);
    assert frame[4..48][..40] == frame[4..44];
  }

  /** The kinds of problem agree too: the CRC problems are those the C++ parser reports, on frames of the
      rate asked for, and an unreadable length is the only case without an id. */
  lemma FindingsAgree(frame: seq<byte>, rate: int)
    requires |frame| == FRAME_BYTES && 0 < rate <= MAX_SAMPLE_RATE_HZ
    ensures var found := CheckFrame(frame, rate).problem;
            && (found.BadHeaderLen? <==> U32At(frame, 0) != 44)
            && (found.BadHeaderCrc? <==> ErrorOf(frame).HeaderCrc? && U16At(frame, 34) == rate)
            && (found.BadPayloadCrc? <==> ErrorOf(frame).PayloadCrc? && U16At(frame, 34) == rate)
            && (found.Fine? <==> ErrorOf(frame).ParsedOk? && U16At(frame, 34) == rate)
  {
    hide FromLe, Pow256, CrcValue, ErrorOf;
    ErrorIsRaw(frame);
    SliceOfSlice(frame, 4, 8, 4);
    SliceOfSlice(frame, 8, 10, 2);
    SliceOfSlice(frame, 10, 12, 2);
    SliceOfSlice(frame, 32, 34, 2);
    SliceOfSlice(frame, 34, 36, 2);
    SliceOfSlice(frame, 36, 38, 2);
    SliceOfSlice(frame, 40, 44, 4);
    SliceOfSlice(frame, 44, 48, 4);
    assert frame[4..48][..40] == frame[4..44];
  }

  /** Every frame that check_frame gives an id has it at its offset on the wire. */
  lemma CheckedId(frame: seq<byte>, rate: int)
    requires |frame| == FRAME_BYTES
    ensures CheckFrame(frame, rate).frameId
         == if U32At(frame, 0) != HEADER_LEN then NoId else Id(U64At(frame, FRAME_ID_WIRE_OFFSET))
  {
    hide FromLe, Pow256, CrcValue;
    SliceOfSlice(frame, 16, 24, 8);
  }

  // ---- the loop over files

  function BadCount(frames: seq<seq<byte>>, rate: int): nat
    requires FullSize(frames)
  {
    if |frames| == 0 then 0
    else BadCount(frames[..|frames| - 1], rate) + if CheckFrame(frames[|frames| - 1], rate).problem.Fine? then 0 else 1
  }

  /** What next_id is after `frames`. */
  function NextId(frames: seq<seq<byte>>, rate: int): nat
    requires FullSize(frames)
  {
    if |frames| == 0 then 0
    else match CheckFrame(frames[|frames| - 1], rate).frameId
         case NoId => NextId(frames[..|frames| - 1], rate) + 1
         case Id(v) => v + 1
  }

  function OrderErrors(frames: seq<seq<byte>>, rate: int): nat
    requires FullSize(frames)
  {
    if |frames| == 0 then 0
    else OrderErrors(frames[..|frames| - 1], rate)
         + if CheckFrame(frames[|frames| - 1], rate).frameId == Id(NextId(frames[..|frames| - 1], rate)) then 0 else 1
  }

  // ---- what the two counters count, from the raw bytes

  predicate HasId(f: seq<byte>)
    requires |f| == WIRE_FRAME_SIZE
  {
    U32At(f, 0) == 44
  }

  /** Frame j is the last one before position k whose id can be read. */
  ghost predicate LastWithId(frames: seq<seq<byte>>, k: nat, j: nat)
    requires FullSize(frames) && k <= |frames|
  {
    j < k && HasId(frames[j]) && forall i :: j < i < k ==> !HasId(frames[i])
  }

  ghost predicate NoIdYet(frames: seq<seq<byte>>, k: nat)
    requires FullSize(frames) && k <= |frames|
  {
    forall j :: 0 <= j < k ==> !HasId(frames[j])
  }

  /** The id due at position k: one more per frame than the last id that could be read, and counted from
      zero before any could. */
  ghost predicate Due(frames: seq<seq<byte>>, k: nat, id: nat)
    requires FullSize(frames) && k <= |frames|
  {
    && (forall j: nat :: LastWithId(frames, k, j) ==> id == U64At(frames[j], 16) + (k - j))
    && (NoIdYet(frames, k) ==> id == k)
  }

  ghost predicate InOrder(frames: seq<seq<byte>>, k: nat)
    requires FullSize(frames) && k < |frames|
  {
    HasId(frames[k]) && Due(frames, k, U64At(frames[k], 16))
  }

  ghost function OutOfOrder(frames: seq<seq<byte>>): set<nat>
    requires FullSize(frames)
  {
    set k: nat | k < |frames| && !InOrder(frames, k)
  }

  /** The frames that are not accepted at the rate. */
  ghost function Rejected(frames: seq<seq<byte>>, rate: int): set<nat>
    requires FullSize(frames)
  {
    set k: nat | k < |frames| && !(Accepts(frames[k]) && U16At(frames[k], 34) == rate)
  }

  lemma PrefixIds(frames: seq<seq<byte>>, n: nat, k: nat, j: nat)
    requires FullSize(frames) && k <= n <= |frames|
    ensures LastWithId(frames[..n], k, j) <==> LastWithId(frames, k, j)
    ensures NoIdYet(frames[..n], k) <==> NoIdYet(frames, k)
  {
    hide HasId;
    assert forall i :: 0 <= i < k ==> frames[..n][i] == frames[i];
  }

  lemma DueInPrefix(frames: seq<seq<byte>>, n: nat, k: nat, id: nat)
    requires FullSize(frames) && k <= n <= |frames|
    ensures Due(frames[..n], k, id) <==> Due(frames, k, id)
  {
    hide HasId, FromLe, Pow256, NoIdYet;
    forall j: nat
      ensures LastWithId(frames[..n], k, j) <==> LastWithId(frames, k, j)
    {
      PrefixIds(frames, n, k, j);
    }
    PrefixIds(frames, n, k, 0);
  }

  /** Exactly one id is due. */
  lemma DueOnce(frames: seq<seq<byte>>, k: nat, x: nat, y: nat)
    requires FullSize(frames) && k <= |frames| && Due(frames, k, x) && Due(frames, k, y)
    ensures x == y
  {
    hide HasId, FromLe, Pow256;
    if exists j :: 0 <= j < k && HasId(frames[j]) {
      var j := LastBefore(frames, k);
    }
  }

  lemma {:induction false} LastBefore(frames: seq<seq<byte>>, k: nat) returns (j: nat)
    requires FullSize(frames) && k <= |frames| && exists i :: 0 <= i < k && HasId(frames[i])
    ensures LastWithId(frames, k, j)
  {
    hide HasId;
    if HasId(frames[k - 1]) {
      j := k - 1;
    } else {
      j := LastBefore(frames, k - 1);
    }
  }

  lemma DueAfterId(frames: seq<seq<byte>>, n: nat)
    requires FullSize(frames) && n < |frames| && HasId(frames[n])
    ensures Due(frames, n + 1, U64At(frames[n], 16) + 1)
  {
    hide HasId, FromLe, Pow256;
    forall j: nat | LastWithId(frames, n + 1, j)
      ensures U64At(frames[n], 16) + 1 == U64At(frames[j], 16) + (n + 1 - j)
    {
    }
    assert !NoIdYet(frames, n + 1);
  }

  lemma DueAfterNoId(frames: seq<seq<byte>>, n: nat, id: nat)
    requires FullSize(frames) && n < |frames| && !HasId(frames[n]) && Due(frames, n, id)
    ensures Due(frames, n + 1, id + 1)
  {
    hide HasId, FromLe, Pow256;
    forall j: nat | LastWithId(frames, n + 1, j)
      ensures LastWithId(frames, n, j)
    {
      assert j != n;
    }
  }

  /** next_id is the id due. */
  lemma {:induction false} NextIdIsDue(frames: seq<seq<byte>>, rate: int)
    requires FullSize(frames)
    ensures Due(frames, |frames|, NextId(frames, rate))
  {
    hide CheckFrame, FromLe, Pow256, Due;
    if |frames| == 0 {
      NothingDue(frames);
    } else {
      var n := |frames| - 1;
      CheckedId(frames[n], rate);
      NextIdIsDue(frames[..n], rate);
      DueInPrefix(frames, n, n, NextId(frames[..n], rate));
      if HasId(frames[n]) {
        DueAfterId(frames, n);
      } else {
        DueAfterNoId(frames, n, NextId(frames[..n], rate));
      }
    }
  }

  lemma NothingDue(frames: seq<seq<byte>>)
    requires |frames| == 0
    ensures Due(frames, 0, 0)
  {
  }

  lemma OrderNext(frames: seq<seq<byte>>, n: nat, rate: int)
    requires FullSize(frames) && |frames| == n + 1
    ensures InOrder(frames, n) <==> CheckFrame(frames[n], rate).frameId == Id(NextId(frames[..n], rate))
  {
    hide CheckFrame, NextId, Due, FromLe, Pow256;
    CheckedId(frames[n], rate);
    NextIdIsDue(frames[..n], rate);
    DueInPrefix(frames, n, n, NextId(frames[..n], rate));
    if InOrder(frames, n) {
      DueOnce(frames, n, NextId(frames[..n], rate), U64At(frames[n], 16));
    }
  }

  /** order_errors is the number of frames that do not carry the id due: after a lost frame the count
      goes on from the id that was read. */
  lemma {:induction false} OrderErrorsCount(frames: seq<seq<byte>>, rate: int)
    requires FullSize(frames)
    ensures OrderErrors(frames, rate) == |OutOfOrder(frames)|
  {
    hide CheckFrame, InOrder, NextId;
    if |frames| > 0 {
      var n := |frames| - 1;
      OrderErrorsCount(frames[..n], rate);
      OrderNext(frames, n, rate);
      forall k: nat | k < n
        ensures InOrder(frames[..n], k) == InOrder(frames, k)
      {
        OrderInPrefix(frames, n, k);
      }
      if InOrder(frames, n) {
        assert OutOfOrder(frames) == OutOfOrder(frames[..n]);
      } else {
        assert OutOfOrder(frames) == OutOfOrder(frames[..n]) + {n};
      }
    }
  }

  lemma OrderInPrefix(frames: seq<seq<byte>>, n: nat, k: nat)
    requires FullSize(frames) && k < n <= |frames|
    ensures InOrder(frames[..n], k) == InOrder(frames, k)
  {
    hide Due, HasId, FromLe, Pow256;
    DueInPrefix(frames, n, k, U64At(frames[k], 16));
  }

  /** bad is the number of frames not accepted at the rate. */
  lemma {:induction false} BadFramesCount(frames: seq<seq<byte>>, rate: int)
    requires FullSize(frames) && 0 < rate <= MAX_SAMPLE_RATE_HZ
    ensures BadCount(frames, rate) == |Rejected(frames, rate)|
  {
    hide CheckFrame, Accepts, FromLe, Pow256;
    if |frames| > 0 {
      var n := |frames| - 1;
      BadFramesCount(frames[..n], rate);
      RatesAgree(frames[n], rate);
      if Accepts(frames[n]) && U16At(frames[n], 34) == rate {
        assert Rejected(frames, rate) == Rejected(frames[..n], rate);
      } else {
        assert Rejected(frames, rate) == Rejected(frames[..n], rate) + {n};
      }
    }
  }

  datatype Tally = Tally(frames: nat, bad: nat, orderErrors: nat, trailing: nat, nextId: nat)

  /** The counters after the frames `done`. */
  ghost predicate Counts(t: Tally, done: seq<seq<byte>>, rate: int) {
    && FullSize(done)
    && t.frames == |done|
    && t.bad == BadCount(done, rate)
    && t.orderErrors == OrderErrors(done, rate)
    && t.nextId == NextId(done, rate)
  }

  method CountFrame(t: Tally, chunk: seq<byte>, rate: int, ghost done: seq<seq<byte>>) returns (t': Tally)
    requires |chunk| == FRAME_BYTES && Counts(t, done, rate)
    ensures Counts(t', done + [chunk], rate) && t'.trailing == t.trailing
  {
    hide CheckFrame;
    var bad, orderErrors := t.bad, t.orderErrors;
    var checked := CheckFrame(chunk, rate);
    if checked.problem != Fine {
      bad := bad + 1;
    }
    if checked.frameId != Id(t.nextId) {
      orderErrors := orderErrors + 1;
    }
    var nextId := (match checked.frameId case NoId => t.nextId case Id(v) => v) + 1;
    t' := Tally(t.frames + 1, bad, orderErrors, t.trailing, nextId);
    assert (done + [chunk])[..|done|] == done;
  }

  method CountFile(t: Tally, file: seq<byte>, rate: int, ghost done: seq<seq<byte>>) returns (t': Tally)
    requires Counts(t, done, rate)
    ensures Counts(t', done + FramesOf(file), rate)
    ensures t'.trailing == t.trailing + TrailingOf(file)
  {
    hide CheckFrame, Counts;
    var stream := file;
    ghost var seen := done;
    t' := t;
    while |stream| >= FRAME_BYTES
      invariant seen + FramesOf(stream) == done + FramesOf(file)
      invariant TrailingOf(stream) == TrailingOf(file)
      invariant Counts(t', seen, rate) && t'.trailing == t.trailing
    {
      t' := CountFrame(t', stream[..FRAME_BYTES], rate, seen);
      seen := seen + [stream[..FRAME_BYTES]];
      stream := stream[FRAME_BYTES..];
    }
    // A short chunk, if any, ends the file.
    t' := t'.(trailing := t'.trailing + |stream|);
    assert seen == done + FramesOf(file);
    CountsIgnoresTrailing(t', t'.trailing - |stream|, seen, rate);
  }

  lemma CountsIgnoresTrailing(t: Tally, trailing: nat, done: seq<seq<byte>>, rate: int)
    ensures Counts(t, done, rate) <==> Counts(t.(trailing := trailing), done, rate)
  {
  }

  /** The loop over the files. */
  method CountFiles(files: seq<seq<byte>>, rate: int) returns (t: Tally)
    ensures Counts(t, AllFrames(Readables(files)), rate)
    ensures t.trailing == AllTrailing(Readables(files))
  {
    hide Counts, AllFrames, AllTrailing, Readables, FramesOf, TrailingOf;
    ghost var done: seq<seq<byte>> := [];
    t := Tally(0, 0, 0, 0, 0);
    NothingCounted(rate);
    NoFiles();
    for i := 0 to |files|
      invariant done == AllFrames(Readables(files[..i]))
      invariant t.trailing == AllTrailing(Readables(files[..i]))
      invariant Counts(t, done, rate)
    {
      assert files[..i + 1] == files[..i] + [files[i]];
      OneMoreFile(files[..i], files[i]);
      t := CountFile(t, files[i], rate, done);
      done := done + FramesOf(files[i]);
    }
    assert files[..|files|] == files;
  }

  lemma NoFiles()
    ensures AllFrames(Readables([])) == [] && AllTrailing(Readables([])) == 0
  {
  }

  lemma {:induction false} OneMoreFile(files: seq<seq<byte>>, file: seq<byte>)
    ensures AllFrames(Readables(files + [file])) == AllFrames(Readables(files)) + FramesOf(file)
    ensures AllTrailing(Readables(files + [file])) == AllTrailing(Readables(files)) + TrailingOf(file)
  {
    hide FramesOf, TrailingOf;
    var all := files + [file];
    assert Readables(all) == [Readable(all[0])] + Readables(all[1..]);
    if |files| == 0 {
      assert all[1..] == [] && FramesOf(file) + [] == FramesOf(file);
    } else {
      assert all[1..] == files[1..] + [file];
      OneMoreFile(files[1..], file);
      assert Readables(files) == [Readable(files[0])] + Readables(files[1..]);
    }
  }

  /** What a capture must be for "result=OK": some frame, nothing trailing, every frame accepted at the
      rate asked for with ids counted from zero, and as many as asked for. */
  ghost predicate Passes(files: seq<File>, rate: int, expectFrames: FrameId) {
    var frames := AllFrames(files);
    && |frames| > 0 && AllTrailing(files) == 0 && Counted(frames, rate)
    && (expectFrames.NoId? || expectFrames.value == |frames|)
  }

  /** main: the counters over all files in order, and the verdict. */
  method Verify(files: seq<seq<byte>>, rate: int, expectFrames: FrameId) returns (t: Tally, ok: bool)
    ensures Counts(t, AllFrames(Readables(files)), rate)
    ensures t.trailing == AllTrailing(Readables(files))
    ensures t.orderErrors == |OutOfOrder(AllFrames(Readables(files)))|
    ensures 0 < rate <= MAX_SAMPLE_RATE_HZ ==> t.bad == |Rejected(AllFrames(Readables(files)), rate)|
    ensures ok == (t.bad == 0 && t.orderErrors == 0 && t.trailing == 0 && t.frames > 0
                   && (expectFrames.NoId? || expectFrames.value == t.frames))
    ensures 0 < rate <= MAX_SAMPLE_RATE_HZ ==> (ok <==> Passes(Readables(files), rate, expectFrames))
  {
    hide AllFrames, AllTrailing, Readables, BadCount, OrderErrors, NextId, Counted, OutOfOrder, Rejected;
    t := CountFiles(files, rate);
    OrderErrorsCount(AllFrames(Readables(files)), rate);
    ok := t.bad == 0 && t.orderErrors == 0 && t.trailing == 0 && t.frames > 0;
    if expectFrames.Id? && t.frames != expectFrames.value {
      ok := false;
    }
    if 0 < rate <= MAX_SAMPLE_RATE_HZ {
      BadFramesCount(AllFrames(Readables(files)), rate);
      VerdictMeaning(t, AllFrames(Readables(files)), rate);
    }
  }

  lemma NothingCounted(rate: int)
    ensures Counts(Tally(0, 0, 0, 0, 0), [], rate)
  {
  }

  function Readables(files: seq<seq<byte>>): (r: seq<File>)
    ensures |r| == |files|
  {
    if |files| == 0 then [] else [Readable(files[0])] + Readables(files[1..])
  }

  /** Frame ids run 0, 1, 2, ... and every frame is accepted at the given rate. */
  ghost predicate Counted(frames: seq<seq<byte>>, rate: int)
    requires FullSize(frames)
  {
    forall k :: 0 <= k < |frames| ==>
      Accepts(frames[k]) && U16At(frames[k], 34) == rate && U64At(frames[k], FRAME_ID_WIRE_OFFSET) == k
  }

  /** No bad frame and no order error: exactly the accepted frames with ids counted from zero. */
  lemma {:induction false} NoErrors(frames: seq<seq<byte>>, rate: int)
    requires FullSize(frames) && 0 < rate <= MAX_SAMPLE_RATE_HZ
    ensures BadCount(frames, rate) == 0 && OrderErrors(frames, rate) == 0 <==> Counted(frames, rate)
    ensures Counted(frames, rate) ==> NextId(frames, rate) == |frames|
  {
    hide CheckFrame, Accepts, FromLe, Pow256;
    if |frames| > 0 {
      var n := |frames| - 1;
      NoErrors(frames[..n], rate);
      RatesAgree(frames[n], rate);
      CheckedId(frames[n], rate);
      AcceptedHeaderLen(frames[n]);
      if Counted(frames[..n], rate) && Accepts(frames[n]) && U16At(frames[n], 34) == rate
         && U64At(frames[n], FRAME_ID_WIRE_OFFSET) == n {
        forall k | 0 <= k < |frames|
          ensures Accepts(frames[k]) && U16At(frames[k], 34) == rate && U64At(frames[k], FRAME_ID_WIRE_OFFSET) == k
        {
          if k < n {
            assert frames[..n][k] == frames[k];
          }
        }
      }
      if Counted(frames, rate) {
        forall k | 0 <= k < n
          ensures Accepts(frames[..n][k]) && U16At(frames[..n][k], 34) == rate
               && U64At(frames[..n][k], FRAME_ID_WIRE_OFFSET) == k
        {
          assert frames[..n][k] == frames[k];
        }
      }
    }
  }

  lemma AcceptedHeaderLen(frame: seq<byte>)
    requires |frame| == FRAME_BYTES
    ensures Accepts(frame) ==> U32At(frame, 0) == HEADER_LEN
  {
  }

  /** What "result=OK" means: at least one frame, nothing trailing, every frame accepted at the
      rate asked for, and the ids count from zero. */
  lemma VerdictMeaning(t: Tally, frames: seq<seq<byte>>, rate: int)
    requires Counts(t, frames, rate) && 0 < rate <= MAX_SAMPLE_RATE_HZ
    ensures t.bad == 0 && t.orderErrors == 0 && t.frames > 0 <==> |frames| > 0 && Counted(frames, rate)
  {
    NoErrors(frames, rate);
  }
}
