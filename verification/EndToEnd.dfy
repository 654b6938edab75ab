/** The whole data path: generated frames, sent over any chunking, received by the two threads,
    written in segments, read back in name order, compared with the source. */
module EndToEnd {
  import opened Bytes
  import opened CrcDetection
  import opened Frames
  import opened FrameDetection
  import opened CaptureFiles
  import opened CaptureSegments
  import opened CaptureWriters
  import opened CaptureDirectories
  import opened FrameCompare
  import opened Receiver
  import opened ReceiverTheorems
  import opened Generator
  import BitErrors
  import LossDetectors
  import VerifyBin

  // ---- generated captures

  lemma GeneratedIds(fs: seq<seq<byte>>, o: Options)
    requires 0 < o.rateHz <= MAX_SAMPLE_RATE_HZ && AllGenerated(fs, o)
    ensures FullSize(fs)
    ensures FrameCompare.Clean(fs)
    ensures forall k :: 0 <= k < |fs| ==> IdOf(fs[k]) == k
  {
    hide Serialize, FrameFor, Deserialize, Validate, Accepts, TimestampNs, PayloadFor;
    forall k | 0 <= k < |fs|
      ensures |fs[k]| == WIRE_FRAME_SIZE && Accepts(fs[k]) && IdOf(fs[k]) == k
    {
      GeneratedFrame(o, k);
    }
  }

  lemma GeneratedIsCounted(fs: seq<seq<byte>>, o: Options)
    requires 0 < o.rateHz <= MAX_SAMPLE_RATE_HZ && AllGenerated(fs, o)
    ensures FullSize(fs) && VerifyBin.Counted(fs, o.rateHz)
  {
    hide Serialize, FrameFor, Deserialize, Validate, Accepts, TimestampNs, PayloadFor, FromLe, Pow256;
    forall k | 0 <= k < |fs|
      ensures |fs[k]| == WIRE_FRAME_SIZE && Accepts(fs[k])
      ensures U16At(fs[k], 34) == o.rateHz && U64At(fs[k], FRAME_ID_WIRE_OFFSET) == k
    {
      GeneratedFrame(o, k);
      VerifyBin.DecodedRate(fs[k]);
    }
  }

  /** The independent checker, asked for all the frames, passes a capture that is a prefix of a generated
      source if and only if it is the whole source; however the capture is cut into files. */
  lemma CheckerPasses(fs: seq<seq<byte>>, o: Options, files: seq<File>)
    requires 0 < o.rateHz <= MAX_SAMPLE_RATE_HZ && |fs| > 0 && AllGenerated(fs, o)
    requires AllFrames(files) <= fs && AllTrailing(files) == 0
    ensures VerifyBin.Passes(files, o.rateHz, VerifyBin.Id(|fs|)) <==> AllFrames(files) == fs
  {
    GeneratedIsCounted(fs, o);
    hide AllGenerated, AllFrames, AllTrailing, VerifyBin.Counted;
  }

  // ---- through the receiver

  /** Frame k of a stream that may have broken off. */
  lemma FrameOfStream(c: Config, frames: seq<seq<byte>>, k: nat)
    requires FullSize(frames) && c.stream <= Concat(frames) && WIRE_FRAME_SIZE * (k + 1) <= |c.stream|
    ensures k < |frames| && StreamFrame(c, k) == frames[k]
  {
    Transport.NextPieceIsFrame(frames, c.stream, k, StreamFrame(c, k));
  }

  /** What the receiver published of a stream of frames, complete or broken off, is a prefix of those
      frames. */
  lemma PublishedOfFrames(c: Config, s: State, frames: seq<seq<byte>>)
    requires c.capacity > 0 && Reachable(c, s)
    requires FullSize(frames) && c.stream <= Concat(frames)
    ensures s.published <= frames
  {
    hide Reachable, Concat, FullSize;
    if |s.published| > 0 {
      PublishedFrame(c, s, frames, |s.published| - 1);
    }
    forall k | 0 <= k < |s.published|
      ensures s.published[k] == frames[k]
    {
      PublishedFrame(c, s, frames, k);
    }
  }

  lemma PublishedFrame(c: Config, s: State, frames: seq<seq<byte>>, k: nat)
    requires c.capacity > 0 && Reachable(c, s) && k < |s.published|
    requires FullSize(frames) && c.stream <= Concat(frames)
    ensures k < |frames| && s.published[k] == frames[k]
  {
    hide Receiver.Clean, Reachable, Concat, StreamFrame, FullSize;
    OnlyCleanFrames(c, s, k);
    FrameOfStream(c, frames, k);
  }

  /** On a generated stream the loss detector sees consecutive ids, so it reports no gap, no
      duplicate and no reordering, however far the run got. */
  lemma NoLossReported(c: Config, s: State, frames: seq<seq<byte>>, o: Options)
    requires 0 < o.rateHz <= MAX_SAMPLE_RATE_HZ && AllGenerated(frames, o)
    requires c.stream <= Concat(frames) && c.capacity > 0
    requires Reachable(c, s) && !s.producer.Publishing? && |s.observed| > 0
    ensures var t := LossDetectors.StatsAfter(s.observed);
            t.frameCount == |s.published| && t.missingFrameCount == 0 && t.duplicateCount == 0 && t.reorderCount == 0
  {
    hide AllGenerated, Deserialize, Receiver.Clean, Reachable, FrameCompare.Clean, IdOf, Accepts, Concat, StreamFrame;
    GeneratedIds(frames, o);
    PublishedOfFrames(c, s, frames);
    ReachableObserved(c, s);
    forall k | 0 <= k < |s.observed|
      ensures s.observed[k] == k
    {
      OnlyCleanFrames(c, s, k);
      assert s.published[k] == frames[k] && IdOf(frames[k]) == k;
      IdOfDecoded(frames[k]);
    }
    assert LossDetectors.Consecutive(s.observed);
    LossDetectors.PerfectExactly(s.observed);
    LossDetectors.StatsAccount(s.observed);
  }

  lemma IdOfDecoded(f: seq<byte>)
    requires |f| == WIRE_FRAME_SIZE && Accepts(f)
    ensures Deserialize(f).Ok? && Deserialize(f).frame.header.frameId == IdOf(f)
  {
    hide FromLe, HeaderOf, PayloadOf;
  }

  lemma ReachableObserved(c: Config, s: State)
    requires c.capacity > 0 && Reachable(c, s) && !s.producer.Publishing?
    ensures |s.observed| == |s.published|
  {
    hide Receiver.Clean;
    ReachableInv(c, s);
  }

  // ---- the comparison with the source

  /** A capture that is a prefix of a clean source: the rest, and only the rest, is missing. */
  lemma {:induction false} PrefixIsMissing(e: seq<seq<byte>>, a: seq<seq<byte>>)
    requires FullSize(e) && FullSize(a) && a <= e
    ensures var t := Merge(e, a);
            t.missing == |e| - |a| && t.unexpected == 0 && t.mismatched == 0 && t.bitErrors == 0 && t.identical == |a|
    decreases |e|
  {
    hide IdOf, Accepts, BitErrors.Hamming;
    if |e| > 0 {
      if |a| > 0 {
        assert a[0] == e[0];
        PrefixIsMissing(e[1..], a[1..]);
      } else {
        PrefixIsMissing(e[1..], a);
      }
    }
  }

  /** Reading back what the worker wrote. */
  lemma ReadBack(frames: seq<seq<byte>>, written: seq<seq<byte>>, files: map<string, seq<byte>>,
                 initial: map<string, seq<byte>>, perSegment: nat, names: seq<string>)
    requires FullSize(frames) && written <= frames
    requires perSegment > 0 && |frames| <= 1_000_000 * perSegment
    requires Holds(files, initial, written, perSegment)
    requires forall name :: name in initial ==> !HasBinExtension(name)
    requires Ascending(names) && forall name :: name in names <==> IsCapture(OnDisk(files), name)
    ensures AllFrames(FilesOf(OnDisk(files), names)) == written && AllTrailing(FilesOf(OnDisk(files), names)) == 0
  {
    hide First, HasBinExtension, Holds, IsCapture;
    assert FullSize(written);
    WrittenReadsBack(files, initial, written, perSegment, names);
  }

  /** A source and a prefix of it, compared. */
  lemma ComparedWithSource(frames: seq<seq<byte>>, written: seq<seq<byte>>)
    requires FullSize(frames) && FullSize(written) && |frames| > 0 && FrameCompare.Clean(frames) && written <= frames
    ensures Verdict(frames, written, 0, 0) <==> written == frames
    ensures var t := Merge(frames, written);
            t.missing == |frames| - |written| && t.unexpected == 0 && t.mismatched == 0 && t.bitErrors == 0
  {
    hide IdOf, Accepts, Merge, Verdict;
    PrefixIsMissing(frames, written);
    VerdictExactly(frames, written, 0, 0);
  }

  /** The data path: frames generated with ids 0 to n - 1 into a source file, delivered as one stream that
      recv may cut anywhere, published and written by a run of the receiver that returns 0, stored in
      segments of any size within the naming bound, and read back in name order. Both checkers are
      content exactly when the worker's last look at the ring saw the last frame published; otherwise
      the comparison says how many frames were published after that look: those are missing. */
  lemma DataPath(c: Config, events: seq<Event>, o: Options, frames: seq<seq<byte>>,
                 files: map<string, seq<byte>>, initial: map<string, seq<byte>>, perSegment: nat, names: seq<string>)
    requires 0 < o.rateHz <= MAX_SAMPLE_RATE_HZ && |frames| > 0 && AllGenerated(frames, o)
    requires c.stream <= Concat(frames) && c.expected == |frames| && c.capacity > 0 && !c.resample
    requires Exec(c, events).At?
    requires var s := Exec(c, events).state;
             s.producer.Ended? && ReturnCode(c, s) == 0 && Stored(files, initial, s.written, perSegment)
    requires perSegment > 0 && |frames| <= 1_000_000 * perSegment
    requires forall name :: name in initial ==> !HasBinExtension(name)
    requires Ascending(names) && forall name :: name in names <==> IsCapture(OnDisk(files), name)
    ensures var source, captured := [Readable(Concat(frames))], FilesOf(OnDisk(files), names);
            var e, a := AllFrames(source), AllFrames(captured);
            && e == frames
            && (Verdict(e, a, AllTrailing(source), AllTrailing(captured)) <==> LastPoll(events) == |frames|)
            && (VerifyBin.Passes(captured, o.rateHz, VerifyBin.Id(|frames|)) <==> LastPoll(events) == |frames|)
            && Merge(e, a).missing == |frames| - LastPoll(events)
            && Merge(e, a).mismatched == 0 && Merge(e, a).unexpected == 0
  {
    var s := Exec(c, events).state;
    GeneratedIds(frames, o);
    SourceFile(frames);
    WrittenOfFrames(c, events, frames);
    hide Exec, LastPoll, ReturnCode, First, HasBinExtension, IsCapture, Verdict, Merge, AllGenerated,
         FrameCompare.Clean, AllFrames, AllTrailing, VerifyBin.Passes, Stored;
    StoredReadsBack(frames, s.written, files, initial, perSegment, names);
    ComparedWithSource(frames, s.written);
    CheckerPasses(frames, o, FilesOf(OnDisk(files), names));
  }

  /** A directory that a writer leaves after writes of exactly these frames, flushes in between, none of
      which failed in mid-segment. */
  ghost predicate Stored(files: map<string, seq<byte>>, initial: map<string, seq<byte>>, written: seq<seq<byte>>,
                         perSegment: nat) {
    && perSegment > 0
    && exists actions ::
         && FailsOnlyBetweenSegments(initial, perSegment, actions)
         && var w := After(initial, perSegment, actions);
            w.good && w.frames == written && w.directory == files
  }

  lemma StoredHolds(files: map<string, seq<byte>>, initial: map<string, seq<byte>>, written: seq<seq<byte>>,
                    perSegment: nat)
    requires Stored(files, initial, written, perSegment)
    ensures perSegment > 0 && Holds(files, initial, written, perSegment)
  {
    hide Holds, FailsOnlyBetweenSegments, After;
    var actions :| && FailsOnlyBetweenSegments(initial, perSegment, actions)
                   && var w := After(initial, perSegment, actions);
                      w.good && w.frames == written && w.directory == files;
    HoldsExactly(initial, perSegment, actions);
  }

  lemma StoredReadsBack(frames: seq<seq<byte>>, written: seq<seq<byte>>, files: map<string, seq<byte>>,
                        initial: map<string, seq<byte>>, perSegment: nat, names: seq<string>)
    requires FullSize(frames) && written <= frames
    requires |frames| <= 1_000_000 * perSegment && Stored(files, initial, written, perSegment)
    requires forall name :: name in initial ==> !HasBinExtension(name)
    requires Ascending(names) && forall name :: name in names <==> IsCapture(OnDisk(files), name)
    ensures AllFrames(FilesOf(OnDisk(files), names)) == written && AllTrailing(FilesOf(OnDisk(files), names)) == 0
  {
    hide First, HasBinExtension, Holds, IsCapture, AllFrames, AllTrailing, Stored;
    StoredHolds(files, initial, written, perSegment);
    ReadBack(frames, written, files, initial, perSegment, names);
  }

  /** After exit code 0 on a stream of the expected frames: everything was published, and what was
      written is all up to the last poll. */
  lemma WrittenOfFrames(c: Config, events: seq<Event>, frames: seq<seq<byte>>)
    requires c.capacity > 0 && !c.resample && Exec(c, events).At?
    requires var s := Exec(c, events).state; s.producer.Ended? && ReturnCode(c, s) == 0
    requires FullSize(frames) && c.stream <= Concat(frames) && c.expected == |frames|
    ensures var s := Exec(c, events).state;
            && s.published == frames && s.written <= frames
            && LastPoll(events) <= |frames| && |s.written| == LastPoll(events)
  {
    var s := Exec(c, events).state;
    assert Reachable(c, s);
    hide Reachable, Exec, InRing, LastPoll, ReturnCode;
    PublishedOfFrames(c, s, frames);
    Shortfall(c, s);
    DrainedExactly(c, events);
    assert s.published == frames;
  }

  predicate AsksFor(c: Config, o: Options) {
    c.rateHz == o.rateHz && (c.moduleCheck.OnlyModule? ==> c.moduleCheck.id == o.moduleId)
  }

  lemma FrameGenerated(frames: seq<seq<byte>>, o: Options, k: nat)
    requires o.rateHz > 0 && AllGenerated(frames, o) && k < |frames|
    ensures k < LONG && frames[k] == Serialize(FrameFor(o, k))
  {
    hide Serialize, FrameFor;
  }

  /** A generated stream is fit for publishing by a receiver that asks for its rate and module. */
  lemma GeneratedIsClean(c: Config, frames: seq<seq<byte>>, o: Options)
    requires 0 < o.rateHz <= MAX_SAMPLE_RATE_HZ && AllGenerated(frames, o) && |frames| > 0
    requires c.stream == Concat(frames) && AsksFor(c, o)
    ensures CleanStream(c, |frames|)
  {
    AllFullSize(frames, o);
    FramesOfConcat(frames, []);
    hide Serialize, FrameFor, Receiver.Clean, AllGenerated, AsksFor, Concat, StreamFrame;
    forall k | 0 <= k < |frames|
      ensures Receiver.Clean(c, StreamFrame(c, k))
    {
      FrameOfStream(c, frames, k);
      FrameGenerated(frames, o, k);
      GeneratedFrameIsClean(c, o, k);
    }
  }

  lemma GeneratedFrameIsClean(c: Config, o: Options, id: u64)
    requires 0 < o.rateHz <= MAX_SAMPLE_RATE_HZ
    requires AsksFor(c, o)
    ensures Receiver.Clean(c, Serialize(FrameFor(o, id)))
  {
    hide Serialize, FrameFor, PayloadFor, TimestampNs, Deserialize, Validate;
    GeneratedFrame(o, id);
  }

  /** A run of the receiver that returns 0 with exactly the last k of the frames missing. */
  ghost predicate ReturnsWithout(c: Config, s: State, frames: seq<seq<byte>>, k: nat) {
    && s.producer.Ended? && ReturnCode(c, s) == 0
    && FullSize(frames) && FullSize(s.written)
    && Merge(frames, s.written).missing == k
    && (Verdict(frames, s.written, 0, 0) <==> k == 0)
  }

  lemma ShortfallCompared(c: Config, s: State, frames: seq<seq<byte>>, k: nat)
    requires c.capacity > 0 && Reachable(c, s) && s.producer.Ended? && ReturnCode(c, s) == 0
    requires FullSize(frames) && FrameCompare.Clean(frames) && c.stream == Concat(frames) && c.expected == |frames| > 0
    requires k <= |frames| && |s.published| == |frames| && s.written == s.published[..|frames| - k]
    ensures ReturnsWithout(c, s, frames, k)
  {
    hide FrameCompare.Clean, Merge, Verdict, Reachable, ReturnCode, Concat, Accepts, IdOf;
    PublishedOfFrames(c, s, frames);
    assert s.published == frames && s.written == frames[..|frames| - k];
    ComparedWithSource(frames, s.written);
  }

  /** Every outcome of DataPath occurs: for every generated source, every capacity and every k up to it,
      some run of the program returns 0 with exactly the last k frames missing from the capture. */
  lemma EveryOutcomeOccurs(c: Config, o: Options, frames: seq<seq<byte>>, k: nat)
    requires 0 < o.rateHz <= MAX_SAMPLE_RATE_HZ && |frames| > 0 && AllGenerated(frames, o)
    requires c.stream == Concat(frames) && c.expected == |frames| && c.capacity > 0 && !c.resample && AsksFor(c, o)
    requires k <= |frames| && k <= c.capacity
    ensures exists s :: Reachable(c, s) && ReturnsWithout(c, s, frames, k)
  {
    hide *;
    GeneratedIsReady(c, o, frames);
    var s := ShortfallRun(c, k);
    ShortfallCompared(c, s, frames, k);
  }

  lemma GeneratedIsReady(c: Config, o: Options, frames: seq<seq<byte>>)
    requires 0 < o.rateHz <= MAX_SAMPLE_RATE_HZ && |frames| > 0 && AllGenerated(frames, o)
    requires c.stream == Concat(frames) && c.expected == |frames| && AsksFor(c, o)
    ensures CleanStream(c, c.expected) && FullSize(frames) && FrameCompare.Clean(frames)
  {
    hide *;
    GeneratedIsClean(c, frames, o);
    GeneratedIds(frames, o);
  }

  lemma SourceFile(frames: seq<seq<byte>>)
    requires FullSize(frames)
    ensures AllFrames([Readable(Concat(frames))]) == frames && AllTrailing([Readable(Concat(frames))]) == 0
  {
    FramesOfConcat(frames, []);
    assert Concat(frames) + [] == Concat(frames);
    OneFile(Readable(Concat(frames)));
  }

  // ---- damage on the way

  /** A frame that is what it was or has been hit by a burst of at most 32 bits. */
  ghost predicate IntactOrHit(e: seq<byte>, a: seq<byte>) {
    a == e || exists j, r :: Burst(e, a, j, r)
  }

  /** Bursts never go unnoticed and never confuse the comparison: with any number of frames each hit
      by a burst, every frame is compared with the frame it was, every hit frame is counted, the bit
      errors are the flipped bits, and the verdict is IDENTICAL only if nothing was hit. */
  lemma BurstsAreReported(e: seq<seq<byte>>, a: seq<seq<byte>>)
    requires FullSize(e) && FullSize(a) && |e| == |a| > 0
    requires FrameCompare.Clean(e)
    requires forall i :: 0 <= i < |e| ==> IntactOrHit(e[i], a[i])
    ensures var t := Merge(e, a);
            && t.missing == 0 && t.unexpected == 0
            && |Concat(e)| == |Concat(a)|
            && t.mismatched == |DifferingFrames(e, a)|
            && t.bitErrors == |BitErrors.DifferingBits(Concat(e), Concat(a))|
    ensures Verdict(e, a, 0, 0) <==> e == a
  {
    hide Accepts, Merge, Verdict, IdOf, Burst, DifferingFrames, BitErrors.DifferingBits, Concat;
    forall i | 0 <= i < |e|
      ensures a[i] == e[i] || !Accepts(a[i])
    {
      assert IntactOrHit(e[i], a[i]);
      if a[i] != e[i] {
        var j, r :| Burst(e[i], a[i], j, r);
        BurstRejected(e[i], a[i], j, r);
      }
    }
    DamageIsLocated(e, a);
    VerdictExactly(e, a, 0, 0);
  }
}
