/** The streaming side of frame_compare: Side::advance, the byte loop and the merge loop
    (tools/frame_check/frame_compare.cpp). */
module FrameCompareTool {
  import opened Bytes
  import opened CrcDetection
  import opened BitErrors
  import opened Frames
  import opened FrameMethods
  import opened CaptureFiles
  import opened CaptureReaders
  import opened FrameCompare

  datatype LastId = NoneYet | Last(id: u64)

  function LastIdOf(fs: seq<seq<byte>>): LastId
    requires FullSize(fs)
  {
    if |fs| == 0 then NoneYet else Last(IdOf(fs[|fs| - 1]))
  }

  datatype SideStats = SideStats(total: nat, invalid: nat, outOfOrder: nat)

  function StatsOf(fs: seq<seq<byte>>): SideStats
    requires FullSize(fs)
  {
    SideStats(|fs|, Invalid(fs), OutOfOrder(fs))
  }

  method RawFrameId(wire: seq<byte>) returns (value: u64)
    requires |wire| == WIRE_FRAME_SIZE
    ensures value == U64At(wire, FRAME_ID_WIRE_OFFSET)
  {
    hide FromLe, Pow256;
    Pow256Values();
    var next;
    value, next := GetLe(wire, FRAME_ID_WIRE_OFFSET, 8);
  }

  /** Decodes and checks one frame; a thrown problem leaves the raw id. */
  method Inspect(frame: seq<byte>) returns (frameId: u64, problem: Problem)
    requires |frame| == WIRE_FRAME_SIZE
    ensures problem == ProblemOf(frame) && (problem.NoProblem? <==> Accepts(frame))
    ensures frameId == IdOf(frame)
  {
    hide Deserialize, Validate, FromLe, Pow256;
    IdIsRaw(frame);
    var decoded := DeserializeFrameInto(frame);
    match decoded
    case Ok(f) =>
      frameId := f.header.frameId;
      problem := ValidateFrame(f);
    case Thrown(p) =>
      problem := p;
      frameId := RawFrameId(frame);
  }

  lemma SeenOneMore(before: seq<seq<byte>>, frame: seq<byte>)
    requires FullSize(before) && |frame| == WIRE_FRAME_SIZE
    ensures FullSize(before + [frame]) && LastIdOf(before + [frame]) == Last(IdOf(frame))
    ensures Invalid(before + [frame]) == Invalid(before) + if Accepts(frame) then 0 else 1
    ensures OutOfOrder(before + [frame])
         == OutOfOrder(before) + if LastIdOf(before).Last? && IdOf(frame) <= LastIdOf(before).id then 1 else 0
  {
    hide Accepts, IdOf;
    assert (before + [frame])[..|before|] == before;
  }

  /** What a side remembers about the frames it has seen; the last of them is in `wire`. */
  ghost predicate SideOk(hasFrame: bool, wire: seq<byte>, frameId: u64, problem: Problem, lastFrameId: LastId,
                         stats: SideStats, seen: seq<seq<byte>>) {
    && FullSize(seen) && |wire| == WIRE_FRAME_SIZE
    && stats == StatsOf(seen)
    && lastFrameId == LastIdOf(seen)
    && (hasFrame ==> |seen| > 0 && wire == seen[|seen| - 1]
                     && frameId == IdOf(wire) && (problem.NoProblem? <==> Accepts(wire)))
  }

  lemma SideOkAfter(before: seq<seq<byte>>, frame: seq<byte>)
    requires FullSize(before) && |frame| == WIRE_FRAME_SIZE
    ensures var was := StatsOf(before);
            var now := SideStats(was.total + 1,
                                 was.invalid + (if Accepts(frame) then 0 else 1),
                                 was.outOfOrder
                                 + if LastIdOf(before).Last? && IdOf(frame) <= LastIdOf(before).id then 1 else 0);
            SideOk(true, frame, IdOf(frame), ProblemOf(frame), Last(IdOf(frame)), now, before + [frame])
  {
    hide IdOf, Deserialize, Validate;
    SeenOneMore(before, frame);
  }

  lemma NoCurrent(wire: seq<byte>, frameId: u64, problem: Problem, lastFrameId: LastId, stats: SideStats,
                  seen: seq<seq<byte>>)
    requires FullSize(seen) && |wire| == WIRE_FRAME_SIZE && stats == StatsOf(seen) && lastFrameId == LastIdOf(seen)
    ensures SideOk(false, wire, frameId, problem, lastFrameId, stats, seen)
  {
  }

  /** One side of the comparison: streams frames and remembers the current one. */
  class Side {
    const reader: CaptureReader
    const wire: array<byte>
    var hasFrame: bool
    var frameId: u64
    var lastFrameId: LastId
    var problem: Problem
    var stats: SideStats
    ghost var seen: seq<seq<byte>>
    ghost const all: seq<seq<byte>>

    ghost predicate Valid()
      reads this, reader, wire
    {
      && reader.Valid() && wire.Length == WIRE_FRAME_SIZE
      && SideOk(hasFrame, wire[..], frameId, problem, lastFrameId, stats, seen)
      && seen + reader.Remaining() == all
      && (!hasFrame ==> reader.Remaining() == [] || seen == [])
    }

    /** The current frame, if any, and those still to come. */
    ghost function Left(): (fs: seq<seq<byte>>)
      reads this, reader, wire
      requires reader.Valid() && wire.Length == WIRE_FRAME_SIZE
      ensures FullSize(fs)
    {
      (if hasFrame then [wire[..]] else []) + reader.Remaining()
    }

    constructor (reader: CaptureReader)
      requires reader.Valid() && reader.Remaining() == AllFrames(reader.files)
      ensures Valid() && this.reader == reader && fresh(wire)
      ensures !hasFrame && seen == [] && all == AllFrames(reader.files) && Left() == all
    {
      hide Accepts, IdOf;
      this.reader := reader;
      wire := new byte[WIRE_FRAME_SIZE];
      hasFrame, frameId, lastFrameId, problem := false, 0, NoneYet, NoProblem;
      stats := SideStats(0, 0, 0);
      seen, all := [], AllFrames(reader.files);
    }

    /** Advances to the next frame; false at the end of input. */
    method Advance() returns (ok: bool)
      requires Valid()
      modifies this, reader, wire
      ensures Valid() && ok == hasFrame
      ensures ok == (old(reader.Remaining()) != [])
      ensures Left() == old(reader.Remaining())
      ensures reader.trailingBytes + reader.TrailingLeft() == old(reader.trailingBytes + reader.TrailingLeft())
      ensures !ok ==> reader.TrailingLeft() == 0
    {
      hide Accepts, IdOf, Invalid, OutOfOrder, CaptureReader.Remaining, CaptureReader.TrailingLeft;
      ghost var pending := reader.Remaining();
      assert FullSize(seen) && stats == StatsOf(seen) && lastFrameId == LastIdOf(seen);
      hide SideOk;
      var got := reader.Next(wire);
      if !got {
        hasFrame := false;
        NoCurrent(wire[..], frameId, problem, lastFrameId, stats, seen);
        return false;
      }
      assert seen + pending == (seen + [wire[..]]) + reader.Remaining();
      Examine(wire[..]);
      return true;
    }

    /** The part of advance after a frame has been read. */
    method Examine(frame: seq<byte>)
      requires |frame| == WIRE_FRAME_SIZE
      requires FullSize(seen) && stats == StatsOf(seen) && lastFrameId == LastIdOf(seen)
      modifies this
      ensures hasFrame && seen == old(seen) + [frame]
      ensures SideOk(hasFrame, frame, frameId, problem, lastFrameId, stats, seen)
    {
      hide Accepts, IdOf, SideOk, StatsOf, LastIdOf, ProblemOf, Invalid, OutOfOrder, Deserialize, Validate;
      SideOkAfter(seen, frame);
      var id, found := Inspect(frame);
      var tally := stats.(total := stats.total + 1);
      if !found.NoProblem? {
        tally := tally.(invalid := tally.invalid + 1);
      }
      if lastFrameId.Last? && id <= lastFrameId.id {
        tally := tally.(outOfOrder := tally.outOfOrder + 1);
      }
      hasFrame, frameId, problem, stats, lastFrameId := true, id, found, tally, Last(id);
      seen := seen + [frame];
    }
  }

  /** The byte loop over one pair. */
  method CompareWires(a: seq<byte>, b: seq<byte>) returns (first: nat, differing: nat, bitErrors: nat)
    requires |a| == |b|
    ensures bitErrors == Hamming(a, b) == |DifferingBits(a, b)|
    ensures differing == DifferingBytes(a, b) == |set k: nat | k < |a| && a[k] != b[k]|
    ensures differing == 0 <==> a == b
    ensures first <= |a| && a[..first] == b[..first]
    ensures a != b ==> first < |a| && a[first] != b[first]
  {
    first, differing, bitErrors := |a|, 0, 0;
    for i := 0 to |a|
      invariant bitErrors == Hamming(a[..i], b[..i]) && differing == DifferingBytes(a[..i], b[..i])
      invariant differing == 0 ==> first == |a| && a[..i] == b[..i]
      invariant differing > 0 ==> first < i && a[..first] == b[..first] && a[first] != b[first]
    {
      hide Flips, PopCount;
      assert a[..i + 1][..i] == a[..i] && b[..i + 1][..i] == b[..i];
      FlipsZero(a[i], b[i]);
      PopCountZero(Flips(a[i], b[i]));
      var diff := Flips(a[i], b[i]);
      if diff != 0 {
        bitErrors := bitErrors + PopCount(diff);
        if differing == 0 {
          first := i;
        }
        differing := differing + 1;
      }
    }
    assert a[..|a|] == a && b[..|b|] == b;
    HammingCounts(a, b);
    DifferingBytesCounts(a, b);
  }

  /** Everything the two sides touch. */
  ghost function Footprint(expected: Side, actual: Side): set<object> {
    {expected, expected.reader, expected.wire, actual, actual.reader, actual.wire}
  }

  ghost predicate Apart(expected: Side, actual: Side) {
    expected != actual && expected.reader != actual.reader && expected.wire != actual.wire
  }

  /** A side in mid-merge: with no current frame its input is used up. */
  ghost predicate Running(side: Side)
    reads side, side.reader, side.wire
  {
    && side.Valid()
    && side.all == AllFrames(side.reader.files)
    && (side.hasFrame || (side.reader.Remaining() == [] && side.reader.TrailingLeft() == 0))
    && side.reader.trailingBytes + side.reader.TrailingLeft() == AllTrailing(side.reader.files)
  }

  ghost predicate Ready(expected: Side, actual: Side)
    reads Footprint(expected, actual)
  {
    Apart(expected, actual) && Running(expected) && Running(actual)
  }

  lemma StepForFields(e: seq<seq<byte>>, a: seq<seq<byte>>)
    requires FullSize(e) && FullSize(a) && (|e| > 0 || |a| > 0)
    ensures var byPosition := |e| > 0 && |a| > 0 && IdOf(e[0]) != IdOf(a[0]) && (!Accepts(e[0]) || !Accepts(a[0]));
            && (StepOf(e, a).Missing? <==>
                  !byPosition && (|a| == 0 || (|e| > 0 && IdOf(e[0]) < IdOf(a[0]))))
            && (StepOf(e, a).Unexpected? <==>
                  !byPosition && |a| > 0 && (|e| == 0 || IdOf(a[0]) < IdOf(e[0])))
  {
    hide IdOf, Accepts;
  }

  lemma MergeMissing(e: seq<seq<byte>>, a: seq<seq<byte>>, t: Tally)
    requires FullSize(e) && FullSize(a) && |e| > 0 && StepOf(e, a).Missing?
    ensures Plus(t.(missing := t.missing + 1), Merge(e[1..], a)) == Plus(t, Merge(e, a))
  {
    hide StepOf, Hamming, IdOf, Accepts, Pair;
    var rest := Merge(e[1..], a);
    assert Merge(e, a) == Plus(ZERO.(missing := 1), rest);
  }

  lemma MergeUnexpected(e: seq<seq<byte>>, a: seq<seq<byte>>, t: Tally)
    requires FullSize(e) && FullSize(a) && |a| > 0 && StepOf(e, a).Unexpected?
    ensures Plus(t.(unexpected := t.unexpected + 1), Merge(e, a[1..])) == Plus(t, Merge(e, a))
  {
    hide StepOf, Hamming, IdOf, Accepts, Pair;
    var rest := Merge(e, a[1..]);
    assert Merge(e, a) == Plus(ZERO.(unexpected := 1), rest);
  }

  lemma MergePair(e: seq<seq<byte>>, a: seq<seq<byte>>, t: Tally)
    requires FullSize(e) && FullSize(a) && |e| > 0 && |a| > 0 && StepOf(e, a).Compare?
    ensures Plus(Plus(t, Pair(e[0], a[0])), Merge(e[1..], a[1..])) == Plus(t, Merge(e, a))
  {
    hide StepOf, Hamming;
  }

  /** The tally after one comparison, as the tool counts it. */
  method ComparePair(e: seq<byte>, a: seq<byte>, t: Tally) returns (t': Tally)
    requires |e| == |a|
    ensures t' == Plus(t, Pair(e, a))
  {
    hide Hamming;
    var first, differing, bitErrors := CompareWires(e, a);
    HammingZero(e, a);
    t' := t.(compared := t.compared + 1, bitErrors := t.bitErrors + bitErrors);
    if differing == 0 {
      t' := t'.(identical := t'.identical + 1);
    } else {
      t' := t'.(mismatched := t'.mismatched + 1);
    }
  }

  lemma LeftOf(side: Side)
    requires side.Valid() && (side.hasFrame || side.reader.Remaining() == [])
    ensures |side.Left()| > 0 <==> side.hasFrame
    ensures side.hasFrame ==>
              && side.Left()[0] == side.wire[..] && side.Left()[1..] == side.reader.Remaining()
              && side.frameId == IdOf(side.Left()[0])
              && (side.problem.NoProblem? <==> Accepts(side.Left()[0]))
  {
    hide IdOf, Accepts;
  }

  /** One round of the merge loop. */
  method Round(expected: Side, actual: Side, t: Tally) returns (t': Tally)
    requires Ready(expected, actual) && (expected.hasFrame || actual.hasFrame)
    modifies Footprint(expected, actual)
    ensures Ready(expected, actual)
    ensures Plus(t', Merge(expected.Left(), actual.Left())) == Plus(t, Merge(old(expected.Left()), old(actual.Left())))
    ensures |expected.Left()| + |actual.Left()| < old(|expected.Left()| + |actual.Left()|)
  {
    hide Accepts, IdOf, Hamming, Merge, StepOf, SideOk, CaptureReader.Remaining, CaptureReader.TrailingLeft, AllFrames,
         AllTrailing, Pair;
    LeftOf(expected);
    LeftOf(actual);
    ghost var e, a := expected.Left(), actual.Left();
    StepForFields(e, a);
    var both := expected.hasFrame && actual.hasFrame;
    var byPosition := both && expected.frameId != actual.frameId
                      && (!expected.problem.NoProblem? || !actual.problem.NoProblem?);
    if !byPosition && (!actual.hasFrame || (expected.hasFrame && expected.frameId < actual.frameId)) {
      MergeMissing(e, a, t);
      var more := expected.Advance();
      return t.(missing := t.missing + 1);
    }
    if !byPosition && (!expected.hasFrame || actual.frameId < expected.frameId) {
      MergeUnexpected(e, a, t);
      var more := actual.Advance();
      return t.(unexpected := t.unexpected + 1);
    }
    MergePair(e, a, t);
    t' := ComparePair(expected.wire[..], actual.wire[..], t);
    var more := expected.Advance();
    more := actual.Advance();
  }

  /** A side before its first frame. */
  ghost predicate Unstarted(side: Side)
    reads side, side.reader, side.wire
  {
    && side.Valid() && !side.hasFrame && side.seen == []
    && side.reader.trailingBytes == 0
    && side.all == AllFrames(side.reader.files)
    && side.reader.TrailingLeft() == AllTrailing(side.reader.files)
  }

  /** The first advance of a side. */
  method Start(side: Side)
    requires Unstarted(side)
    modifies side, side.reader, side.wire
    ensures Running(side) && side.Left() == side.all
  {
    hide Accepts, IdOf, Invalid, OutOfOrder, SideOk, CaptureReader.Remaining, CaptureReader.TrailingLeft, AllFrames,
         AllTrailing;
    assert side.seen + side.reader.Remaining() == side.reader.Remaining();
    var more := side.Advance();
  }

  /** The verdict, from the counters, the statistics and the trailing bytes. */
  method Judge(expected: Side, actual: Side, t: Tally) returns (ok: bool)
    requires Ready(expected, actual) && !expected.hasFrame && !actual.hasFrame
    requires t == Merge(expected.all, actual.all)
    ensures ok == Verdict(AllFrames(expected.reader.files), AllFrames(actual.reader.files),
                          AllTrailing(expected.reader.files), AllTrailing(actual.reader.files))
  {
    hide Accepts, IdOf, Invalid, OutOfOrder, SideOk, Merge, CaptureReader.Remaining, CaptureReader.TrailingLeft,
         AllFrames, AllTrailing;
    SideAtEnd(expected);
    SideAtEnd(actual);
    ok := t.mismatched == 0 && t.missing == 0 && t.unexpected == 0
          && expected.stats.invalid == 0 && actual.stats.invalid == 0
          && expected.stats.outOfOrder == 0 && actual.stats.outOfOrder == 0
          && expected.reader.trailingBytes == 0 && actual.reader.trailingBytes == 0
          && expected.stats.total > 0;
  }

  /** main: the counters are those of the merge, and the verdict is computed from them, from the
      statistics of both sides and from the trailing bytes. */
  method Compare(expected: Side, actual: Side) returns (t: Tally, ok: bool)
    requires Apart(expected, actual) && Unstarted(expected) && Unstarted(actual)
    modifies Footprint(expected, actual)
    ensures t == Merge(AllFrames(expected.reader.files), AllFrames(actual.reader.files))
    ensures ok == Verdict(AllFrames(expected.reader.files), AllFrames(actual.reader.files),
                          AllTrailing(expected.reader.files), AllTrailing(actual.reader.files))
  {
    hide Accepts, IdOf, Merge, SideOk, Verdict, CaptureReader.Remaining, CaptureReader.TrailingLeft, AllFrames,
         AllTrailing;
    t := ZERO;
    MergeNothing();
    Start(expected);
    Start(actual);
    while expected.hasFrame || actual.hasFrame
      invariant Ready(expected, actual)
      invariant Plus(t, Merge(expected.Left(), actual.Left())) == Merge(expected.all, actual.all)
      decreases |expected.Left()| + |actual.Left()|
    {
      t := Round(expected, actual, t);
    }
    SideAtEnd(expected);
    SideAtEnd(actual);
    ok := Judge(expected, actual, t);
  }

  lemma MergeNothing()
    ensures Merge([], []) == ZERO
    ensures forall t: Tally :: Plus(t, ZERO) == t && Plus(ZERO, t) == t
  {
  }

  lemma SideAtEnd(side: Side)
    requires side.Valid() && !side.hasFrame && side.reader.Remaining() == []
    ensures side.stats == StatsOf(side.all) && side.Left() == []
  {
    hide Invalid, OutOfOrder, IdOf, Accepts;
    assert side.seen == side.all;
  }
}
