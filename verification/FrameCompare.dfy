/** The frame-by-frame comparison of two captures (tools/frame_check/frame_compare.cpp). */
module FrameCompare {
  import opened Bytes
  import opened BitErrors
  import opened Frames
  import opened FrameCodec
  import opened CaptureFiles

  // ---- what one frame says

  /** frame_id of a frame, valid or not: the decoded field, or the raw bytes when decoding throws. */
  function IdOf(f: seq<byte>): u64
    requires |f| == WIRE_FRAME_SIZE
  {
    match Deserialize(f)
    case Ok(frame) => frame.header.frameId
    case Thrown(_) => U64At(f, FRAME_ID_WIRE_OFFSET)
  }

  lemma IdIsRaw(f: seq<byte>)
    requires |f| == WIRE_FRAME_SIZE
    ensures IdOf(f) == U64At(f, FRAME_ID_WIRE_OFFSET)
  {
    hide FromLe, Pow256, HeaderOf, PayloadOf;
    HeaderFieldsAt(f);
  }

  // ---- the merge as a function

  datatype Tally = Tally(identical: nat, compared: nat, bitErrors: nat, mismatched: nat, missing: nat, unexpected: nat)

  const ZERO := Tally(0, 0, 0, 0, 0, 0)

  function Plus(a: Tally, b: Tally): Tally {
    Tally(a.identical + b.identical, a.compared + b.compared, a.bitErrors + b.bitErrors,
          a.mismatched + b.mismatched, a.missing + b.missing, a.unexpected + b.unexpected)
  }

  /** The tally of one compared pair. */
  function Pair(e: seq<byte>, a: seq<byte>): Tally
    requires |e| == |a|
  {
    if e == a then ZERO.(identical := 1, compared := 1)
    else ZERO.(mismatched := 1, compared := 1, bitErrors := Hamming(e, a))
  }

  /** A frame that fails its checks is paired by position with whatever the other side has. */
  predicate ByPosition(e: seq<byte>, a: seq<byte>)
    requires |e| == |a| == WIRE_FRAME_SIZE
  {
    IdOf(e) != IdOf(a) && (!Accepts(e) || !Accepts(a))
  }

  datatype Step = Missing | Unexpected | Compare

  /** What one round of the merge does with the heads. */
  function StepOf(e: seq<seq<byte>>, a: seq<seq<byte>>): Step
    requires FullSize(e) && FullSize(a) && (|e| > 0 || |a| > 0)
  {
    if |a| == 0 then Missing
    else if |e| == 0 then Unexpected
    else if ByPosition(e[0], a[0]) then Compare
    else if IdOf(e[0]) < IdOf(a[0]) then Missing
    else if IdOf(a[0]) < IdOf(e[0]) then Unexpected
    else Compare
  }

  function Merge(e: seq<seq<byte>>, a: seq<seq<byte>>): Tally
    requires FullSize(e) && FullSize(a)
    decreases |e| + |a|
  {
    if |e| == 0 && |a| == 0 then ZERO
    else match StepOf(e, a)
         case Missing => Plus(ZERO.(missing := 1), Merge(e[1..], a))
         case Unexpected => Plus(ZERO.(unexpected := 1), Merge(e, a[1..]))
         case Compare => Plus(Pair(e[0], a[0]), Merge(e[1..], a[1..]))
  }

  // ---- statistics of one side

  function Invalid(fs: seq<seq<byte>>): nat {
    if |fs| == 0 then 0
    else Invalid(fs[..|fs| - 1]) + if Accepts(fs[|fs| - 1]) then 0 else 1
  }

  function OutOfOrder(fs: seq<seq<byte>>): nat
    requires FullSize(fs)
  {
    if |fs| <= 1 then 0
    else OutOfOrder(fs[..|fs| - 1]) + if IdOf(fs[|fs| - 1]) <= IdOf(fs[|fs| - 2]) then 1 else 0
  }

  ghost predicate AllAccepted(fs: seq<seq<byte>>) {
    forall i :: 0 <= i < |fs| ==> Accepts(fs[i])
  }

  ghost predicate IdsIncrease(fs: seq<seq<byte>>)
    requires FullSize(fs)
  {
    forall i, j :: 0 <= i < j < |fs| ==> IdOf(fs[i]) < IdOf(fs[j])
  }

  lemma {:induction false} InvalidZero(fs: seq<seq<byte>>)
    ensures Invalid(fs) == 0 <==> AllAccepted(fs)
  {
    hide Accepts;
    if |fs| > 0 {
      InvalidZero(fs[..|fs| - 1]);
    }
  }

  lemma {:induction false} OutOfOrderZero(fs: seq<seq<byte>>)
    requires FullSize(fs)
    ensures OutOfOrder(fs) == 0 <==> IdsIncrease(fs)
  {
    hide IdOf;
    if |fs| > 1 {
      OutOfOrderZero(fs[..|fs| - 1]);
    }
  }

  ghost function InvalidFrames(fs: seq<seq<byte>>): set<nat> {
    set k: nat | k < |fs| && !Accepts(fs[k])
  }

  /** The number of invalid frames. */
  lemma {:induction false} InvalidCounts(fs: seq<seq<byte>>)
    ensures Invalid(fs) == |InvalidFrames(fs)|
  {
    if |fs| > 0 {
      InvalidCounts(fs[..|fs| - 1]);
      hide Invalid;
      InvalidNext(fs[..|fs| - 1], fs[|fs| - 1]);
      assert fs == fs[..|fs| - 1] + [fs[|fs| - 1]];
    }
  }

  lemma InvalidNext(fs: seq<seq<byte>>, f: seq<byte>)
    ensures |InvalidFrames(fs + [f])| == |InvalidFrames(fs)| + if Accepts(f) then 0 else 1
  {
    hide Accepts;
    if Accepts(f) {
      assert InvalidFrames(fs + [f]) == InvalidFrames(fs);
    } else {
      assert InvalidFrames(fs + [f]) == InvalidFrames(fs) + {|fs|};
    }
  }

  /** Frame k does not have a greater id than the one before. */
  predicate Late(fs: seq<seq<byte>>, k: nat)
    requires FullSize(fs) && 0 < k < |fs|
  {
    IdOf(fs[k]) <= IdOf(fs[k - 1])
  }

  ghost function LateFrames(fs: seq<seq<byte>>): set<nat>
    requires FullSize(fs)
  {
    set k: nat | 0 < k < |fs| && Late(fs, k)
  }

  /** The number of frames out of order. */
  lemma {:induction false} OutOfOrderCounts(fs: seq<seq<byte>>)
    requires FullSize(fs)
    ensures OutOfOrder(fs) == |LateFrames(fs)|
  {
    hide IdOf;
    if |fs| <= 1 {
      assert LateFrames(fs) == {};
    } else {
      var n := |fs| - 1;
      OutOfOrderCounts(fs[..n]);
      assert forall k :: 0 < k < n ==> Late(fs[..n], k) == Late(fs, k);
      if Late(fs, n) {
        assert LateFrames(fs) == LateFrames(fs[..n]) + {n};
      } else {
        assert LateFrames(fs) == LateFrames(fs[..n]);
      }
    }
  }

  // ---- what the counters mean

  /** Conservation, for any inputs: every frame of either side is compared or counted as its own side's. */
  lemma {:induction false} Conservation(e: seq<seq<byte>>, a: seq<seq<byte>>)
    requires FullSize(e) && FullSize(a)
    ensures var t := Merge(e, a);
            && |e| == t.identical + t.mismatched + t.missing
            && |a| == t.identical + t.mismatched + t.unexpected
            && t.compared == t.identical + t.mismatched
    decreases |e| + |a|
  {
    hide IdOf, Accepts, Hamming;
    if |e| > 0 || |a| > 0 {
      match StepOf(e, a)
      case Missing => Conservation(e[1..], a);
      case Unexpected => Conservation(e, a[1..]);
      case Compare => Conservation(e[1..], a[1..]);
    }
  }

  /** Two frames meet when both are at the head of the merge: same id, or one is damaged. */
  predicate PairsUp(e: seq<byte>, a: seq<byte>)
    requires |e| == |a| == WIRE_FRAME_SIZE
  {
    IdOf(e) == IdOf(a) || !Accepts(e) || !Accepts(a)
  }

  ghost predicate PairsThroughout(e: seq<seq<byte>>, a: seq<seq<byte>>)
    requires FullSize(e) && FullSize(a)
  {
    |e| == |a| && forall i :: 0 <= i < |e| ==> PairsUp(e[i], a[i])
  }

  function TotalHamming(e: seq<seq<byte>>, a: seq<seq<byte>>): nat
    requires FullSize(e) && FullSize(a) && |e| == |a|
  {
    if |e| == 0 then 0 else Hamming(e[0], a[0]) + TotalHamming(e[1..], a[1..])
  }

  /** The positions where the two sides differ. */
  function Differing(e: seq<seq<byte>>, a: seq<seq<byte>>): nat
    requires FullSize(e) && FullSize(a) && |e| == |a|
  {
    if |e| == 0 then 0 else (if e[0] == a[0] then 0 else 1) + Differing(e[1..], a[1..])
  }

  /** The bit errors over all pairs are the differing bits of the two captures laid end to end. */
  lemma {:induction false} TotalHammingCounts(e: seq<seq<byte>>, a: seq<seq<byte>>)
    requires FullSize(e) && FullSize(a) && |e| == |a|
    ensures |Concat(e)| == |Concat(a)|
    ensures TotalHamming(e, a) == |DifferingBits(Concat(e), Concat(a))|
  {
    FramesOfConcat(e, []);
    FramesOfConcat(a, []);
    hide DifferingBits, Hamming;
    HammingCounts(Concat(e), Concat(a));
    TotalOfConcat(e, a);
  }

  lemma {:induction false} TotalOfConcat(e: seq<seq<byte>>, a: seq<seq<byte>>)
    requires FullSize(e) && FullSize(a) && |e| == |a|
    ensures |Concat(e)| == |Concat(a)| && TotalHamming(e, a) == Hamming(Concat(e), Concat(a))
  {
    hide Hamming;
    if |e| == 0 {
      HammingNothing();
    } else {
      TotalOfConcat(e[1..], a[1..]);
      HammingAppend(e[0], a[0], Concat(e[1..]), Concat(a[1..]));
    }
  }

  lemma {:induction false} DifferingNext(e: seq<seq<byte>>, a: seq<seq<byte>>, f: seq<byte>, g: seq<byte>)
    requires FullSize(e + [f]) && FullSize(a + [g]) && FullSize(e) && FullSize(a) && |e| == |a|
    ensures Differing(e + [f], a + [g]) == Differing(e, a) + if f == g then 0 else 1
  {
    if |e| == 0 {
      assert (e + [f])[1..] == [] && (a + [g])[1..] == [];
    } else {
      assert (e + [f])[1..] == e[1..] + [f] && (a + [g])[1..] == a[1..] + [g];
      assert FullSize(e[1..] + [f]) && FullSize(a[1..] + [g]);
      DifferingNext(e[1..], a[1..], f, g);
    }
  }

  ghost function DifferingFrames(e: seq<seq<byte>>, a: seq<seq<byte>>): set<nat>
    requires |e| == |a|
  {
    set i: nat | i < |e| && e[i] != a[i]
  }

  /** The number of positions where the frames differ. */
  lemma {:induction false} DifferingCounts(e: seq<seq<byte>>, a: seq<seq<byte>>)
    requires FullSize(e) && FullSize(a) && |e| == |a|
    ensures Differing(e, a) == |DifferingFrames(e, a)|
  {
    if |e| > 0 {
      var n := |e| - 1;
      DifferingCounts(e[..n], a[..n]);
      assert e == e[..n] + [e[n]] && a == a[..n] + [a[n]];
      DifferingNext(e[..n], a[..n], e[n], a[n]);
      if e[n] == a[n] {
        assert DifferingFrames(e, a) == DifferingFrames(e[..n], a[..n]);
      } else {
        assert DifferingFrames(e, a) == DifferingFrames(e[..n], a[..n]) + {n};
      }
    }
  }

  lemma PairsThroughoutTail(e: seq<seq<byte>>, a: seq<seq<byte>>)
    requires FullSize(e) && FullSize(a) && |e| > 0 && |a| > 0
    ensures PairsThroughout(e, a) <==> PairsUp(e[0], a[0]) && PairsThroughout(e[1..], a[1..])
  {
    hide PairsUp;
    if PairsUp(e[0], a[0]) && PairsThroughout(e[1..], a[1..]) {
      forall i | 0 <= i < |e|
        ensures PairsUp(e[i], a[i])
      {
        if i > 0 {
          assert e[i] == e[1..][i - 1] && a[i] == a[1..][i - 1];
        }
      }
    }
    if PairsThroughout(e, a) {
      forall i | 0 <= i < |e| - 1
        ensures PairsUp(e[1..][i], a[1..][i])
      {
        assert e[1..][i] == e[i + 1] && a[1..][i] == a[i + 1];
      }
    }
  }

  lemma StepIsPair(e: seq<seq<byte>>, a: seq<seq<byte>>)
    requires FullSize(e) && FullSize(a) && (|e| > 0 || |a| > 0)
    ensures StepOf(e, a).Compare? <==> |e| > 0 && |a| > 0 && PairsUp(e[0], a[0])
  {
    hide IdOf, Accepts;
  }

  /** The merge loses step with no frame exactly when the sides have the same number of frames and,
      position by position, either the ids agree or a frame is damaged - whatever its id became. */
  lemma {:induction false} PositionalExactly(e: seq<seq<byte>>, a: seq<seq<byte>>)
    requires FullSize(e) && FullSize(a)
    ensures Merge(e, a).missing == 0 && Merge(e, a).unexpected == 0 <==> PairsThroughout(e, a)
    ensures PairsThroughout(e, a) ==>
              && Merge(e, a).mismatched == Differing(e, a)
              && Merge(e, a).bitErrors == TotalHamming(e, a)
    decreases |e| + |a|
  {
    hide IdOf, Accepts, Hamming, StepOf, PairsUp;
    if |e| > 0 || |a| > 0 {
      StepIsPair(e, a);
      match StepOf(e, a)
      case Missing =>
      case Unexpected =>
      case Compare =>
        PairsThroughoutTail(e, a);
        PositionalExactly(e[1..], a[1..]);
        SelfDistance(e[0]);
    }
  }

  lemma SelfDistance(f: seq<byte>)
    ensures Hamming(f, f) == 0
  {
    HammingZero(f, f);
  }

  /** Resynchronisation: damaged frames, whatever their ids became, are compared with the frame they
      were, and the counters say how many there are and how many bits changed. */
  lemma DamageIsLocated(e: seq<seq<byte>>, a: seq<seq<byte>>)
    requires FullSize(e) && FullSize(a) && |e| == |a|
    requires forall i :: 0 <= i < |e| ==> a[i] == e[i] || !Accepts(a[i])
    ensures var t := Merge(e, a);
            && t.missing == 0 && t.unexpected == 0
            && |Concat(e)| == |Concat(a)|
            && t.mismatched == |DifferingFrames(e, a)| && t.identical == |e| - |DifferingFrames(e, a)|
            && t.bitErrors == |DifferingBits(Concat(e), Concat(a))|
  {
    DifferingCounts(e, a);
    TotalHammingCounts(e, a);
    hide IdOf, Accepts, Hamming, Merge, DifferingFrames, DifferingBits, Concat, Differing, TotalHamming;
    assert PairsThroughout(e, a);
    PositionalExactly(e, a);
    Conservation(e, a);
  }

  lemma {:induction false} OnlyMissing(e: seq<seq<byte>>)
    requires FullSize(e)
    ensures Merge(e, []) == ZERO.(missing := |e|)
  {
    if |e| > 0 {
      OnlyMissing(e[1..]);
    }
  }

  lemma {:induction false} OnlyUnexpected(a: seq<seq<byte>>)
    requires FullSize(a)
    ensures Merge([], a) == ZERO.(unexpected := |a|)
  {
    if |a| > 0 {
      OnlyUnexpected(a[1..]);
    }
  }

  /** The heads of the merge: frames that pair up are compared; of two valid ones with different ids the
      smaller is the other side's loss or its own extra. */
  lemma MergeByHeads(e: seq<seq<byte>>, a: seq<seq<byte>>)
    requires FullSize(e) && FullSize(a) && |e| > 0 && |a| > 0
    ensures PairsUp(e[0], a[0]) ==> Merge(e, a) == Plus(Pair(e[0], a[0]), Merge(e[1..], a[1..]))
    ensures !PairsUp(e[0], a[0]) && IdOf(e[0]) < IdOf(a[0]) ==>
              Merge(e, a) == Plus(ZERO.(missing := 1), Merge(e[1..], a))
    ensures !PairsUp(e[0], a[0]) && IdOf(a[0]) < IdOf(e[0]) ==>
              Merge(e, a) == Plus(ZERO.(unexpected := 1), Merge(e, a[1..]))
  {
    if PairsUp(e[0], a[0]) {
      MergeOfPair(e, a);
    }
    hide Accepts, Hamming, Pair;
  }

  /** The first n frames that pair up position by position are counted on their own. */
  lemma {:induction false} PairedPrefix(e: seq<seq<byte>>, a: seq<seq<byte>>, n: nat)
    requires FullSize(e) && FullSize(a) && n <= |e| && n <= |a|
    requires forall i :: 0 <= i < n ==> PairsUp(e[i], a[i])
    ensures Merge(e, a) == Plus(Merge(e[..n], a[..n]), Merge(e[n..], a[n..]))
  {
    hide IdOf, Accepts, Hamming, Merge, Pair, PairsUp;
    if n == 0 {
      assert e[..0] == [] && a[..0] == [] && e[0..] == e && a[0..] == a;
      NothingMerged();
    } else {
      forall i | 0 <= i < n - 1
        ensures PairsUp(e[1..][i], a[1..][i])
      {
        assert PairsUp(e[i + 1], a[i + 1]);
      }
      PairedPrefix(e[1..], a[1..], n - 1);
      MergeOfPair(e, a);
      MergeOfPair(e[..n], a[..n]);
      assert e[..n][1..] == e[1..][..n - 1] && a[..n][1..] == a[1..][..n - 1];
      assert e[1..][n - 1..] == e[n..] && a[1..][n - 1..] == a[n..];
    }
  }

  lemma NothingMerged()
    ensures Merge([], []) == ZERO
  {
  }

  /** Damage together with frames cut off or added at the end: the damaged frames are compared with the
      frames they were, and only the rest of the longer side is missing or unexpected. */
  lemma DamagedAndCut(e: seq<seq<byte>>, a: seq<seq<byte>>, n: nat)
    requires FullSize(e) && FullSize(a) && n == (if |e| < |a| then |e| else |a|)
    requires forall i :: 0 <= i < n ==> a[i] == e[i] || !Accepts(a[i])
    ensures var t := Merge(e, a);
            && t.missing == |e| - n && t.unexpected == |a| - n
            && t.mismatched == |DifferingFrames(e[..n], a[..n])|
            && |Concat(e[..n])| == |Concat(a[..n])|
            && t.bitErrors == |DifferingBits(Concat(e[..n]), Concat(a[..n]))|
  {
    hide Accepts, Hamming, Merge, Differing, TotalHamming, Concat, DifferingBits, DifferingFrames;
    assert forall i :: 0 <= i < n ==> PairsUp(e[i], a[i]);
    hide PairsUp, IdOf;
    PairedPrefix(e, a, n);
    DamageIsLocated(e[..n], a[..n]);
    if n == |a| {
      assert a[n..] == [];
      OnlyMissing(e[n..]);
    } else {
      assert e[n..] == [];
      OnlyUnexpected(a[n..]);
    }
  }

  lemma MergeOfPair(e: seq<seq<byte>>, a: seq<seq<byte>>)
    requires FullSize(e) && FullSize(a) && |e| > 0 && |a| > 0 && PairsUp(e[0], a[0])
    ensures Merge(e, a) == Plus(Pair(e[0], a[0]), Merge(e[1..], a[1..]))
    ensures Pair(e[0], a[0]).missing == 0 && Pair(e[0], a[0]).unexpected == 0
  {
    hide IdOf, Accepts, Hamming, StepOf, PairsUp;
    StepIsPair(e, a);
  }

  lemma {:induction false} NoDifference(e: seq<seq<byte>>, a: seq<seq<byte>>)
    requires FullSize(e) && FullSize(a) && |e| == |a|
    ensures Differing(e, a) == 0 <==> e == a
  {
    if |e| > 0 {
      NoDifference(e[1..], a[1..]);
      assert e == [e[0]] + e[1..] && a == [a[0]] + a[1..];
    }
  }

  // ---- the verdict

  predicate Verdict(e: seq<seq<byte>>, a: seq<seq<byte>>, expectedTrailing: nat, actualTrailing: nat)
    requires FullSize(e) && FullSize(a)
  {
    var t := Merge(e, a);
    && t.mismatched == 0 && t.missing == 0 && t.unexpected == 0
    && Invalid(e) == 0 && Invalid(a) == 0
    && OutOfOrder(e) == 0 && OutOfOrder(a) == 0
    && expectedTrailing == 0 && actualTrailing == 0
    && |e| > 0
  }

  /** IDENTICAL means: the same non-empty sequence of frames byte for byte, every frame valid,
      ids strictly increasing, nothing trailing on either side. */
  lemma VerdictExactly(e: seq<seq<byte>>, a: seq<seq<byte>>, expectedTrailing: nat, actualTrailing: nat)
    requires FullSize(e) && FullSize(a)
    ensures Verdict(e, a, expectedTrailing, actualTrailing)
       <==> && e == a && |e| > 0
            && AllAccepted(e) && IdsIncrease(e)
            && expectedTrailing == 0 && actualTrailing == 0
  {
    hide IdOf, Accepts, Hamming, Merge, Invalid, OutOfOrder, IdsIncrease;
    InvalidZero(e);
    InvalidZero(a);
    OutOfOrderZero(e);
    OutOfOrderZero(a);
    PositionalExactly(e, a);
    if PairsThroughout(e, a) {
      NoDifference(e, a);
    }
  }

  // ---- valid captures with frames lost on the way

  ghost function Ids(fs: seq<seq<byte>>): set<u64>
    requires FullSize(fs)
  {
    set i | 0 <= i < |fs| :: IdOf(fs[i])
  }

  /** Valid frames with increasing ids. */
  ghost predicate Clean(fs: seq<seq<byte>>)
    requires FullSize(fs)
  {
    AllAccepted(fs) && IdsIncrease(fs)
  }

  lemma CleanTail(fs: seq<seq<byte>>)
    requires FullSize(fs) && |fs| > 0 && Clean(fs)
    ensures Clean(fs[1..]) && Accepts(fs[0])
  {
    hide IdOf, Accepts;
    forall i, j | 0 <= i < j < |fs| - 1
      ensures IdOf(fs[1..][i]) < IdOf(fs[1..][j])
    {
      assert fs[1..][i] == fs[i + 1] && fs[1..][j] == fs[j + 1];
    }
  }

  lemma IdsTail(fs: seq<seq<byte>>)
    requires FullSize(fs) && |fs| > 0 && Clean(fs)
    ensures Ids(fs) == {IdOf(fs[0])} + Ids(fs[1..])
  {
    hide IdOf, Accepts;
    forall x | x in Ids(fs)
      ensures x in {IdOf(fs[0])} + Ids(fs[1..])
    {
      var i :| 0 <= i < |fs| && IdOf(fs[i]) == x;
      if i > 0 {
        assert fs[1..][i - 1] == fs[i];
      }
    }
    forall x | x in Ids(fs[1..])
      ensures x in Ids(fs)
    {
      var i :| 0 <= i < |fs| - 1 && IdOf(fs[1..][i]) == x;
      assert fs[1..][i] == fs[i + 1];
    }
  }

  /** An id below the head of a clean list is not in it. */
  lemma BelowHead(x: u64, fs: seq<seq<byte>>)
    requires FullSize(fs) && Clean(fs) && (|fs| > 0 ==> x < IdOf(fs[0]))
    ensures x !in Ids(fs)
  {
    hide IdOf, Accepts;
  }

  lemma HeadNotInTail(fs: seq<seq<byte>>)
    requires FullSize(fs) && |fs| > 0 && Clean(fs)
    ensures IdOf(fs[0]) !in Ids(fs[1..])
  {
    hide IdOf, Accepts;
    CleanTail(fs);
    if |fs| > 1 {
      assert fs[1..][0] == fs[1];
    }
    BelowHead(IdOf(fs[0]), fs[1..]);
  }

  lemma NoIds(fs: seq<seq<byte>>)
    requires |fs| == 0
    ensures Ids(fs) == {}
  {
  }

  /** The counters are sizes of set differences: missing is what only the expected side has,
      unexpected what only the actual side has. */
  ghost predicate CountsSets(t: Tally, e: set<u64>, a: set<u64>) {
    t.missing == |e - a| && t.unexpected == |a - e| && t.compared == |e * a|
  }

  /** On valid captures with increasing ids the counters are sizes of set differences. */
  lemma {:induction false} LossIsCounted(e: seq<seq<byte>>, a: seq<seq<byte>>)
    requires FullSize(e) && FullSize(a) && Clean(e) && Clean(a)
    ensures CountsSets(Merge(e, a), Ids(e), Ids(a))
    decreases |e| + |a|
  {
    hide IdOf, Accepts, Hamming, Ids, Clean, StepOf, CountsSets;
    if |e| == 0 && |a| == 0 {
      NoIds(e);
      NoIds(a);
      NothingCounted();
    } else {
      StepAgainst(e, a);
      match StepOf(e, a)
      case Missing =>
        LossIsCounted(e[1..], a);
        OneSided(Merge(e[1..], a), IdOf(e[0]), Ids(e[1..]), Ids(a));
      case Unexpected =>
        LossIsCounted(e, a[1..]);
        OtherSided(Merge(e, a[1..]), IdOf(a[0]), Ids(e), Ids(a[1..]));
      case Compare =>
        LossIsCounted(e[1..], a[1..]);
        TwoSided(Merge(e[1..], a[1..]), IdOf(e[0]), Ids(e[1..]), Ids(a[1..]), Pair(e[0], a[0]));
    }
  }

  lemma NothingCounted()
    ensures CountsSets(ZERO, {}, {})
  {
  }

  /** The heads of clean lists, as the merge sees them. */
  lemma StepAgainst(e: seq<seq<byte>>, a: seq<seq<byte>>)
    requires FullSize(e) && FullSize(a) && Clean(e) && Clean(a) && (|e| > 0 || |a| > 0)
    ensures StepOf(e, a).Missing? ==>
              |e| > 0 && Clean(e[1..]) && Ids(e) == {IdOf(e[0])} + Ids(e[1..])
              && IdOf(e[0]) !in Ids(e[1..]) && IdOf(e[0]) !in Ids(a)
    ensures StepOf(e, a).Unexpected? ==>
              |a| > 0 && Clean(a[1..]) && Ids(a) == {IdOf(a[0])} + Ids(a[1..])
              && IdOf(a[0]) !in Ids(a[1..]) && IdOf(a[0]) !in Ids(e)
    ensures StepOf(e, a).Compare? ==>
              |e| > 0 && |a| > 0 && Clean(e[1..]) && Clean(a[1..]) && IdOf(e[0]) == IdOf(a[0])
              && Ids(e) == {IdOf(e[0])} + Ids(e[1..]) && Ids(a) == {IdOf(a[0])} + Ids(a[1..])
              && IdOf(e[0]) !in Ids(e[1..]) && IdOf(e[0]) !in Ids(a[1..])
  {
    hide IdOf, Accepts, Ids, Clean;
    if |e| > 0 {
      CleanTail(e);
      IdsTail(e);
      HeadNotInTail(e);
    }
    if |a| > 0 {
      CleanTail(a);
      IdsTail(a);
      HeadNotInTail(a);
    }
    if StepOf(e, a).Missing? {
      BelowHead(IdOf(e[0]), a);
    } else if StepOf(e, a).Unexpected? {
      BelowHead(IdOf(a[0]), e);
    }
  }

  lemma OneSided(t: Tally, x: u64, e: set<u64>, a: set<u64>)
    requires CountsSets(t, e, a) && x !in e && x !in a
    ensures CountsSets(Plus(ZERO.(missing := 1), t), {x} + e, a)
  {
    assert ({x} + e) - a == {x} + (e - a);
    assert a - ({x} + e) == a - e;
    assert ({x} + e) * a == e * a;
  }

  lemma OtherSided(t: Tally, x: u64, e: set<u64>, a: set<u64>)
    requires CountsSets(t, e, a) && x !in e && x !in a
    ensures CountsSets(Plus(ZERO.(unexpected := 1), t), e, {x} + a)
  {
    assert ({x} + a) - e == {x} + (a - e);
    assert e - ({x} + a) == e - a;
    assert e * ({x} + a) == e * a;
  }

  lemma TwoSided(t: Tally, x: u64, e: set<u64>, a: set<u64>, pair: Tally)
    requires CountsSets(t, e, a) && x !in e && x !in a
    requires pair.compared == 1 && pair.missing == pair.unexpected == 0
    ensures CountsSets(Plus(pair, t), {x} + e, {x} + a)
  {
    assert ({x} + e) - ({x} + a) == e - a;
    assert ({x} + a) - ({x} + e) == a - e;
    assert ({x} + e) * ({x} + a) == {x} + e * a;
  }
}
