/** Continuity accounting over frame ids (receiver/loss_detector.cpp). */
module LossDetectors {
  import opened Bytes

  datatype ContinuityStats = ContinuityStats(
    frameCount: nat, firstFrameId: u64, lastFrameId: u64,
    gapCount: nat, duplicateCount: nat, reorderCount: nat, missingFrameCount: nat)

  /** The ids of [first, last] that were never observed. */
  ghost function Unseen(ids: seq<u64>, first: int, last: int): set<int> {
    set x: int | first <= x <= last && x !in ids
  }

  /** How the counters account for every observed id. */
  ghost predicate Accounts(s: ContinuityStats, ids: seq<u64>)
    requires |ids| > 0
  {
    && s.frameCount == |ids|
    && s.firstFrameId == ids[0]
    && s.lastFrameId in ids && (forall x :: x in ids ==> x <= s.lastFrameId)
    && s.frameCount + s.missingFrameCount == s.lastFrameId - s.firstFrameId + 1 + s.duplicateCount + s.reorderCount
    && s.missingFrameCount <= s.lastFrameId - s.firstFrameId
    && s.missingFrameCount - s.reorderCount <= |Unseen(ids, s.firstFrameId, s.lastFrameId)| <= s.missingFrameCount
    && s.gapCount <= s.missingFrameCount && (s.gapCount == 0 <==> s.missingFrameCount == 0)
  }

  /** The integers of [a, b). */
  ghost function Interval(a: int, b: int): (s: set<int>)
    requires a <= b
    ensures |s| == b - a
    ensures forall x :: x in s <==> a <= x < b
    decreases b - a
  {
    if a == b then {} else Interval(a, b - 1) + {b - 1}
  }

  lemma UnseenAfterRepeat(ids: seq<u64>, first: int, last: int, id: u64)
    requires id in ids
    ensures Unseen(ids + [id], first, last) == Unseen(ids, first, last)
  {
  }

  lemma UnseenAfterLate(ids: seq<u64>, first: int, last: int, id: u64)
    ensures |Unseen(ids, first, last)| - 1 <= |Unseen(ids + [id], first, last)| <= |Unseen(ids, first, last)|
  {
    assert Unseen(ids + [id], first, last) == Unseen(ids, first, last) - {id as int};
  }

  lemma UnseenAfterAdvance(ids: seq<u64>, first: int, last: u64, id: u64)
    requires first <= last < id && last in ids && forall x :: x in ids ==> x <= last
    ensures |Unseen(ids + [id], first, id)| == |Unseen(ids, first, last)| + (id - last - 1)
  {
    var gap := Interval(last + 1, id);
    assert Unseen(ids + [id], first, id) == Unseen(ids, first, last) + gap;
    assert Unseen(ids, first, last) !! gap;
  }

  /** The counters after one more id. The unsigned sum last + 1 is written with its wrap-around. */
  function Count(before: ContinuityStats, id: u64): ContinuityStats {
    var s := before.(frameCount := before.frameCount + 1);
    if id == s.lastFrameId then s.(duplicateCount := s.duplicateCount + 1)
    else if id < s.lastFrameId then s.(reorderCount := s.reorderCount + 1)
    else if id > (s.lastFrameId + 1) % 0x1_0000_0000_0000_0000 then
      s.(gapCount := s.gapCount + 1, missingFrameCount := s.missingFrameCount + (id - s.lastFrameId - 1),
         lastFrameId := id)
    else s.(lastFrameId := id)
  }

  /** The counters after observing `ids`. */
  function StatsAfter(ids: seq<u64>): ContinuityStats
    requires |ids| > 0
  {
    var n := |ids| - 1;
    if n == 0 then ContinuityStats(1, ids[0], ids[0], 0, 0, 0, 0) else Count(StatsAfter(ids[..n]), ids[n])
  }

  lemma AccountsStep(s: ContinuityStats, ids: seq<u64>, id: u64)
    requires |ids| > 0 && Accounts(s, ids)
    ensures Accounts(Count(s, id), ids + [id])
  {
    hide Unseen;
    assert (ids + [id])[0] == ids[0];
    if id == s.lastFrameId {
      UnseenAfterRepeat(ids, s.firstFrameId, s.lastFrameId, id);
    } else if id < s.lastFrameId {
      UnseenAfterLate(ids, s.firstFrameId, s.lastFrameId, id);
    } else {
      NoWrap(s.lastFrameId, id);
      UnseenAfterAdvance(ids, s.firstFrameId, s.lastFrameId, id);
    }
  }

  /** Loss accounting over every id stream: last is the maximum, the counters balance, missing never
      exceeds the id range, and the ids never observed are at most the missing ones and at least
      those less the late ones. */
  lemma {:induction false} StatsAccount(ids: seq<u64>)
    requires |ids| > 0
    ensures Accounts(StatsAfter(ids), ids)
  {
    var n := |ids| - 1;
    if n == 0 {
      assert Unseen(ids, ids[0], ids[0]) == {};
    } else {
      hide Accounts, Count;
      StatsAccount(ids[..n]);
      AccountsStep(StatsAfter(ids[..n]), ids[..n], ids[n]);
      assert ids == ids[..n] + [ids[n]];
    }
  }

  /** Where last + 1 is compared, it has not wrapped. */
  lemma NoWrap(last: u64, id: u64)
    requires id > last
    ensures (last + 1) % 0x1_0000_0000_0000_0000 == last + 1
  {
  }

  // ---- what each counter counts, from the ids alone

  /** Id k repeats the greatest id before it. */
  ghost predicate Duplicate(ids: seq<u64>, k: nat)
    requires k < |ids|
  {
    ids[k] in ids[..k] && forall x :: x in ids[..k] ==> x <= ids[k]
  }

  /** Id k comes after a greater one. */
  ghost predicate Reordered(ids: seq<u64>, k: nat)
    requires k < |ids|
  {
    exists x :: x in ids[..k] && ids[k] < x
  }

  /** Id k leaves out ids after all those before it. */
  ghost predicate AfterGap(ids: seq<u64>, k: nat)
    requires k < |ids|
  {
    k > 0 && forall x :: x in ids[..k] ==> x < ids[k] && ids[k] - x > 1
  }

  ghost function Duplicates(ids: seq<u64>): set<nat> {
    set k: nat | k < |ids| && Duplicate(ids, k)
  }

  ghost function ReorderedIds(ids: seq<u64>): set<nat> {
    set k: nat | k < |ids| && Reordered(ids, k)
  }

  ghost function Gaps(ids: seq<u64>): set<nat> {
    set k: nat | k < |ids| && AfterGap(ids, k)
  }

  /** The three kinds are decided by the greatest id so far. */
  lemma KindOfLast(ids: seq<u64>, id: u64, max: u64)
    requires |ids| > 0 && max in ids && forall x :: x in ids ==> x <= max
    ensures Duplicate(ids + [id], |ids|) <==> id == max
    ensures Reordered(ids + [id], |ids|) <==> id < max
    ensures AfterGap(ids + [id], |ids|) <==> id > max + 1
  {
    assert (ids + [id])[..|ids|] == ids;
  }

  lemma KindsKept(ids: seq<u64>, id: u64, k: nat)
    requires k < |ids|
    ensures Duplicate(ids + [id], k) == Duplicate(ids, k)
    ensures Reordered(ids + [id], k) == Reordered(ids, k)
    ensures AfterGap(ids + [id], k) == AfterGap(ids, k)
  {
    assert (ids + [id])[..k] == ids[..k];
  }

  lemma KindsNext(ids: seq<u64>, id: u64)
    ensures Duplicates(ids + [id]) == Duplicates(ids) + if Duplicate(ids + [id], |ids|) then {|ids|} else {}
    ensures ReorderedIds(ids + [id]) == ReorderedIds(ids) + if Reordered(ids + [id], |ids|) then {|ids|} else {}
    ensures Gaps(ids + [id]) == Gaps(ids) + if AfterGap(ids + [id], |ids|) then {|ids|} else {}
  {
    hide Duplicate, Reordered, AfterGap;
    forall k: nat | k < |ids|
      ensures Duplicate(ids + [id], k) == Duplicate(ids, k)
      ensures Reordered(ids + [id], k) == Reordered(ids, k)
      ensures AfterGap(ids + [id], k) == AfterGap(ids, k)
    {
      KindsKept(ids, id, k);
    }
  }

  lemma FirstHasNoKind(ids: seq<u64>)
    requires |ids| == 1
    ensures Duplicates(ids) == {} && ReorderedIds(ids) == {} && Gaps(ids) == {}
  {
  }

  ghost predicate CountsKinds(s: ContinuityStats, ids: seq<u64>) {
    s.duplicateCount == |Duplicates(ids)| && s.reorderCount == |ReorderedIds(ids)| && s.gapCount == |Gaps(ids)|
  }

  lemma OneMore(before: set<nat>, n: nat, c: bool)
    requires n !in before
    ensures |before + if c then {n} else {}| == if c then |before| + 1 else |before|
  {
    if !c {
      assert before + {} == before;
    }
  }

  /** How the next id changes the numbers, by the greatest id so far. */
  lemma KindSizes(ids: seq<u64>, id: u64, max: u64)
    requires |ids| > 0 && max in ids && forall x :: x in ids ==> x <= max
    ensures |Duplicates(ids + [id])| == |Duplicates(ids)| + if id == max then 1 else 0
    ensures |ReorderedIds(ids + [id])| == |ReorderedIds(ids)| + if id < max then 1 else 0
    ensures |Gaps(ids + [id])| == |Gaps(ids)| + if id > max + 1 then 1 else 0
  {
    KindOfLast(ids, id, max);
    assert |ids| !in Duplicates(ids) && |ids| !in ReorderedIds(ids) && |ids| !in Gaps(ids);
    hide Duplicate, Reordered, AfterGap, Duplicates, ReorderedIds, Gaps;
    KindsNext(ids, id);
    OneMore(Duplicates(ids), |ids|, id == max);
    OneMore(ReorderedIds(ids), |ids|, id < max);
    OneMore(Gaps(ids), |ids|, id > max + 1);
  }

  lemma CountKinds(s: ContinuityStats, ids: seq<u64>, id: u64)
    requires |ids| > 0 && CountsKinds(s, ids)
    requires s.lastFrameId in ids && forall x :: x in ids ==> x <= s.lastFrameId
    ensures CountsKinds(Count(s, id), ids + [id])
  {
    hide Duplicates, ReorderedIds, Gaps;
    KindSizes(ids, id, s.lastFrameId);
    if id > s.lastFrameId {
      NoWrap(s.lastFrameId, id);
    }
  }

  /** Over every id stream: duplicates repeat the greatest id so far, reordered ids are below it, and gaps
      are jumps beyond the id after it. */
  lemma {:induction false} KindsCounted(ids: seq<u64>)
    requires |ids| > 0
    ensures var s := StatsAfter(ids);
            && s.duplicateCount == |Duplicates(ids)|
            && s.reorderCount == |ReorderedIds(ids)|
            && s.gapCount == |Gaps(ids)|
  {
    var n := |ids| - 1;
    if n == 0 {
      FirstHasNoKind(ids);
    } else {
      hide Count, Duplicates, ReorderedIds, Gaps, Unseen;
      KindsCounted(ids[..n]);
      StatsAccount(ids[..n]);
      CountKinds(StatsAfter(ids[..n]), ids[..n], ids[n]);
      assert ids == ids[..n] + [ids[n]];
    }
  }

  predicate Follows(id: int, previous: int) {
    id == previous + 1
  }

  ghost predicate Consecutive(ids: seq<u64>) {
    forall k :: 0 < k < |ids| ==> Follows(ids[k], ids[k - 1])
  }

  /** No gap, no duplicate, no reordering: exactly the consecutive id streams. */
  lemma {:induction false} PerfectExactly(ids: seq<u64>)
    requires |ids| > 0
    ensures Consecutive(ids) <==>
            var s := StatsAfter(ids); s.missingFrameCount == 0 && s.duplicateCount == 0 && s.reorderCount == 0
    ensures Consecutive(ids) ==> StatsAfter(ids).lastFrameId == ids[|ids| - 1] && StatsAfter(ids).gapCount == 0
  {
    var n := |ids| - 1;
    if n > 0 {
      var before := ids[..n];
      PerfectExactly(before);
      assert Consecutive(ids) <==> Consecutive(before) && Follows(ids[n], ids[n - 1]);
      assert before[|before| - 1] == ids[n - 1];
    }
  }

  class LossDetector {
    var stats: ContinuityStats
    var seenAny: bool
    ghost var ids: seq<u64>

    ghost predicate Valid()
      reads this
    {
      && (seenAny <==> |ids| > 0)
      && stats == if |ids| > 0 then StatsAfter(ids) else ContinuityStats(0, 0, 0, 0, 0, 0, 0)
    }

    constructor ()
      ensures Valid() && ids == []
    {
      stats := ContinuityStats(0, 0, 0, 0, 0, 0, 0);
      seenAny := false;
      ids := [];
    }

    method Observe(frameId: u64)
      requires Valid()
      modifies this
      ensures Valid() && ids == old(ids) + [frameId] && stats == StatsAfter(ids)
    {
      ids := ids + [frameId];
      assert ids[..|ids| - 1] == old(ids);
      if !seenAny {
        seenAny := true;
        stats := stats.(firstFrameId := frameId, lastFrameId := frameId, frameCount := 1);
        return;
      }
      stats := stats.(frameCount := stats.frameCount + 1);
      if frameId == stats.lastFrameId {
        stats := stats.(duplicateCount := stats.duplicateCount + 1);
        return;
      }
      if frameId < stats.lastFrameId {
        stats := stats.(reorderCount := stats.reorderCount + 1);
        return;
      }
      var next := (stats.lastFrameId + 1) % 0x1_0000_0000_0000_0000;
      if frameId > next {
        stats := stats.(gapCount := stats.gapCount + 1,
                        missingFrameCount := stats.missingFrameCount + (frameId - stats.lastFrameId - 1));
      }
      stats := stats.(lastFrameId := frameId);
    }
  }
}
