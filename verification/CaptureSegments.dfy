/** What the segment files of a capture hold (common/capture_writer.cpp). */
module CaptureSegments {
  import opened Bytes
  import opened Division
  import opened CaptureFiles
  import opened SegmentNames

  /** The segment that frame n goes to, s frames to a segment. */
  function SegmentOf(n: nat, s: nat): nat
    requires s > 0
  {
    Quotient(n, s)
  }

  /** The first frame of segment k. */
  function First(k: nat, s: nat): nat {
    Multiple(k, s)
  }

  /** How many segments n frames fill. */
  function SegmentCount(n: nat, s: nat): nat
    requires s > 0
  {
    if n == 0 then 0 else SegmentOf(n - 1, s) + 1
  }

  /** Segment k holds its s frames, as far as there are frames. */
  function Content(frames: seq<seq<byte>>, s: nat, k: nat): seq<byte>
    requires First(k, s) <= |frames|
  {
    FirstNext(k, s);
    Concat(frames[First(k, s)..Min(First(k + 1, s), |frames|)])
  }

  ghost predicate IsSegment(name: string, count: nat) {
    exists k: nat :: k < count && SegmentName(k) == name
  }

  // ---- frame numbers and segments

  lemma FirstNext(k: nat, s: nat)
    ensures First(k + 1, s) == First(k, s) + s
  {
    hide Multiple;
    MultipleNext(k, s);
  }

  lemma FirstMonotone(a: nat, b: nat, s: nat)
    requires a <= b
    ensures First(a, s) <= First(b, s)
  {
    hide Multiple;
    MultipleMonotone(a, b, s);
  }

  lemma SegmentBounds(n: nat, s: nat)
    requires s > 0
    ensures First(SegmentOf(n, s), s) <= n < First(SegmentOf(n, s) + 1, s)
  {
    hide Multiple, Quotient, Remainder;
    Divided(n, s);
    MultipleNext(Quotient(n, s), s);
  }

  lemma SegmentUnique(n: nat, s: nat, q: nat)
    requires s > 0 && First(q, s) <= n < First(q + 1, s)
    ensures SegmentOf(n, s) == q
  {
    hide Multiple, Quotient, Remainder;
    MultipleNext(q, s);
    DividedOnce(n, s, q, n - Multiple(q, s));
  }

  lemma CountStep(n: nat, s: nat)
    requires s > 0
    ensures SegmentCount(n + 1, s) == SegmentOf(n, s) + 1
    ensures SegmentCount(n, s) == if n == First(SegmentOf(n, s), s) then SegmentOf(n, s) else SegmentOf(n, s) + 1
  {
    hide First, SegmentOf;
    var q := SegmentOf(n, s);
    SegmentBounds(n, s);
    FirstNext(q, s);
    if n == 0 {
      FirstZero(s);
      SegmentUnique(0, s, 0);
    } else if n == First(q, s) {
      FirstNotZero(q, s);
      FirstNext(q - 1, s);
      SegmentUnique(n - 1, s, q - 1);
    } else {
      SegmentUnique(n - 1, s, q);
    }
  }

  lemma FirstNotZero(q: nat, s: nat)
    requires First(q, s) > 0
    ensures q > 0
  {
  }

  lemma FirstZero(s: nat)
    ensures First(0, s) == 0 && First(1, s) == s
  {
  }

  lemma SegmentStarts(n: nat, s: nat, k: nat)
    requires s > 0 && k < SegmentCount(n, s)
    ensures First(k, s) < n
  {
    hide First, SegmentOf;
    SegmentBounds(n - 1, s);
    FirstMonotone(k, SegmentOf(n - 1, s), s);
  }

  // ---- what the directory holds

  /** Segments 0 to count - 1 are there, each with its content. */
  ghost predicate HoldsSegments(directory: map<string, seq<byte>>, frames: seq<seq<byte>>, s: nat, count: nat) {
    forall k: nat :: k < count ==>
      First(k, s) <= |frames| && SegmentName(k) in directory && directory[SegmentName(k)] == Content(frames, s, k)
  }

  /** Everything else is as it was. */
  ghost predicate KeepsOthers(directory: map<string, seq<byte>>, initial: map<string, seq<byte>>, count: nat) {
    && (forall name :: name in directory ==> name in initial || IsSegment(name, count))
    && (forall name :: name in initial && !IsSegment(name, count) ==>
          name in directory && directory[name] == initial[name])
  }

  /** `directory` holds exactly the segments of `frames`, over what `initial` held. */
  ghost predicate Holds(directory: map<string, seq<byte>>, initial: map<string, seq<byte>>, frames: seq<seq<byte>>,
                        s: nat)
    requires s > 0
  {
    && HoldsSegments(directory, frames, s, SegmentCount(|frames|, s))
    && KeepsOthers(directory, initial, SegmentCount(|frames|, s))
  }

  lemma ContentKept(frames: seq<seq<byte>>, s: nat, frame: seq<byte>, k: nat)
    requires s > 0 && k < SegmentOf(|frames|, s)
    ensures First(k, s) <= |frames| && Content(frames + [frame], s, k) == Content(frames, s, k)
  {
    hide First, SegmentOf;
    var n := |frames|;
    SegmentBounds(n, s);
    FirstNext(k, s);
    FirstMonotone(k + 1, SegmentOf(n, s), s);
    assert (frames + [frame])[First(k, s)..First(k + 1, s)] == frames[First(k, s)..First(k + 1, s)];
  }

  lemma ContentGrown(frames: seq<seq<byte>>, s: nat, frame: seq<byte>, k: nat)
    requires s > 0 && k == SegmentOf(|frames|, s)
    ensures First(k, s) <= |frames|
    ensures Content(frames + [frame], s, k) == Concat(frames[First(k, s)..]) + frame
    ensures |frames| > First(k, s) ==> Content(frames, s, k) == Concat(frames[First(k, s)..])
  {
    hide First, SegmentOf;
    var n := |frames|;
    SegmentBounds(n, s);
    var last := frames[First(k, s)..];
    assert frames[First(k, s)..n] == last;
    assert (frames + [frame])[First(k, s)..n + 1] == last + [frame];
    ConcatAppend(last, [frame]);
    ConcatOne(frame);
  }

  /** The directory after one good write: a new segment or the last one extended. */
  function AfterWrite(directory: map<string, seq<byte>>, n: nat, s: nat, frame: seq<byte>): map<string, seq<byte>>
    requires s > 0
  {
    var name := SegmentName(SegmentOf(n, s));
    var before := if n == First(SegmentOf(n, s), s) || name !in directory then [] else directory[name];
    directory[name := before + frame]
  }

  lemma SegmentsStep(directory: map<string, seq<byte>>, frames: seq<seq<byte>>, s: nat, frame: seq<byte>)
    requires s > 0 && HoldsSegments(directory, frames, s, SegmentCount(|frames|, s))
    ensures HoldsSegments(AfterWrite(directory, |frames|, s, frame), frames + [frame], s, SegmentOf(|frames|, s) + 1)
  {
    hide First, SegmentOf, Content, SegmentName;
    var id := SegmentOf(|frames|, s);
    var after := AfterWrite(directory, |frames|, s, frame);
    CountStep(|frames|, s);
    ContentGrown(frames, s, frame, id);
    if |frames| == First(id, s) {
      assert frames[First(id, s)..] == [];
    }
    forall k: nat | k < id + 1
      ensures First(k, s) <= |frames| + 1 && SegmentName(k) in after
                && after[SegmentName(k)] == Content(frames + [frame], s, k)
    {
      if k < id {
        ContentKept(frames, s, frame, k);
        if SegmentName(k) == SegmentName(id) {
          NameInjective(k, id);
        }
      }
    }
  }

  lemma OthersMore(directory: map<string, seq<byte>>, initial: map<string, seq<byte>>, count: nat, more: nat)
    requires KeepsOthers(directory, initial, count) && count <= more
    ensures KeepsOthers(directory, initial, more)
  {
    hide SegmentName;
  }

  /** Segment `id` may hold anything while the directory is judged by its first id + 1 segments. */
  lemma OthersUpdate(directory: map<string, seq<byte>>, initial: map<string, seq<byte>>, id: nat, content: seq<byte>)
    requires KeepsOthers(directory, initial, id + 1)
    ensures KeepsOthers(directory[SegmentName(id) := content], initial, id + 1)
  {
    hide SegmentName;
    assert IsSegment(SegmentName(id), id + 1);
  }

  lemma HoldsStep(directory: map<string, seq<byte>>, initial: map<string, seq<byte>>, frames: seq<seq<byte>>, s: nat,
                  frame: seq<byte>)
    requires s > 0 && HoldsSegments(directory, frames, s, SegmentCount(|frames|, s))
    requires KeepsOthers(directory, initial, SegmentOf(|frames|, s) + 1)
    ensures Holds(AfterWrite(directory, |frames|, s, frame), initial, frames + [frame], s)
  {
    hide First, SegmentOf, SegmentName, HoldsSegments, KeepsOthers;
    CountStep(|frames|, s);
    SegmentsStep(directory, frames, s, frame);
    var id := SegmentOf(|frames|, s);
    OthersUpdate(directory, initial, id, AfterWrite(directory, |frames|, s, frame)[SegmentName(id)]);
  }

  lemma SegmentsApart(directory: map<string, seq<byte>>, frames: seq<seq<byte>>, s: nat, id: nat, content: seq<byte>)
    requires s > 0 && HoldsSegments(directory, frames, s, id)
    ensures HoldsSegments(directory[SegmentName(id) := content], frames, s, id)
  {
    hide First, SegmentName, Content;
    forall k: nat | k < id
      ensures SegmentName(k) != SegmentName(id)
    {
      if SegmentName(k) == SegmentName(id) {
        NameInjective(k, id);
      }
    }
  }
}
