/** Writing frames to segmented capture files (common/capture_writer.cpp). */
module CaptureWriters {
  import opened Bytes
  import opened Frames
  import opened CaptureFiles
  import opened SegmentNames
  import opened CaptureSegments

  // How the disk answers one write: both calls work, opening the segment fails, or the
  // stream takes only a prefix of the frame and goes bad.
  datatype Disk = Works | OpenFails | WriteFails(stored: nat)

  /** A file extended by `bytes`. */
  function Appended(directory: map<string, seq<byte>>, name: string, bytes: seq<byte>): map<string, seq<byte>> {
    directory[name := (if name in directory then directory[name] else []) + bytes]
  }

  lemma AppendedFresh(directory: map<string, seq<byte>>, name: string, bytes: seq<byte>)
    ensures Appended(directory[name := []], name, bytes) == directory[name := bytes]
  {
    assert [] + bytes == bytes;
  }

  // The state of a writer and its directory; `frames` are the frames whose write succeeded.
  datatype Storage = Storage(directory: map<string, seq<byte>>, current: int, open: bool, good: bool,
                             frames: seq<seq<byte>>)

  datatype Answer = Answer(storage: Storage, ok: bool)

  datatype Action = WriteFrame(frame: seq<byte>, disk: Disk) | FlushStream(works: bool)

  function Opened(w: Storage, id: nat, disk: Disk): Answer {
    if id == w.current && w.good then Answer(w, true)
    else if disk.OpenFails? then Answer(w.(open := false, good := false), false)
    else Answer(w.(directory := w.directory[SegmentName(id) := []], current := id, open := true, good := true), true)
  }

  /** One frame on the open segment. */
  function Put(w: Storage, id: nat, frame: seq<byte>, disk: Disk): Answer {
    if disk.WriteFails? then
      var torn := frame[..Min(disk.stored, |frame|)];
      Answer(w.(directory := Appended(w.directory, SegmentName(id), torn), good := false), false)
    else
      Answer(w.(directory := Appended(w.directory, SegmentName(id), frame), frames := w.frames + [frame]), true)
  }

  function Written(w: Storage, s: nat, frame: seq<byte>, disk: Disk): Answer {
    if s == 0 || |frame| != WIRE_FRAME_SIZE then Answer(w, false)
    else
      var id := SegmentOf(|w.frames|, s);
      var ready := Opened(w, id, disk);
      if ready.ok then Put(ready.storage, id, frame, disk) else ready
  }

  function Flushed(w: Storage, works: bool): Answer {
    if w.open then Answer(w.(good := w.good && works), w.good && works) else Answer(w, true)
  }

  function Perform(w: Storage, s: nat, action: Action): Answer {
    match action
    case WriteFrame(frame, disk) => Written(w, s, frame, disk)
    case FlushStream(works) => Flushed(w, works)
  }

  function Start(initial: map<string, seq<byte>>): Storage {
    Storage(initial, -1, false, true, [])
  }

  /** The state after any actions with any answers of the disk. */
  function After(initial: map<string, seq<byte>>, s: nat, actions: seq<Action>): Storage {
    if |actions| == 0 then Start(initial)
    else Perform(After(initial, s, actions[..|actions| - 1]), s, actions[|actions| - 1]).storage
  }

  /** Frame n is the first of its segment. */
  predicate StartsSegment(n: nat, s: nat)
    requires s > 0
  {
    n == First(SegmentOf(n, s), s)
  }

  /** The stream never went bad in mid-segment: whenever a write of a frame or a flush failed, the next
      frame was to start a segment. A caller sees this from frames_written. */
  predicate FailsOnlyBetweenSegments(initial: map<string, seq<byte>>, s: nat, actions: seq<Action>)
    requires s > 0
  {
    var w := After(initial, s, actions);
    && (|actions| > 0 ==> FailsOnlyBetweenSegments(initial, s, actions[..|actions| - 1]))
    && (w.good || StartsSegment(|w.frames|, s))
  }

  /** Nothing has been lost. Between segments a torn frame may stand in the next segment's file until
      a write reopens and truncates it. */
  ghost predicate Sound(w: Storage, s: nat, initial: map<string, seq<byte>>)
    requires s > 0
  {
    var n := |w.frames|;
    && HoldsSegments(w.directory, w.frames, s, SegmentCount(n, s))
    && KeepsOthers(w.directory, initial, if w.good then SegmentCount(n, s) else SegmentOf(n, s) + 1)
    && (w.good ==> w.current + 1 == SegmentCount(n, s))
    && (!w.good ==> StartsSegment(n, s))
  }

  /** Segment k is shorter than its frames. */
  ghost predicate Short(w: Storage, s: nat, k: nat)
    requires s > 0
  {
    && k < SegmentCount(|w.frames|, s) && First(k, s) <= |w.frames| && SegmentName(k) in w.directory
    && |w.directory[SegmentName(k)]| < |Content(w.frames, s, k)|
  }

  /** Something has been lost or will be by the next write that succeeds. */
  ghost predicate Lossy(w: Storage, s: nat)
    requires s > 0
  {
    (!w.good && !StartsSegment(|w.frames|, s)) || exists k :: Short(w, s, k)
  }

  lemma {:induction false} FramesFullSize(initial: map<string, seq<byte>>, s: nat, actions: seq<Action>)
    ensures FullSize(After(initial, s, actions).frames)
  {
    if |actions| > 0 {
      hide SegmentOf, SegmentName;
      FramesFullSize(initial, s, actions[..|actions| - 1]);
    }
  }

  /** A good write in a sound state. */
  lemma SoundWrite(w: Storage, s: nat, initial: map<string, seq<byte>>, frame: seq<byte>, disk: Disk)
    requires s > 0 && Sound(w, s, initial) && Written(w, s, frame, disk).ok
    ensures Sound(Written(w, s, frame, disk).storage, s, initial)
  {
    hide First, SegmentOf, SegmentName, HoldsSegments, KeepsOthers, SegmentCount, AfterWrite;
    var n, id := |w.frames|, SegmentOf(|w.frames|, s);
    CountStep(n, s);
    OthersMore(w.directory, initial, if w.good then SegmentCount(n, s) else id + 1, id + 1);
    HoldsStep(w.directory, initial, w.frames, s, frame);
    WrittenDirectory(w, s, frame, disk);
  }

  lemma WrittenDirectory(w: Storage, s: nat, frame: seq<byte>, disk: Disk)
    requires s > 0 && Written(w, s, frame, disk).ok
    requires w.good && w.current == SegmentOf(|w.frames|, s) <==> !StartsSegment(|w.frames|, s)
    ensures Written(w, s, frame, disk).storage.directory == AfterWrite(w.directory, |w.frames|, s, frame)
  {
    hide First, SegmentOf, SegmentName;
    assert [] + frame == frame;
  }

  /** A write that fails between segments touches only the file of the next segment. */
  lemma SoundFailure(w: Storage, s: nat, initial: map<string, seq<byte>>, frame: seq<byte>, disk: Disk)
    requires s > 0 && Sound(w, s, initial) && !Written(w, s, frame, disk).ok
    requires Written(w, s, frame, disk).storage.good || StartsSegment(|w.frames|, s)
    ensures Sound(Written(w, s, frame, disk).storage, s, initial)
  {
    hide First, SegmentOf, SegmentName, KeepsOthers, SegmentCount;
    var n, id := |w.frames|, SegmentOf(|w.frames|, s);
    CountStep(n, s);
    OthersMore(w.directory, initial, if w.good then SegmentCount(n, s) else id + 1, id + 1);
    var w' := Written(w, s, frame, disk).storage;
    if w' != w && disk.WriteFails? {
      OthersUpdate(w.directory, initial, id, w'.directory[SegmentName(id)]);
      SegmentsApart(w.directory, w.frames, s, id, w'.directory[SegmentName(id)]);
      assert w'.directory == w.directory[SegmentName(id) := w'.directory[SegmentName(id)]];
    }
  }

  lemma {:induction false} AppendsOne(w: Storage, s: nat, frame: seq<byte>, disk: Disk)
    requires s > 0 && Written(w, s, frame, disk).ok
    ensures var w', name := Written(w, s, frame, disk).storage, SegmentName(SegmentOf(|w.frames|, s));
            && w'.frames == w.frames + [frame] && name in w'.directory && w'.good
            && (!w.good ==> w'.directory[name] == frame)
            && (name in w.directory ==> |w'.directory[name]| <= |w.directory[name]| + |frame|)
            && (forall other :: other in w.directory && other != name ==>
                  other in w'.directory && w'.directory[other] == w.directory[other])
  {
    hide First, SegmentOf, SegmentName;
    assert [] + frame == frame;
  }

  lemma ContentSize(frames: seq<seq<byte>>, s: nat, frame: seq<byte>)
    requires s > 0 && FullSize(frames)
    ensures var n, id := |frames|, SegmentOf(|frames|, s);
            && First(id, s) <= n
            && |Content(frames + [frame], s, id)| == WIRE_FRAME_SIZE * (n - First(id, s)) + |frame|
            && (n > First(id, s) ==> |Content(frames, s, id)| == WIRE_FRAME_SIZE * (n - First(id, s)))
  {
    hide First, SegmentOf, Content;
    var id := SegmentOf(|frames|, s);
    SegmentBounds(|frames|, s);
    ContentGrown(frames, s, frame, id);
    FramesOfConcat(frames[First(id, s)..], []);
  }

  /** A good write never makes up for a loss. */
  lemma ShortStays(w: Storage, s: nat, frame: seq<byte>, disk: Disk, k: nat)
    requires s > 0 && FullSize(w.frames) && Written(w, s, frame, disk).ok && Short(w, s, k)
    ensures Short(Written(w, s, frame, disk).storage, s, k)
  {
    hide First, SegmentOf, SegmentName, Content, Written, SegmentCount;
    var n, id := |w.frames|, SegmentOf(|w.frames|, s);
    AppendsOne(w, s, frame, disk);
    CountStep(n, s);
    if k < id {
      ContentKept(w.frames, s, frame, k);
      if SegmentName(k) == SegmentName(id) {
        NameInjective(k, id);
      }
    } else {
      ContentSize(w.frames, s, frame);
      SegmentStarts(n, s, k);
    }
  }

  /** A good write on a stream that went bad in mid-segment truncates what the segment held. */
  lemma RetryTruncates(w: Storage, s: nat, frame: seq<byte>, disk: Disk)
    requires s > 0 && FullSize(w.frames) && Written(w, s, frame, disk).ok
    requires !w.good && !StartsSegment(|w.frames|, s) && |frame| == WIRE_FRAME_SIZE
    ensures Short(Written(w, s, frame, disk).storage, s, SegmentOf(|w.frames|, s))
  {
    hide First, SegmentOf, SegmentName, Content, Written, SegmentCount;
    AppendsOne(w, s, frame, disk);
    SegmentBounds(|w.frames|, s);
    CountStep(|w.frames|, s);
    ContentSize(w.frames, s, frame);
  }

  /** A failed write changes no segment that holds frames unless the stream is then bad in mid-segment. */
  lemma ShortStaysOnFailure(w: Storage, s: nat, frame: seq<byte>, disk: Disk, k: nat)
    requires s > 0 && !Written(w, s, frame, disk).ok && Short(w, s, k)
    ensures Lossy(Written(w, s, frame, disk).storage, s)
  {
    hide First, SegmentOf, SegmentName, Content, SegmentCount;
    var n, id := |w.frames|, SegmentOf(|w.frames|, s);
    var w' := Written(w, s, frame, disk).storage;
    CountStep(n, s);
    if w' != w && StartsSegment(n, s) {
      if SegmentName(k) == SegmentName(id) {
        NameInjective(k, id);
      }
      assert Short(w', s, k);
    } else if w' == w {
      assert Short(w', s, k);
    }
  }

  lemma LossyStep(w: Storage, s: nat, action: Action)
    requires s > 0 && FullSize(w.frames) && Lossy(w, s)
    ensures Lossy(Perform(w, s, action).storage, s)
  {
    hide Short, StartsSegment;
    match action
    case FlushStream(works) =>
      FlushKeeps(w, s, works);
    case WriteFrame(frame, disk) =>
      if Written(w, s, frame, disk).ok {
        WrittenSize(w, s, frame, disk);
        if k :| Short(w, s, k) {
          ShortStays(w, s, frame, disk, k);
        } else {
          RetryTruncates(w, s, frame, disk);
        }
      } else if k :| Short(w, s, k) {
        ShortStaysOnFailure(w, s, frame, disk, k);
      } else {
        StaysBad(w, s, frame, disk);
      }
  }

  lemma WrittenSize(w: Storage, s: nat, frame: seq<byte>, disk: Disk)
    requires Written(w, s, frame, disk).ok
    ensures |frame| == WIRE_FRAME_SIZE
  {
    hide SegmentOf, SegmentName;
  }

  lemma StaysBad(w: Storage, s: nat, frame: seq<byte>, disk: Disk)
    requires !Written(w, s, frame, disk).ok
    ensures var w' := Written(w, s, frame, disk).storage; w'.frames == w.frames && (w'.good ==> w' == w)
  {
    hide SegmentOf, SegmentName;
  }

  lemma FlushKeeps(w: Storage, s: nat, works: bool)
    requires s > 0
    ensures var w' := Flushed(w, works).storage;
            && w'.frames == w.frames && (w'.good ==> w' == w) && (forall k :: Short(w', s, k) <==> Short(w, s, k))
  {
    hide SegmentOf, SegmentName, Content, First, SegmentCount;
  }

  lemma SoundStep(w: Storage, s: nat, initial: map<string, seq<byte>>, action: Action)
    requires s > 0 && Sound(w, s, initial)
    ensures var w' := Perform(w, s, action).storage;
            if w'.good || StartsSegment(|w'.frames|, s) then Sound(w', s, initial) else Lossy(w', s)
  {
    match action
    case FlushStream(works) =>
      hide StartsSegment, HoldsSegments, KeepsOthers, SegmentOf;
      var n := |w.frames|;
      CountStep(n, s);
      if w.good && !works {
        hide SegmentCount;
        OthersMore(w.directory, initial, SegmentCount(n, s), SegmentOf(n, s) + 1);
      }
    case WriteFrame(frame, disk) =>
      hide Sound, StartsSegment, Short;
      if Written(w, s, frame, disk).ok {
        SoundWrite(w, s, initial, frame, disk);
        AppendsOne(w, s, frame, disk);
      } else {
        StaysBad(w, s, frame, disk);
        if Written(w, s, frame, disk).storage.good || StartsSegment(|w.frames|, s) {
          SoundFailure(w, s, initial, frame, disk);
        }
      }
  }

  lemma SoundStart(initial: map<string, seq<byte>>, s: nat)
    requires s > 0
    ensures Sound(Start(initial), s, initial)
  {
  }

  /** Over every run, whatever the disk answers. */
  lemma {:induction false} SoundOrLossy(initial: map<string, seq<byte>>, s: nat, actions: seq<Action>)
    requires s > 0
    ensures if FailsOnlyBetweenSegments(initial, s, actions) then Sound(After(initial, s, actions), s, initial)
            else Lossy(After(initial, s, actions), s)
  {
    hide Sound, Lossy, StartsSegment, Perform;
    if |actions| == 0 {
      SoundStart(initial, s);
    } else {
      var before := actions[..|actions| - 1];
      SoundOrLossy(initial, s, before);
      FramesFullSize(initial, s, before);
      var w := After(initial, s, before);
      if FailsOnlyBetweenSegments(initial, s, before) {
        SoundStep(w, s, initial, actions[|actions| - 1]);
      } else {
        LossyStep(w, s, actions[|actions| - 1]);
      }
    }
  }

  /** After any writes and flushes, with any answers of the disk, that leave the stream good: the
      directory holds exactly the frames whose write succeeded if and only if no write or flush failed
      in mid-segment. Where one did, the next good write truncated the segment. */
  lemma HoldsExactly(initial: map<string, seq<byte>>, s: nat, actions: seq<Action>)
    requires s > 0 && After(initial, s, actions).good
    ensures var w := After(initial, s, actions);
            Holds(w.directory, initial, w.frames, s) <==> FailsOnlyBetweenSegments(initial, s, actions)
  {
    hide FailsOnlyBetweenSegments, First, SegmentOf, SegmentName, Content, SegmentCount;
    SoundOrLossy(initial, s, actions);
  }

  /** Even with the stream bad, nothing already written is lost while that is between segments. */
  lemma WrittenKept(initial: map<string, seq<byte>>, s: nat, actions: seq<Action>)
    requires s > 0 && FailsOnlyBetweenSegments(initial, s, actions)
    ensures var w := After(initial, s, actions);
            HoldsSegments(w.directory, w.frames, s, SegmentCount(|w.frames|, s))
  {
    hide FailsOnlyBetweenSegments, HoldsSegments, First, SegmentOf, SegmentName, SegmentCount;
    SoundOrLossy(initial, s, actions);
  }

  /** One retry: after a failed write, a good one leaves exactly the frames written if and only if the
      failed frame was to start a segment. */
  lemma RetryExactly(initial: map<string, seq<byte>>, s: nat, actions: seq<Action>, frame: seq<byte>, stored: nat)
    requires s > 0 && FailsOnlyBetweenSegments(initial, s, actions) && |frame| == WIRE_FRAME_SIZE
    ensures var w := After(initial, s, actions);
            var failed := Written(w, s, frame, WriteFails(stored));
            var retried := Written(failed.storage, s, frame, Works);
            && !failed.ok && retried.ok && retried.storage.frames == w.frames + [frame]
            && (Holds(retried.storage.directory, initial, w.frames + [frame], s) <==> StartsSegment(|w.frames|, s))
  {
    hide StartsSegment, SegmentOf, SegmentName, First, Holds;
    var fails, works := WriteFrame(frame, WriteFails(stored)), WriteFrame(frame, Works);
    var first, both := actions + [fails], actions + [fails] + [works];
    assert first[..|actions|] == actions && both[..|first|] == first;
    HoldsExactly(initial, s, both);
  }

  /** The same after a failed flush: a file is open once a write has succeeded, and the next good write
      leaves exactly the frames written if and only if it was to start a segment. */
  lemma FlushFailureExactly(initial: map<string, seq<byte>>, s: nat, actions: seq<Action>, frame: seq<byte>)
    requires s > 0 && FailsOnlyBetweenSegments(initial, s, actions) && |frame| == WIRE_FRAME_SIZE
    requires After(initial, s, actions).good && |After(initial, s, actions).frames| > 0
    ensures var w := After(initial, s, actions);
            var flushed := Flushed(w, false);
            var next := Written(flushed.storage, s, frame, Works);
            && !flushed.ok && flushed.storage.directory == w.directory && next.ok
            && next.storage.frames == w.frames + [frame]
            && (Holds(next.storage.directory, initial, w.frames + [frame], s) <==> StartsSegment(|w.frames|, s))
  {
    hide StartsSegment, SegmentOf, SegmentName, First, Holds;
    OpenOnceWritten(initial, s, actions);
    var flush, works := FlushStream(false), WriteFrame(frame, Works);
    var first, both := actions + [flush], actions + [flush] + [works];
    assert first[..|actions|] == actions && both[..|first|] == first;
    HoldsExactly(initial, s, both);
  }

  lemma {:induction false} OpenOnceWritten(initial: map<string, seq<byte>>, s: nat, actions: seq<Action>)
    ensures var w := After(initial, s, actions);
            w.good && (w.current >= 0 || |w.frames| > 0) ==> w.open
    ensures var w := After(initial, s, actions);
            |w.frames| > 0 ==> w.current >= 0
  {
    hide SegmentOf, SegmentName;
    if |actions| > 0 {
      OpenOnceWritten(initial, s, actions[..|actions| - 1]);
    }
  }

  /** What a write that fails does to the files: nothing if it is refused or the segment does not open;
      otherwise the segment ends with the stored prefix of the frame, after what it held, or alone when
      the segment was opened for this write. */
  lemma FailedWrite(w: Storage, s: nat, frame: seq<byte>, disk: Disk)
    requires !Written(w, s, frame, disk).ok
    ensures var w' := Written(w, s, frame, disk).storage;
            && w'.frames == w.frames
            && (s == 0 || |frame| != WIRE_FRAME_SIZE ==> w' == w)
            && (s > 0 && |frame| == WIRE_FRAME_SIZE ==> !w'.good)
            && (s > 0 && |frame| == WIRE_FRAME_SIZE && disk.OpenFails? ==> w'.directory == w.directory && !w'.open)
            && (s > 0 && |frame| == WIRE_FRAME_SIZE && disk.WriteFails? ==>
                  var name, torn := SegmentName(SegmentOf(|w.frames|, s)), frame[..Min(disk.stored, |frame|)];
                  var continues := w.good && w.current == SegmentOf(|w.frames|, s);
                  && w'.directory.Keys == w.directory.Keys + {name}
                  && w'.directory[name] == (if continues && name in w.directory then w.directory[name] else []) + torn
                  && forall other :: other in w.directory && other != name ==>
                       w'.directory[other] == w.directory[other])
  {
    hide SegmentOf, SegmentName;
  }

  /** A capture whose last write failed still reads back: the segment holds the frames written to it, and
      the stored part of the failed frame is its trailing bytes. */
  lemma TornTail(initial: map<string, seq<byte>>, s: nat, actions: seq<Action>, frame: seq<byte>, stored: nat)
    requires s > 0 && FailsOnlyBetweenSegments(initial, s, actions) && After(initial, s, actions).good
    requires |frame| == WIRE_FRAME_SIZE && stored < WIRE_FRAME_SIZE
    ensures var w := After(initial, s, actions);
            var id := SegmentOf(|w.frames|, s);
            var files := Written(w, s, frame, WriteFails(stored)).storage.directory;
            && First(id, s) <= |w.frames| && SegmentName(id) in files
            && FramesOf(files[SegmentName(id)]) == w.frames[First(id, s)..]
            && TrailingOf(files[SegmentName(id)]) == stored
  {
    var w := After(initial, s, actions);
    var n, id := |w.frames|, SegmentOf(|w.frames|, s);
    FramesFullSize(initial, s, actions);
    SoundOrLossy(initial, s, actions);
    hide After, FailsOnlyBetweenSegments, SegmentOf, SegmentName, First, KeepsOthers, SegmentCount, Content;
    CountStep(n, s);
    SegmentBounds(n, s);
    ContentGrown(w.frames, s, frame, id);
    var last := w.frames[First(id, s)..];
    FramesOfConcat(last, frame[..stored]);
    if n == First(id, s) {
      assert last == [] && Concat(last) == [];
    }
    FailedWrite(w, s, frame, WriteFails(stored));
  }

  /** The failing case: a retry in mid-segment leaves the segment with the retried frame alone. */
  lemma RetryLosesFrame(initial: map<string, seq<byte>>, s: nat, first: seq<byte>, second: seq<byte>, stored: nat)
    requires s > 1 && |first| == |second| == WIRE_FRAME_SIZE
    ensures var retry := [WriteFrame(second, WriteFails(stored)), WriteFrame(second, Works)];
            var actions := [WriteFrame(first, Works)] + retry;
            var w := After(initial, s, actions);
            && w.good && w.frames == [first, second] && w.directory == initial[SegmentName(0) := second]
            && !Holds(w.directory, initial, w.frames, s)
  {
    hide SegmentName, Holds, After, Written, StartsSegment, FailsOnlyBetweenSegments;
    var a1, a2, a3 := WriteFrame(first, Works), WriteFrame(second, WriteFails(stored)), WriteFrame(second, Works);
    FirstOfTwo(initial, s, first, second, stored);
    assert After(initial, s, []) == Start(initial) by { AfterNothing(initial, s); }
    assert [] + [a1] == [a1] && [a1] + [a2] == [a1, a2] && [a1, a2] + [a3] == [a1] + [a2, a3];
    AfterOneMore(initial, s, [], a1);
    AfterOneMore(initial, s, [a1], a2);
    AfterOneMore(initial, s, [a1, a2], a3);
    NothingFails(initial, s);
    GoodWrite(initial, s, [], a1);
    RetryExactly(initial, s, [a1], second, stored);
  }

  function OneWritten(initial: map<string, seq<byte>>, frame: seq<byte>): Storage {
    Storage(initial[SegmentName(0) := frame], 0, true, true, [frame])
  }

  lemma FirstOfTwo(initial: map<string, seq<byte>>, s: nat, first: seq<byte>, second: seq<byte>, stored: nat)
    requires s > 1 && |first| == |second| == WIRE_FRAME_SIZE
    ensures Written(Start(initial), s, first, Works).storage == OneWritten(initial, first)
    ensures var failed := Written(OneWritten(initial, first), s, second, WriteFails(stored)).storage;
            && Written(failed, s, second, Works).storage
               == Storage(initial[SegmentName(0) := second], 0, true, true, [first, second])
    ensures !StartsSegment(1, s)
  {
    hide SegmentName, SegmentOf, First;
    FirstZero(s);
    SegmentUnique(0, s, 0);
    SegmentUnique(1, s, 0);
    AppendedFresh(initial, SegmentName(0), first);
    assert [] + [first] == [first];
    var failed := Written(OneWritten(initial, first), s, second, WriteFails(stored)).storage;
    assert !failed.good && failed.frames == [first];
    AppendedFresh(failed.directory, SegmentName(0), second);
    assert failed.directory[SegmentName(0) := second] == initial[SegmentName(0) := second];
    assert [first] + [second] == [first, second];
  }

  lemma AfterNothing(initial: map<string, seq<byte>>, s: nat)
    ensures After(initial, s, []) == Start(initial)
  {
  }

  lemma NothingFails(initial: map<string, seq<byte>>, s: nat)
    requires s > 0
    ensures FailsOnlyBetweenSegments(initial, s, [])
  {
  }

  lemma GoodWrite(initial: map<string, seq<byte>>, s: nat, actions: seq<Action>, action: Action)
    requires s > 0 && FailsOnlyBetweenSegments(initial, s, actions)
    requires After(initial, s, actions + [action]).good
    ensures FailsOnlyBetweenSegments(initial, s, actions + [action])
  {
    hide After, StartsSegment;
    assert (actions + [action])[..|actions|] == actions;
  }

  class CaptureWriter {
    const framesPerSegment: nat
    var currentSegment: int  // -1 before the first segment
    var framesWritten: nat
    var streamGood: bool
    var streamOpen: bool
    var directory: map<string, seq<byte>>
    ghost var frames: seq<seq<byte>>  // what the successful writes were given
    ghost var actions: seq<Action>  // what has been done so far
    ghost const initial: map<string, seq<byte>>

    ghost function State(): Storage
      reads this
    {
      Storage(directory, currentSegment, streamOpen, streamGood, frames)
    }

    ghost predicate Valid()
      reads this
    {
      framesWritten == |frames| && State() == After(initial, framesPerSegment, actions)
    }

    constructor (directory: map<string, seq<byte>>, framesPerSegment: nat)
      ensures Valid() && actions == [] && frames == [] && initial == this.directory == directory
      ensures this.framesPerSegment == framesPerSegment && streamGood && currentSegment == -1
    {
      this.framesPerSegment := framesPerSegment;
      this.directory, initial := directory, directory;
      currentSegment, framesWritten, streamGood, streamOpen := -1, 0, true, false;
      frames, actions := [], [];
    }

    method OpenSegment(id: nat, disk: Disk) returns (ok: bool)
      modifies this
      ensures Answer(State(), ok) == Opened(old(State()), id, disk)
      ensures framesWritten == old(framesWritten) && actions == old(actions)
    {
      if id == currentSegment && streamGood {
        return true;
      }
      streamOpen := false;
      if disk == OpenFails {
        streamGood := false;
        return false;
      }
      directory := directory[SegmentName(id) := []];
      streamOpen, streamGood := true, true;
      currentSegment := id;
      return true;
    }

    /** Appends one wire frame. */
    method Write(frame: seq<byte>, disk: Disk) returns (ok: bool)
      requires Valid()
      modifies this
      ensures Valid() && actions == old(actions) + [WriteFrame(frame, disk)]
      ensures Answer(State(), ok) == Written(old(State()), framesPerSegment, frame, disk)
      ensures frames == if ok then old(frames) + [frame] else old(frames)
      ensures disk.Works? && framesPerSegment > 0 && |frame| == WIRE_FRAME_SIZE ==> ok
      ensures ok ==> streamGood
    {
      hide After, SegmentName, SegmentOf;
      ghost var before := State();
      ok := StoreFrame(frame, disk);
      actions := actions + [WriteFrame(frame, disk)];
      AfterOneMore(initial, framesPerSegment, old(actions), WriteFrame(frame, disk));
    }

    /** The body of write. */
    method StoreFrame(frame: seq<byte>, disk: Disk) returns (ok: bool)
      requires framesWritten == |frames|
      modifies this
      ensures framesWritten == |frames| && actions == old(actions)
      ensures Answer(State(), ok) == Written(old(State()), framesPerSegment, frame, disk)
    {
      hide SegmentName, SegmentOf, After;
      if framesPerSegment == 0 || |frame| != WIRE_FRAME_SIZE {
        return false;
      }
      var id := SegmentOf(framesWritten, framesPerSegment);
      ok := OpenSegment(id, disk);
      if !ok {
        return false;
      }
      if disk.WriteFails? {
        directory := Appended(directory, SegmentName(id), frame[..Min(disk.stored, |frame|)]);
        streamGood := false;
        return false;
      }
      directory := Appended(directory, SegmentName(id), frame);
      framesWritten := framesWritten + 1;
      frames := frames + [frame];
      return true;
    }

    method Flush(works: bool) returns (ok: bool)
      requires Valid()
      modifies this
      ensures Valid() && actions == old(actions) + [FlushStream(works)]
      ensures Answer(State(), ok) == Flushed(old(State()), works)
    {
      hide After;
      AfterOneMore(initial, framesPerSegment, actions, FlushStream(works));
      if streamOpen {
        streamGood := streamGood && works;
      }
      ok := !streamOpen || streamGood;
      actions := actions + [FlushStream(works)];
    }
  }

  lemma AfterOneMore(initial: map<string, seq<byte>>, s: nat, actions: seq<Action>, action: Action)
    ensures After(initial, s, actions + [action]) == Perform(After(initial, s, actions), s, action).storage
  {
    hide Perform;
    assert (actions + [action])[..|actions|] == actions;
  }
}
