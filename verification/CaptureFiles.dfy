/** Files of wire frames laid end to end: what they hold and what is left over. */
module CaptureFiles {
  import opened Bytes
  import opened Frames

  datatype File = Unreadable | Readable(bytes: seq<byte>)

  /** The complete frames at the front of `b`. */
  function FramesOf(b: seq<byte>): (fs: seq<seq<byte>>)
    ensures forall i :: 0 <= i < |fs| ==> |fs[i]| == WIRE_FRAME_SIZE
    decreases |b|
  {
    if |b| < WIRE_FRAME_SIZE then [] else [b[..WIRE_FRAME_SIZE]] + FramesOf(b[WIRE_FRAME_SIZE..])
  }

  /** The size of the partial frame at the end of `b`. */
  function TrailingOf(b: seq<byte>): nat {
    |b| % WIRE_FRAME_SIZE
  }

  function Concat(fs: seq<seq<byte>>): seq<byte> {
    if |fs| == 0 then [] else fs[0] + Concat(fs[1..])
  }

  predicate FullSize(fs: seq<seq<byte>>) {
    forall i :: 0 <= i < |fs| ==> |fs[i]| == WIRE_FRAME_SIZE
  }

  function FileFrames(f: File): (fs: seq<seq<byte>>)
    ensures FullSize(fs)
  {
    if f.Readable? then FramesOf(f.bytes) else []
  }

  function FileTrailing(f: File): nat {
    if f.Readable? then TrailingOf(f.bytes) else 0
  }

  function AllFrames(files: seq<File>): (fs: seq<seq<byte>>)
    ensures FullSize(fs)
  {
    if |files| == 0 then [] else FileFrames(files[0]) + AllFrames(files[1..])
  }

  function AllTrailing(files: seq<File>): nat {
    if |files| == 0 then 0 else FileTrailing(files[0]) + AllTrailing(files[1..])
  }

  function AllBytes(files: seq<File>): nat {
    if |files| == 0 then 0 else (if files[0].Readable? then |files[0].bytes| else 0) + AllBytes(files[1..])
  }

  lemma {:induction false} ConcatAppend(a: seq<seq<byte>>, b: seq<seq<byte>>)
    ensures Concat(a + b) == Concat(a) + Concat(b)
  {
    if |a| == 0 {
      assert a + b == b;
    } else {
      assert (a + b)[1..] == a[1..] + b;
      ConcatAppend(a[1..], b);
    }
  }

  lemma ConcatOne(f: seq<byte>)
    ensures Concat([f]) == f
  {
    assert [f][1..] == [];
  }

  /** Frames laid end to end, with less than a frame after them, are read back as they were. */
  lemma {:induction false} FramesOfConcat(fs: seq<seq<byte>>, tail: seq<byte>)
    requires FullSize(fs) && |tail| < WIRE_FRAME_SIZE
    ensures FramesOf(Concat(fs) + tail) == fs
    ensures |Concat(fs)| == WIRE_FRAME_SIZE * |fs|
    ensures TrailingOf(Concat(fs) + tail) == |tail|
  {
    if |fs| > 0 {
      FramesOfConcat(fs[1..], tail);
      var b := Concat(fs) + tail;
      assert b == fs[0] + (Concat(fs[1..]) + tail);
      assert b[..WIRE_FRAME_SIZE] == fs[0] && b[WIRE_FRAME_SIZE..] == Concat(fs[1..]) + tail;
    }
  }

  /** The k-th frame of a stream of frames sits at offset k times the frame size. */
  lemma {:induction false} FrameAt(fs: seq<seq<byte>>, k: nat)
    requires FullSize(fs) && k < |fs|
    ensures |Concat(fs)| == WIRE_FRAME_SIZE * |fs|
    ensures Concat(fs)[WIRE_FRAME_SIZE * k..WIRE_FRAME_SIZE * (k + 1)] == fs[k]
  {
    FramesOfConcat(fs, []);
    ConcatAppend(fs[..k], fs[k..]);
    assert fs[..k] + fs[k..] == fs;
    FramesOfConcat(fs[..k], []);
    assert Concat(fs[k..]) == fs[k] + Concat(fs[k..][1..]);
  }

  /** Any byte string splits into its complete frames and the trailing part. */
  lemma {:induction false} FramesCover(b: seq<byte>)
    ensures |b| == WIRE_FRAME_SIZE * |FramesOf(b)| + TrailingOf(b)
    ensures Concat(FramesOf(b)) == b[..|b| - TrailingOf(b)]
    decreases |b|
  {
    if |b| >= WIRE_FRAME_SIZE {
      var rest := b[WIRE_FRAME_SIZE..];
      FramesCover(rest);
      var fs := FramesOf(b);
      assert fs[1..] == FramesOf(rest);
      assert b == b[..WIRE_FRAME_SIZE] + rest;
    }
  }

  /** For any files, every readable byte is in a frame or counted as trailing. */
  lemma {:induction false} BytesAccountedFor(files: seq<File>)
    ensures AllBytes(files) == WIRE_FRAME_SIZE * |AllFrames(files)| + AllTrailing(files)
  {
    if |files| > 0 {
      BytesAccountedFor(files[1..]);
      if files[0].Readable? {
        FramesCover(files[0].bytes);
      }
    }
  }
}
