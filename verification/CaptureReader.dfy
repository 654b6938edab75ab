/** Reading captures back, file after file (common/capture_reader.cpp). */
module CaptureReaders {
  import opened Bytes
  import opened Frames
  import opened CaptureFiles

  class CaptureReader {
    const files: seq<File>
    var fileIndex: nat
    var isOpen: bool
    var unread: seq<byte>  // of the open file
    var frameInFile: nat
    var trailingBytes: nat

    ghost predicate Valid()
      reads this
    {
      fileIndex <= |files|
    }

    /** The frames that calls of Next will still deliver. */
    ghost function Remaining(): (fs: seq<seq<byte>>)
      reads this
      requires Valid()
      ensures FullSize(fs)
    {
      (if isOpen then FramesOf(unread) else []) + AllFrames(files[fileIndex..])
    }

    /** The trailing bytes that have not been counted yet. */
    ghost function TrailingLeft(): nat
      reads this
      requires Valid()
    {
      (if isOpen then TrailingOf(unread) else 0) + AllTrailing(files[fileIndex..])
    }

    constructor (files: seq<File>)
      ensures Valid() && this.files == files
      ensures Remaining() == AllFrames(files) && TrailingLeft() == AllTrailing(files)
      ensures trailingBytes == 0
    {
      this.files := files;
      fileIndex, isOpen, unread, frameInFile, trailingBytes := 0, false, [], 0, 0;
      new;
      assert files[0..] == files;
    }

    /** False if there is nothing to read. */
    predicate Ok() {
      |files| > 0
    }

    method OpenNextFile() returns (found: bool)
      requires Valid() && !isOpen
      modifies this
      ensures Valid() && found == isOpen
      ensures Remaining() == old(Remaining()) && TrailingLeft() == old(TrailingLeft())
      ensures trailingBytes == old(trailingBytes)
      ensures if found then fileIndex > old(fileIndex) else fileIndex == |files|
    {
      while fileIndex < |files|
        invariant Valid() && !isOpen
        invariant fileIndex >= old(fileIndex)
        invariant Remaining() == old(Remaining()) && TrailingLeft() == old(TrailingLeft())
        invariant trailingBytes == old(trailingBytes)
      {
        var file := files[fileIndex];
        assert files[fileIndex..][1..] == files[fileIndex + 1..];
        fileIndex := fileIndex + 1;
        if file.Readable? {
          isOpen, unread, frameInFile := true, file.bytes, 0;
          return true;
        }
      }
      return false;
    }

    /** in_.read: a frame, or what is left of the open file when that is less. */
    method ReadOpenFile(out: array<byte>) returns (got: nat)
      requires Valid() && isOpen && out.Length == WIRE_FRAME_SIZE
      modifies this, out
      ensures Valid() && isOpen && fileIndex == old(fileIndex) && trailingBytes == old(trailingBytes)
      ensures got == WIRE_FRAME_SIZE ==>
                && old(Remaining()) == [out[..]] + Remaining()
                && TrailingLeft() == old(TrailingLeft())
      ensures got < WIRE_FRAME_SIZE ==> unread == old(unread) && got == TrailingOf(unread) == |unread|
      ensures got <= WIRE_FRAME_SIZE
    {
      got := if |unread| < WIRE_FRAME_SIZE then |unread| else WIRE_FRAME_SIZE;
      forall i | 0 <= i < got {
        out[i] := unread[i];
      }
      if got == WIRE_FRAME_SIZE {
        assert out[..] == unread[..WIRE_FRAME_SIZE];
        unread := unread[WIRE_FRAME_SIZE..];
        frameInFile := frameInFile + 1;
      }
    }

    /** Reads the next complete frame into `out`; a partial frame at the end of a file is
        skipped and counted. False at the end of input. */
    method Next(out: array<byte>) returns (ok: bool)
      requires Valid()
      modifies this, out
      ensures Valid()
      ensures ok <==> out.Length == WIRE_FRAME_SIZE && old(Remaining()) != []
      ensures ok ==> out[..] == old(Remaining())[0] && Remaining() == old(Remaining())[1..]
      ensures !ok && out.Length == WIRE_FRAME_SIZE ==> Remaining() == [] && TrailingLeft() == 0
      ensures out.Length != WIRE_FRAME_SIZE ==> out[..] == old(out[..]) && Remaining() == old(Remaining())
      ensures trailingBytes + TrailingLeft() == old(trailingBytes + TrailingLeft())
    {
      if out.Length != WIRE_FRAME_SIZE {
        return false;
      }
      while true
        invariant Valid()
        invariant Remaining() == old(Remaining())
        invariant trailingBytes + TrailingLeft() == old(trailingBytes + TrailingLeft())
        decreases |files| - fileIndex, isOpen
      {
        if !isOpen {
          var found := OpenNextFile();
          if !found {
            return false;
          }
        }
        var got := ReadOpenFile(out);
        if got == WIRE_FRAME_SIZE {
          return true;
        }
        trailingBytes := trailingBytes + got;
        isOpen := false;
      }
    }
  }
}
