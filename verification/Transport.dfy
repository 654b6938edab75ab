/** Whole frames over a byte stream that splits them anywhere (sender/tcp_sender.cpp, send;
    receiver/tcp_receiver.cpp, receive_exact). */
module Transport {
  import opened Bytes
  import opened Frames
  import opened CaptureFiles

  const CHUNK: nat := 64 * 1024

  /** An ordered byte stream. `sent` is what the senders' calls have put in, `taken` what the
      receivers' calls have got out. */
  class Connection {
    var sent: seq<byte>
    var taken: nat

    ghost predicate Valid()
      reads this
    {
      taken <= |sent|
    }

    constructor ()
      ensures Valid() && sent == [] && taken == 0
    {
      sent, taken := [], 0;
    }

    /** ::send: an error, or some nonempty prefix. */
    method SendSome(bytes: seq<byte>) returns (rc: int)
      requires Valid() && |bytes| > 0
      modifies this
      ensures Valid() && taken == old(taken) && rc <= |bytes|
      ensures sent == old(sent) + bytes[..if rc < 0 then 0 else rc]
    {
      if * {
        rc := -1;
        assert bytes[..0] == [];
      } else {
        rc :| 0 <= rc <= |bytes|;
        sent := sent + bytes[..rc];
      }
    }

    /** ::recv: an error, end of stream, or some nonempty run of the next bytes. */
    method RecvSome(limit: nat) returns (rc: int, bytes: seq<byte>)
      requires Valid() && limit > 0
      modifies this
      ensures Valid() && sent == old(sent)
      ensures rc <= limit && taken == old(taken) + |bytes|
      ensures |bytes| == (if rc < 0 then 0 else rc) && bytes == sent[old(taken)..taken]
    {
      if * {
        rc, bytes := -1, [];
      } else {
        var got: nat :| got <= limit && got <= |sent| - taken;
        rc := got;
        bytes := sent[taken..taken + rc];
        taken := taken + rc;
      }
    }
  }

  class TcpSender {
    const connection: Connection
    var open: bool
    var sentFrames: nat

    constructor (connection: Connection)
      ensures this.connection == connection && open && sentFrames == 0
    {
      this.connection, open, sentFrames := connection, true, 0;
    }

    /** Sends all the bytes, or fails after a proper prefix of them. */
    method Send(bytes: seq<byte>) returns (ok: bool)
      requires connection.Valid()
      modifies this, connection
      ensures connection.Valid() && connection.taken == old(connection.taken) && open == old(open)
      ensures ok ==> connection.sent == old(connection.sent) + bytes && sentFrames == old(sentFrames) + 1
      ensures !ok ==> sentFrames == old(sentFrames)
      ensures !ok ==> old(connection.sent) <= connection.sent <= old(connection.sent) + bytes
      ensures !ok && old(open) ==> |connection.sent| < |old(connection.sent)| + |bytes|
      ensures !old(open) ==> !ok && connection.sent == old(connection.sent)
    {
      if !open {
        return false;
      }
      var sent := 0;
      while sent < |bytes|
        invariant sent <= |bytes| && connection.Valid() && open
        invariant connection.taken == old(connection.taken) && sentFrames == old(sentFrames)
        invariant connection.sent == old(connection.sent) + bytes[..sent]
      {
        var remaining := |bytes| - sent;
        var chunk := Min(remaining, CHUNK);
        var rc := connection.SendSome(bytes[sent..sent + chunk]);
        if rc <= 0 {
          return false;
        }
        assert bytes[..sent] + bytes[sent..sent + chunk][..rc] == bytes[..sent + rc];
        sent := sent + rc;
      }
      sentFrames := sentFrames + 1;
      return true;
    }

    /** The send loop of the sender: stops at the first failure. */
    method SendFrames(frames: seq<seq<byte>>) returns (ok: bool)
      requires connection.Valid()
      modifies this, connection
      ensures connection.Valid() && connection.taken == old(connection.taken)
      ensures ok ==> connection.sent == old(connection.sent) + Concat(frames)
      ensures old(connection.sent) <= connection.sent <= old(connection.sent) + Concat(frames)
    {
      ghost var start := connection.sent;
      for i := 0 to |frames|
        invariant connection.Valid() && connection.taken == old(connection.taken)
        invariant connection.sent == start + Concat(frames[..i])
      {
        assert frames[..i] + [frames[i]] == frames[..i + 1] && frames == frames[..i + 1] + frames[i + 1..];
        ConcatAppend(frames[..i], [frames[i]]);
        ConcatAppend(frames[..i + 1], frames[i + 1..]);
        ConcatOne(frames[i]);
        ok := Send(frames[i]);
        if !ok {
          return false;
        }
        assert connection.sent == start + Concat(frames[..i + 1]);
      }
      assert frames[..|frames|] == frames;
      return true;
    }
  }

  class TcpReceiver {
    const connection: Connection
    var open: bool

    constructor (connection: Connection)
      ensures this.connection == connection && open
    {
      this.connection, open := connection, true;
    }

    /** Fills the whole span with the next bytes of the stream, or fails having taken fewer. */
    method ReceiveExact(out: array<byte>) returns (ok: bool)
      requires connection.Valid()
      modifies connection, out
      ensures connection.Valid() && connection.sent == old(connection.sent)
      ensures ok ==> connection.taken == old(connection.taken) + out.Length
      ensures ok ==> out[..] == connection.sent[old(connection.taken)..connection.taken]
      ensures !ok && open ==> old(connection.taken) <= connection.taken < old(connection.taken) + out.Length
      ensures !open ==> !ok && connection.taken == old(connection.taken)
    {
      if !open {
        return false;
      }
      var received := 0;
      while received < out.Length
        invariant received <= out.Length && connection.Valid() && connection.sent == old(connection.sent)
        invariant connection.taken == old(connection.taken) + received
        invariant out[..received] == connection.sent[old(connection.taken)..connection.taken]
      {
        var remaining := out.Length - received;
        var chunk := Min(remaining, CHUNK);
        var rc, bytes := connection.RecvSome(chunk);
        if rc <= 0 {
          return false;
        }
        forall i | 0 <= i < rc {
          out[received + i] := bytes[i];
        }
        assert out[..received + rc] == out[..received] + bytes;
        SliceJoins(connection.sent, old(connection.taken), connection.taken - rc, connection.taken);
        received := received + rc;
      }
      return true;
    }

    /** The receive loop of the receiver: one span for all frames, stops at the first failure. Over any
        chunks the frames got are the frames sent, in order, and a failure yields no frame. */
    method ReceiveFrames(wire: array<byte>, n: nat, ghost frames: seq<seq<byte>>)
      returns (got: seq<seq<byte>>, ok: bool)
      requires connection.Valid() && connection.taken == 0 && wire.Length == WIRE_FRAME_SIZE
      requires FullSize(frames) && connection.sent <= Concat(frames)
      modifies connection, wire
      ensures connection.Valid() && connection.sent == old(connection.sent)
      ensures got <= frames && (ok ==> |got| == n) && (!ok ==> |got| < n)
      ensures WIRE_FRAME_SIZE * |got| <= connection.taken
      ensures connection.taken < WIRE_FRAME_SIZE * (|got| + 1)
    {
      got := [];
      for k := 0 to n
        invariant connection.Valid() && connection.sent == old(connection.sent)
        invariant |got| == k && got <= frames && connection.taken == WIRE_FRAME_SIZE * k
      {
        ok := ReceiveExact(wire);
        if !ok {
          return;
        }
        NextPieceIsFrame(frames, connection.sent, k, wire[..]);
        got := got + [wire[..]];
      }
      ok := true;
    }
  }

  lemma SliceJoins(b: seq<byte>, from: nat, mid: nat, to: nat)
    requires from <= mid <= to <= |b|
    ensures b[from..to] == b[from..mid] + b[mid..to]
  {
  }

  /** The full-size piece after k frames of a stream of frames is frame k. */
  lemma NextPieceIsFrame(frames: seq<seq<byte>>, sent: seq<byte>, k: nat, piece: seq<byte>)
    requires FullSize(frames) && sent <= Concat(frames) && WIRE_FRAME_SIZE * (k + 1) <= |sent|
    requires piece == sent[WIRE_FRAME_SIZE * k..WIRE_FRAME_SIZE * (k + 1)]
    ensures k < |frames| && piece == frames[k]
  {
    FramesOfConcat(frames, []);
    FrameAt(frames, k);
    assert sent == Concat(frames)[..|sent|];
  }
}
