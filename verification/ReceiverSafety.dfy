/** What every reachable state of the two-thread receiver keeps (receiver/main.cpp,
    receiver/capture_queue.cpp). */
module ReceiverSafety {
  import opened Bytes
  import opened Frames
  import opened FrameParser
  import opened CaptureQueues
  import opened Receiver

  // ---- invariants

  predicate HoldsSlot(p: ProducerAt) {
    p.Receiving? || p.Parsing? || p.Publishing?
  }

  predicate ReadsSlot(w: WorkerAt) {
    w.Writing? || w.Releasing?
  }

  /** Counters behind the wrapped indices: each thread's view lags, but never enough to lose a frame. */
  ghost predicate Counters(c: Config, s: State) {
    && s.consumerSeen <= s.released <= s.producerSeen <= |s.published| <= s.consumerSeen + c.capacity
    && (HoldsSlot(s.producer) ==> |s.published| < s.consumerSeen + c.capacity)
    && (ReadsSlot(s.worker) ==> s.released < s.producerSeen)
  }

  /** Every published and unreleased frame is intact in its slot. */
  ghost predicate Ring(c: Config, s: State) {
    && |s.slots| == SlotCount(c)
    && (forall i :: 0 <= i < |s.slots| ==> |s.slots[i]| == WIRE_FRAME_SIZE)
    && (forall k {:trigger s.published[k]} :: s.released <= k < |s.published| ==>
          s.slots[Slot(k, SlotCount(c))] == s.published[k])
  }

  /** The part of the next frame already received is in the front of the slot. */
  ghost predicate PartlyReceived(c: Config, s: State)
    requires |s.slots| == SlotCount(c)
  {
    var slot := s.slots[FillIndex(c, s)];
    && s.received == |s.published| && s.offset < |slot| == WIRE_FRAME_SIZE && TakenBytes(s) <= |c.stream|
    && slot[..s.offset] == c.stream[WIRE_FRAME_SIZE * s.received..TakenBytes(s)]
  }

  /** The frame under construction. */
  ghost predicate Incoming(c: Config, s: State) {
    && |s.slots| == SlotCount(c)
    && TakenBytes(s) <= |c.stream|
    && (s.producer.Receiving? ==> PartlyReceived(c, s))
    && (s.producer.Parsing? || s.producer.Publishing? ==>
          && s.received == |s.published| + 1 && s.offset == 0
          && WIRE_FRAME_SIZE * (|s.published| + 1) <= |c.stream|
          && s.slots[FillIndex(c, s)] == StreamFrame(c, |s.published|))
    && (s.producer.Publishing? ==> Clean(c, s.slots[FillIndex(c, s)]))
  }

  /** Published frames are the stream's frames, in order, each clean and observed once. */
  ghost predicate Published(c: Config, frames: seq<seq<byte>>) {
    forall k :: 0 <= k < |frames| ==>
      && WIRE_FRAME_SIZE * (k + 1) <= |c.stream|
      && frames[k] == StreamFrame(c, k)
      && Clean(c, frames[k])
  }

  function IdIn(f: seq<byte>): nat {
    match Deserialize(f)
    case Ok(frame) => frame.header.frameId
    case Thrown(_) => 0
  }

  ghost predicate Observed(c: Config, s: State) {
    && |s.slots| == SlotCount(c)
    && |s.observed| == |s.published| + (if s.producer.Publishing? then 1 else 0)
    && (forall k :: 0 <= k < |s.published| ==> s.observed[k] == IdIn(s.published[k]))
    && (s.producer.Publishing? ==> s.observed[|s.published|] == IdIn(s.slots[FillIndex(c, s)]))
  }

  /** Loop progress of acquisition and its exit code. */
  ghost predicate Progress(c: Config, s: State) {
    && |s.published| == s.index + (if s.producer.Measuring? then 1 else 0)
    && |s.published| <= c.expected
    && (HoldsSlot(s.producer) || s.producer.CheckFailed? || s.producer.CheckSpace? ==> |s.published| < c.expected)
    && (s.producer.Head? || s.producer.CheckFailed? || s.producer.CheckSpace? || s.producer.Receiving?
        || s.producer.Measuring? ==>
          s.received == |s.published|)
    && (s.done <==> s.producer.Joining? || s.producer.Ended?)
    && (!s.producer.StoringDone? && !s.done ==> s.exitCode == 0)
    && (s.producer.StoringDone? || s.producer.Joining? ==> (s.exitCode == 0 <==> |s.published| == c.expected))
    && s.exitCode in {0, 3, 4, 5, 7, 9}
    && (s.producer.Ended? ==> s.worker.Exited? && (s.exitCode == 0 <==> |s.published| == c.expected && !s.failed))
  }

  /** Frames the worker has taken: written, then at most one whose write failed. */
  ghost predicate Taken(s: State) {
    && s.released <= |s.published|
    && (s.worker.Releasing? ==> s.released < |s.published|)
    && s.written + s.lost == s.published[..s.released + if s.worker.Releasing? then 1 else 0]
    && |s.lost| <= 1
    && (|s.lost| == 1 ==> s.worker == Releasing(false) || s.worker.StoringFailed? || s.worker.Exited?)
    && (s.worker == Releasing(false) ==> |s.lost| == 1)
    && (s.failed ==> s.worker.Exited?)
    && (s.worker.Exited? && !s.failed ==> s.lost == [])
  }

  /** What the worker knows once it has seen acquisition_done. */
  ghost predicate Ending(c: Config, s: State) {
    && (s.worker.Rechecking? || s.worker.FinalFlush? ==> s.done && s.producerSeen == |s.published|)
    && (s.worker.Exited? && !s.failed ==> s.done)
    && (c.resample && (s.worker.FinalFlush? || (s.worker.Exited? && !s.failed)) ==> s.released == |s.published|)
  }

  /** Every measured depth is a possible queue depth, and the high-water mark is the largest. */
  ghost predicate Depths(c: Config, s: State) {
    && (forall k :: 0 <= k < |s.depths| ==> 0 <= s.depths[k] <= c.capacity && s.depths[k] <= s.highWater)
    && 0 <= s.highWater <= c.capacity
    && (s.highWater == 0 || s.highWater in s.depths)
  }

  /** Why acquisition stopped, for each exit code it sets. */
  ghost predicate StopReason(c: Config, s: State) {
    && (s.exitCode == 3 ==> s.received == |s.published| && s.offset < WIRE_FRAME_SIZE)
    && (s.exitCode == 4 || s.exitCode == 5 ==>
          && s.received == |s.published| + 1
          && WIRE_FRAME_SIZE * (|s.published| + 1) <= |c.stream|
          && !Clean(c, StreamFrame(c, |s.published|))
          && (s.exitCode == 4 <==> !ErrorOf(StreamFrame(c, |s.published|)).ParsedOk?))
    && (s.exitCode == 7 ==> s.failed)
    && (s.exitCode == 9 ==> |s.published| == s.consumerSeen + c.capacity)
  }

  /** Unflushed frames never pile up beyond one flush interval. */
  ghost predicate FlushLag(s: State) {
    && s.flushed <= |s.written|
    && s.sinceFlush < FLUSH_FRAMES
    && (match s.worker
        case Releasing(true) => |s.written| == s.flushed + s.sinceFlush + 1
        case Flushing => |s.written| == s.flushed + FLUSH_FRAMES && s.sinceFlush == 0
        case StoringFailed => |s.written| <= s.flushed + FLUSH_FRAMES
        case Exited => |s.written| <= s.flushed + FLUSH_FRAMES && (!s.failed ==> |s.written| == s.flushed)
        case _ => |s.written| == s.flushed + s.sinceFlush)
  }

  ghost predicate Inv(c: Config, s: State) {
    && Counters(c, s) && Ring(c, s) && Incoming(c, s) && Published(c, s.published) && Observed(c, s)
    && Progress(c, s) && Taken(s) && Ending(c, s) && Depths(c, s) && StopReason(c, s) && FlushLag(s)
  }

  lemma InitInv(c: Config)
    ensures Inv(c, Init(c))
  {
    hide Clean;
  }

  // ---- preservation, one invariant at a time

  lemma CountersProducer(c: Config, s: State, e: Event)
    requires |s.slots| == SlotCount(c) && Enabled(c, s, e) && IsProducer(e) && Counters(c, s) && c.capacity > 0
    ensures Counters(c, ProducerStep(c, s, e))
  {
    hide Clean, Slot, Next, StreamFrame, ParseExit, Depth, Max;
    match e
    case LoadConsumer(view) => FullTest(view, |s.published|, SlotCount(c));
    case Recv(rc) =>
    case Parse =>
    case Publish =>
    case Measure(view) =>
    case _ =>
  }

  lemma CountersWorker(c: Config, s: State, e: Event)
    requires |s.slots| == SlotCount(c) && Enabled(c, s, e) && !IsProducer(e) && Counters(c, s)
    ensures Counters(c, WorkerStep(c, s, e))
  {
    hide Clean, Slot, Next;
    match e
    case LoadProducer(view) => SlotDistance(s.released, view, SlotCount(c));
    case Recheck => SlotDistance(s.released, s.producerSeen, SlotCount(c));
    case Wake(_, view) =>
    case _ =>
  }

  /** Filling a slot never touches a published frame. */
  lemma FillApart(c: Config, s: State, bytes: seq<byte>)
    requires Counters(c, s) && Ring(c, s) && HoldsSlot(s.producer) && |bytes| == WIRE_FRAME_SIZE
    ensures Ring(c, PutSlot(c, s, bytes))
  {
    hide Slot;
    var s' := PutSlot(c, s, bytes);
    forall k | s.released <= k < |s.published|
      ensures s'.slots[Slot(k, SlotCount(c))] == s'.published[k]
    {
      SlotDistance(k, |s.published|, SlotCount(c));
    }
  }

  /** A step of one thread leaves the other thread's part of the state alone. */
  lemma WorkerKeeps(c: Config, s: State, e: Event)
    requires |s.slots| == SlotCount(c) && Enabled(c, s, e) && !IsProducer(e)
    ensures var s' := WorkerStep(c, s, e);
            && s'.published == s.published && s'.slots == s.slots && s'.done == s.done && s'.producer == s.producer
            && s'.index == s.index && s'.consumerSeen == s.consumerSeen && s'.received == s.received
            && s'.offset == s.offset
            && s'.observed == s.observed && s'.highWater == s.highWater && s'.depths == s.depths
            && s'.exitCode == s.exitCode
    ensures WorkerStep(c, s, e).released >= s.released
  {
    hide Slot;
    match e
    case Release =>
    case LoadProducer(_) =>
    case Recheck =>
    case LoadDone(_) =>
    case Wake(_, _) =>
    case _ =>
  }

  lemma ProducerKeeps(c: Config, s: State, e: Event)
    requires |s.slots| == SlotCount(c) && Enabled(c, s, e) && IsProducer(e)
    ensures var s' := ProducerStep(c, s, e);
            && s'.released == s.released && s'.failed == s.failed && s'.worker == s.worker
            && s'.producerSeen == s.producerSeen
            && s'.written == s.written && s'.lost == s.lost && s'.sinceFlush == s.sinceFlush && s'.flushed == s.flushed
            && (s'.published == s.published
                || (e.Publish? && |s'.published| == |s.published| + 1 && s.published <= s'.published))
            && (s.done ==> s'.done)
  {
    hide Clean, Slot, Next, StreamFrame, ParseExit, Depth, Max;
    match e
    case LoopTest =>
    case LoadFailed(_) =>
    case LoadConsumer(_) =>
    case Recv(_) =>
    case Parse =>
    case Publish =>
    case Measure(_) =>
    case StoreDone =>
    case Join =>
  }

  lemma RingStep(c: Config, s: State, e: Event)
    requires c.capacity > 0 && Enabled(c, s, e) && Counters(c, s) && Ring(c, s)
    ensures Ring(c, Apply(c, s, e))
  {
    if IsProducer(e) {
      RingProducer(c, s, e);
    } else {
      hide Slot, Counters, WorkerStep, Enabled;
      WorkerKeeps(c, s, e);
    }
  }

  lemma RingProducer(c: Config, s: State, e: Event)
    requires Enabled(c, s, e) && IsProducer(e) && Counters(c, s) && Ring(c, s)
    ensures Ring(c, ProducerStep(c, s, e))
  {
    if e.Recv? {
      RingRecv(c, s, e.rc);
    } else if e.Publish? {
      hide Clean, Slot, Next;
    } else {
      hide Clean, Slot, Next, ParseExit, Depth, Max, StreamFrame, TakeChunk, Ring, Counters, ProducerStep;
      SlotsKept(c, s, e);
      RingOfSlots(c, s, ProducerStep(c, s, e));
    }
  }

  lemma RingRecv(c: Config, s: State, rc: int)
    requires Enabled(c, s, Recv(rc)) && Counters(c, s) && Ring(c, s)
    ensures Ring(c, ProducerStep(c, s, Recv(rc)))
  {
    hide Slot;
    if rc > 0 {
      var slot := s.slots[FillIndex(c, s)];
      var at, end := TakenBytes(s), TakenBytes(s) + rc;
      var slot' := slot[..s.offset] + c.stream[at..end] + slot[s.offset + rc..];
      FillApart(c, s, slot');
      hide Ring;
      RingOfSlots(c, PutSlot(c, s, slot'), TakeChunk(c, s, rc));
    } else {
      hide Ring;
      RingOfSlots(c, s, ProducerStep(c, s, Recv(rc)));
    }
  }

  lemma SlotsKept(c: Config, s: State, e: Event)
    requires |s.slots| == SlotCount(c) && Enabled(c, s, e) && IsProducer(e) && !e.Recv? && !e.Publish?
    ensures var s' := ProducerStep(c, s, e);
            s'.slots == s.slots && s'.published == s.published && s'.released == s.released
  {
    hide Clean, Slot, Next, ParseExit, Depth, Max;
  }

  lemma RingOfSlots(c: Config, s: State, s': State)
    requires Ring(c, s) && s'.slots == s.slots && s'.published == s.published && s'.released == s.released
    ensures Ring(c, s')
  {
    hide Slot;
  }

  /** A chunk extends the received part of the frame; the last one completes it. */
  lemma ChunkTaken(c: Config, s: State, rc: nat)
    requires |s.slots| == SlotCount(c) && Enabled(c, s, Recv(rc)) && rc > 0 && PartlyReceived(c, s)
    ensures var s' := TakeChunk(c, s, rc);
            TakenBytes(s') <= |c.stream| && |s'.slots| == SlotCount(c) && s'.published == s.published &&
            if s'.producer.Receiving? then PartlyReceived(c, s')
            else s'.producer.Parsing? && s'.received == |s'.published| + 1 && s'.offset == 0
                 && WIRE_FRAME_SIZE * s'.received <= |c.stream|
                 && s'.slots[FillIndex(c, s')] == StreamFrame(c, |s'.published|)
  {
    hide Slot;
    var slot, from, at := s.slots[FillIndex(c, s)], WIRE_FRAME_SIZE * s.received, TakenBytes(s);
    var slot' := slot[..s.offset] + c.stream[at..at + rc] + slot[s.offset + rc..];
    assert slot'[..s.offset + rc] == c.stream[from..at] + c.stream[at..at + rc] == c.stream[from..at + rc];
    assert TakeChunk(c, s, rc).slots[FillIndex(c, s)] == slot';
    if s.offset + rc == |slot| {
      assert slot' == slot'[..s.offset + rc];
    }
  }

  lemma IncomingStep(c: Config, s: State, e: Event)
    requires Enabled(c, s, e) && Incoming(c, s) && Progress(c, s) && Ring(c, s)
    ensures Incoming(c, Apply(c, s, e))
  {
    if IsProducer(e) {
      hide Ring;
      RingSlot(c, s);
      IncomingProducer(c, s, e);
    } else {
      hide Clean, Slot, StreamFrame, Enabled, Ring, Progress, ProducerStep, WorkerStep;
      WorkerKeeps(c, s, e);
    }
  }

  lemma RingSlot(c: Config, s: State)
    requires Ring(c, s)
    ensures |s.slots| == SlotCount(c) && |s.slots[FillIndex(c, s)]| == WIRE_FRAME_SIZE
  {
    hide Slot;
  }

  lemma IncomingProducer(c: Config, s: State, e: Event)
    requires Enabled(c, s, e) && IsProducer(e) && Incoming(c, s) && Progress(c, s)
    requires |s.slots[FillIndex(c, s)]| == WIRE_FRAME_SIZE
    ensures Incoming(c, ProducerStep(c, s, e))
  {
    hide Clean, Slot, Next, StreamFrame, ParseExit, Depth, Max, TakeChunk;
    match e
    case LoopTest =>
    case LoadFailed(_) =>
    case LoadConsumer(_) =>
    case Recv(rc) =>
      if rc > 0 {
        ChunkTaken(c, s, rc);
      }
    case Parse =>
    case Publish =>
    case Measure(view) =>
    case StoreDone =>
    case Join =>
  }

  lemma PublishedStep(c: Config, s: State, e: Event)
    requires Enabled(c, s, e) && Incoming(c, s) && Published(c, s.published)
    ensures Published(c, Apply(c, s, e).published)
  {
    hide Clean, Slot, Next, StreamFrame, ParseExit, Depth, Max, WorkerStep;
    if IsProducer(e) {
      match e
      case Publish =>
      case _ =>
    } else {
      WorkerKeeps(c, s, e);
    }
  }

  lemma ObservedStep(c: Config, s: State, e: Event)
    requires Enabled(c, s, e) && Observed(c, s)
    ensures Observed(c, Apply(c, s, e))
  {
    hide Slot, Next, StreamFrame, ParseExit, Depth, Max, WorkerStep, Deserialize, ErrorOf;
    if IsProducer(e) {
      match e
      case Parse =>
      case Publish =>
      case Recv(_) =>
      case _ => hide Clean;
    } else {
      WorkerKeeps(c, s, e);
    }
  }

  lemma ProgressStep(c: Config, s: State, e: Event)
    requires Enabled(c, s, e) && Incoming(c, s) && Progress(c, s)
    requires s.failed ==> s.worker.Exited?
    ensures Progress(c, Apply(c, s, e))
  {
    if IsProducer(e) {
      ProgressProducer(c, s, e);
    } else {
      hide Clean, Slot, Next, StreamFrame, ParseExit, Incoming, WorkerStep;
      WorkerKeeps(c, s, e);
    }
  }

  lemma ProgressProducer(c: Config, s: State, e: Event)
    requires Enabled(c, s, e) && Incoming(c, s) && Progress(c, s) && IsProducer(e)
    ensures Progress(c, ProducerStep(c, s, e))
  {
    hide Clean, Slot, Next, StreamFrame, Depth, Max;
    match e
    case LoopTest =>
    case LoadFailed(_) =>
    case LoadConsumer(_) =>
    case Recv(rc) =>
    case Parse =>
    case Publish =>
    case Measure(view) =>
    case StoreDone =>
    case Join =>
  }

  lemma TakenStep(c: Config, s: State, e: Event)
    requires Enabled(c, s, e) && Counters(c, s) && Ring(c, s) && Taken(s)
    ensures Taken(Apply(c, s, e))
  {
    if IsProducer(e) {
      hide Counters, Ring, ProducerStep, WorkerStep, Enabled;
      RingSize(c, s);
      ProducerKeeps(c, s, e);
      var s' := ProducerStep(c, s, e);
      var taken := s.released + if s.worker.Releasing? then 1 else 0;
      assert s'.published[..taken] == s.published[..taken];
    } else {
      TakenWorker(c, s, e);
    }
  }

  lemma RingSize(c: Config, s: State)
    requires Ring(c, s)
    ensures |s.slots| == SlotCount(c)
  {
  }

  lemma TakenWorker(c: Config, s: State, e: Event)
    requires Enabled(c, s, e) && !IsProducer(e) && Counters(c, s) && Ring(c, s) && Taken(s)
    ensures Taken(WorkerStep(c, s, e))
  {
    RingSize(c, s);
    if e.Write? {
      TakenWrite(c, s, e.ok);
    } else {
      hide Slot, Ring, Clean;
      match e
      case Release =>
      case LoadProducer(_) =>
      case Recheck =>
      case _ =>
    }
  }

  lemma TakenWrite(c: Config, s: State, ok: bool)
    requires Enabled(c, s, Write(ok)) && Counters(c, s) && Ring(c, s) && Taken(s)
    ensures Taken(WorkerStep(c, s, Write(ok)))
  {
    hide Slot;
    var f := s.slots[ReadIndex(c, s)];
    assert f == s.published[s.released];
    assert s.published[..s.released + 1] == s.published[..s.released] + [f];
    assert s.lost == [];
    assert s.written + [f] == s.written + [f] + s.lost;
  }

  lemma EndingStep(c: Config, s: State, e: Event)
    requires c.capacity > 0 && Enabled(c, s, e) && |s.slots| == SlotCount(c)
    requires Counters(c, s) && Progress(c, s) && Ending(c, s) && (s.failed ==> s.worker.Exited?)
    ensures Ending(c, Apply(c, s, e))
  {
    if IsProducer(e) {
      hide Counters, ProducerStep, WorkerStep;
      ProducerKeeps(c, s, e);
    } else if e.Recheck? {
      hide Progress, ProducerStep, Slot;
      SlotDistance(s.released, s.producerSeen, SlotCount(c));
    } else {
      hide Progress, Counters;
      EndingWorker(c, s, e);
    }
  }

  lemma EndingWorker(c: Config, s: State, e: Event)
    requires Enabled(c, s, e) && |s.slots| == SlotCount(c) && !IsProducer(e) && !e.Recheck?
    requires Ending(c, s) && (s.failed ==> s.worker.Exited?)
    ensures Ending(c, WorkerStep(c, s, e))
  {
    hide Slot;
    match e
    case LoadProducer(_) =>
    case Write(_) =>
    case Release =>
    case Flush(_) =>
    case LoadDone(_) =>
    case LastFlush(_) =>
    case Wake(_, _) =>
    case StoreFailed =>
  }

  lemma DepthsStep(c: Config, s: State, e: Event)
    requires Enabled(c, s, e) && |s.slots| == SlotCount(c) && Counters(c, s) && Depths(c, s)
    ensures Depths(c, Apply(c, s, e))
  {
    hide Clean, Slot, Next, StreamFrame, ParseExit, Depth, WorkerStep;
    if IsProducer(e) {
      if e.Measure? {
        SlotDistance(e.view, |s.published|, SlotCount(c));
      }
    } else {
      WorkerKeeps(c, s, e);
    }
  }

  lemma StopReasonStep(c: Config, s: State, e: Event)
    requires c.capacity > 0 && Enabled(c, s, e) && |s.slots| == SlotCount(c) && Counters(c, s) && Incoming(c, s)
               && Progress(c, s)
    requires StopReason(c, s) && (s.failed ==> s.worker.Exited?)
    ensures StopReason(c, Apply(c, s, e))
  {
    if IsProducer(e) {
      StopReasonProducer(c, s, e);
    } else {
      hide Clean, Slot, Next, StreamFrame, ErrorOf, Incoming, Counters, Progress, WorkerStep;
      WorkerKeeps(c, s, e);
      FailedStays(c, s, e);
    }
  }

  lemma FailedStays(c: Config, s: State, e: Event)
    requires |s.slots| == SlotCount(c) && Enabled(c, s, e) && !IsProducer(e)
    ensures s.failed ==> WorkerStep(c, s, e).failed
  {
    hide Slot;
  }

  lemma StopReasonProducer(c: Config, s: State, e: Event)
    requires c.capacity > 0 && Enabled(c, s, e) && IsProducer(e) && Counters(c, s) && Incoming(c, s) && Progress(c, s)
    requires StopReason(c, s)
    ensures StopReason(c, ProducerStep(c, s, e))
  {
    hide Slot, Next, StreamFrame, Depth, Max, ErrorOf, Deserialize;
    match e
    case LoadFailed(_) => hide Clean;
    case LoadConsumer(view) =>
      hide Clean;
      FullTest(view, |s.published|, SlotCount(c));
    case Recv(_) => hide Clean;
    case Parse =>
    case Publish => hide Clean;
    case Measure(_) => hide Clean;
    case Join => hide Clean;
    case _ => hide Clean;
  }

  lemma FlushLagStep(c: Config, s: State, e: Event)
    requires Enabled(c, s, e) && |s.slots| == SlotCount(c) && FlushLag(s)
    requires s.failed ==> s.worker.Exited?
    ensures FlushLag(Apply(c, s, e))
  {
    if IsProducer(e) {
      hide ProducerStep, WorkerStep, Enabled;
      ProducerKeeps(c, s, e);
    } else {
      hide Slot;
      match e
      case Write(_) =>
      case Release =>
      case Flush(_) =>
      case LastFlush(_) =>
      case StoreFailed =>
      case _ =>
    }
  }

  lemma InvStep(c: Config, s: State, e: Event)
    requires c.capacity > 0 && Enabled(c, s, e) && Inv(c, s)
    ensures Inv(c, Apply(c, s, e))
  {
    assert |s.slots| == SlotCount(c) && (s.failed ==> s.worker.Exited?) && Ring(c, s);
    hide Clean, Slot, Next, StreamFrame, ParseExit, Depth, Max, Enabled, ProducerStep, WorkerStep;
    hide Counters, Ring, Incoming, Published, Observed, Progress, Taken, Ending, Depths, StopReason, FlushLag;
    if IsProducer(e) {
      CountersProducer(c, s, e);
    } else {
      CountersWorker(c, s, e);
    }
    RingStep(c, s, e);
    IncomingStep(c, s, e);
    PublishedStep(c, s, e);
    ObservedStep(c, s, e);
    ProgressStep(c, s, e);
    TakenStep(c, s, e);
    EndingStep(c, s, e);
    DepthsStep(c, s, e);
    StopReasonStep(c, s, e);
    FlushLagStep(c, s, e);
  }

  /** The invariant holds in every state of every run, whatever the interleaving. */
  lemma {:induction false} RunInv(c: Config, events: seq<Event>)
    requires c.capacity > 0 && Exec(c, events).At?
    ensures Inv(c, Exec(c, events).state)
  {
    hide Inv, Enabled, Apply, Init;
    if |events| == 0 {
      InitInv(c);
    } else {
      RunInv(c, events[..|events| - 1]);
      InvStep(c, Exec(c, events[..|events| - 1]).state, events[|events| - 1]);
    }
  }
}
