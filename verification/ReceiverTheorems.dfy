/** What the receiver's two threads guarantee over whole runs (receiver/main.cpp:196-368). */
module ReceiverTheorems {
  import opened Bytes
  import opened Frames
  import opened FrameParser
  import opened CaptureQueues
  import opened Receiver
  import opened ReceiverSafety

  /** Some run of the two threads leads to the state. */
  ghost predicate Reachable(c: Config, s: State) {
    exists events :: Exec(c, events) == At(s)
  }

  lemma ReachableInv(c: Config, s: State)
    requires c.capacity > 0 && Reachable(c, s)
    ensures Inv(c, s)
  {
    hide Inv;
    var events :| Exec(c, events) == At(s);
    RunInv(c, events);
  }

  // ---- the ring

  /** The slot being filled is never the slot being read, and each access follows the release or
      publish it depends on in the accessing thread's own view. */
  lemma SlotsApart(c: Config, s: State)
    requires c.capacity > 0 && Reachable(c, s)
    ensures HoldsSlot(s.producer) && ReadsSlot(s.worker) ==> FillIndex(c, s) != ReadIndex(c, s)
    ensures HoldsSlot(s.producer) ==> |s.published| - SlotCount(c) < s.consumerSeen
    ensures ReadsSlot(s.worker) ==> s.released < s.producerSeen
  {
    hide Clean;
    ReachableInv(c, s);
    SlotDistance(s.released, |s.published|, SlotCount(c));
  }

  /** No published slot changes before its release. */
  lemma PublishedSlotStable(c: Config, s: State, e: Event, k: nat)
    requires c.capacity > 0 && Reachable(c, s) && |s.slots| == SlotCount(c) && Enabled(c, s, e)
    requires Apply(c, s, e).released <= k < |s.published|
    ensures |Apply(c, s, e).slots| == SlotCount(c)
    ensures Apply(c, s, e).slots[Slot(k, SlotCount(c))] == s.slots[Slot(k, SlotCount(c))] == s.published[k]
  {
    ReachableInv(c, s);
    var s' := Apply(c, s, e);
    RingStep(c, s, e);
    hide Clean, Slot;
    if IsProducer(e) {
      ProducerKeeps(c, s, e);
    } else {
      WorkerKeeps(c, s, e);
    }
    assert s.published <= s'.published;
    assert s'.published[k] == s.published[k];
  }

  /** How many frames the worker has taken out: those released, and one it is about to release. */
  function TakenCount(s: State): nat {
    s.released + if s.worker.Releasing? then 1 else 0
  }

  /** The frames in the ring, read from the slots, oldest first. */
  ghost function InRing(c: Config, s: State): seq<seq<byte>>
    requires |s.slots| == SlotCount(c) && TakenCount(s) <= |s.published|
  {
    seq(|s.published| - TakenCount(s), i requires 0 <= i && |s.slots| == SlotCount(c) =>
      s.slots[Slot(TakenCount(s) + i, SlotCount(c))])
  }

  lemma RingContents(c: Config, s: State)
    requires c.capacity > 0 && Counters(c, s) && Ring(c, s)
    ensures TakenCount(s) <= |s.published|
    ensures InRing(c, s) == s.published[TakenCount(s)..] && |InRing(c, s)| <= c.capacity
  {
    hide Slot;
    forall i | 0 <= i < |s.published| - TakenCount(s)
      ensures InRing(c, s)[i] == s.published[TakenCount(s) + i]
    {
    }
  }

  /** Conservation, in every reachable state: the published frames are the written ones, then at most
      one whose write failed, then what the ring holds; the ring holds at most `capacity` frames. */
  lemma Conservation(c: Config, s: State)
    requires c.capacity > 0 && Reachable(c, s)
    ensures |s.slots| == SlotCount(c) && TakenCount(s) <= |s.published|
    ensures s.published == s.written + s.lost + InRing(c, s)
    ensures |s.lost| <= 1 && |InRing(c, s)| <= c.capacity
    ensures s.written <= s.published
  {
    ReachableInv(c, s);
    RingSize(c, s);
    RingContents(c, s);
    hide Counters, Ring, Incoming, Published, Observed, Progress, Ending, Depths, StopReason, FlushLag, InRing;
    SplitAt(s.published, s.written, s.lost, TakenCount(s));
  }

  lemma SplitAt(p: seq<seq<byte>>, w: seq<seq<byte>>, l: seq<seq<byte>>, t: nat)
    requires t <= |p| && w + l == p[..t]
    ensures p == w + l + p[t..] && w <= p
  {
    assert p == p[..t] + p[t..];
  }

  lemma CleanAccepts(c: Config, f: seq<byte>)
    requires Clean(c, f)
    ensures Accepts(f) && IdIn(f) == Deserialize(f).frame.header.frameId
  {
    hide Deserialize, Validate;
  }

  lemma PublishedAt(c: Config, frames: seq<seq<byte>>, k: nat)
    requires Published(c, frames) && k < |frames|
    ensures WIRE_FRAME_SIZE * (k + 1) <= |c.stream| && frames[k] == StreamFrame(c, k) && Clean(c, frames[k])
  {
    hide Clean, StreamFrame;
  }

  lemma ObservedAt(c: Config, s: State, k: nat)
    requires Observed(c, s) && k < |s.published|
    ensures k < |s.observed| && s.observed[k] == IdIn(s.published[k])
    ensures !s.producer.Publishing? ==> |s.observed| == |s.published|
  {
    hide FillIndex, IdIn;
  }

  /** Published frames are the first frames of the stream, each parsed cleanly at the required rate
      and module id, and the loss detector has observed exactly their ids. */
  lemma OnlyCleanFrames(c: Config, s: State, k: nat)
    requires c.capacity > 0 && Reachable(c, s) && k < |s.published|
    ensures WIRE_FRAME_SIZE * (k + 1) <= |c.stream| && s.published[k] == StreamFrame(c, k)
    ensures Clean(c, s.published[k]) && Accepts(s.published[k])
    ensures k < |s.observed| && s.observed[k] == Deserialize(s.published[k]).frame.header.frameId
    ensures !s.producer.Publishing? ==> |s.observed| == |s.published|
  {
    hide Counters, Ring, Incoming, Progress, ReceiverSafety.Taken, Ending, Depths, StreamFrame, Published, Observed,
         IdIn, Accepts;
    ReachableInv(c, s);
    PublishedAt(c, s.published, k);
    ObservedAt(c, s, k);
    CleanAccepts(c, s.published[k]);
  }

  // ---- the depth measurement

  /** The depth computed from the wrapped indices is the true distance to the view of the consumer. */
  lemma MeasuredDepth(c: Config, s: State, view: nat)
    requires c.capacity > 0 && Reachable(c, s) && Enabled(c, s, Measure(view))
    ensures Depth(FillIndex(c, s), Slot(view, SlotCount(c)), SlotCount(c)) == |s.published| - view
    ensures 0 <= |s.published| - view <= c.capacity
  {
    ReachableInv(c, s);
    hide Clean, Slot;
    SlotDistance(view, |s.published|, SlotCount(c));
  }

  /** The high-water mark is the largest depth ever measured and never exceeds the capacity. */
  lemma HighWater(c: Config, s: State)
    requires c.capacity > 0 && Reachable(c, s)
    ensures s.highWater <= c.capacity && forall d :: d in s.depths ==> 0 <= d <= s.highWater
    ensures s.highWater == 0 || s.highWater in s.depths
  {
    ReachableInv(c, s);
    hide Clean;
  }

  // ---- exit codes

  /** Exit code 0 means exactly: all expected frames were published and the writer did not fail.
      The outcome 6 does not happen. */
  lemma ExitCode(c: Config, s: State)
    requires c.capacity > 0 && Reachable(c, s) && s.producer.Ended?
    ensures ReturnCode(c, s) != 6
    ensures ReturnCode(c, s) == 0 <==> |s.published| == c.expected && !s.failed
    ensures |s.observed| == |s.published|
  {
    ReachableInv(c, s);
    hide Clean;
  }

  /** What each other exit code says. 3: the stream failed before the next frame was complete; 4: the frame
      after the published ones does not parse; 5: it parses, but its rate or module id is not the
      required one; 7: the writer failed; 9: the ring was full in acquisition's view. */
  lemma ExitReasons(c: Config, s: State)
    requires c.capacity > 0 && Reachable(c, s) && s.producer.Ended?
    ensures ReturnCode(c, s) in {0, 3, 4, 5, 7, 9}
    ensures ReturnCode(c, s) == 3 ==> s.received == |s.published| && s.offset < WIRE_FRAME_SIZE
    ensures ReturnCode(c, s) == 4 || ReturnCode(c, s) == 5 ==>
              && WIRE_FRAME_SIZE * (|s.published| + 1) <= |c.stream|
              && (ReturnCode(c, s) == 4 <==> !ErrorOf(StreamFrame(c, |s.published|)).ParsedOk?)
              && !Clean(c, StreamFrame(c, |s.published|))
    ensures ReturnCode(c, s) == 7 ==> s.failed
    ensures ReturnCode(c, s) == 9 ==> |s.published| == s.consumerSeen + c.capacity
  {
    ExitCode(c, s);
    ReachableInv(c, s);
    hide Clean, StreamFrame, ErrorOf, Counters, Ring, Incoming, Published, Observed, ReceiverSafety.Taken, Ending,
         Depths, FlushLag;
  }

  /** After exit code 0 the capture is an in-order prefix of what was published; what is missing is
      exactly what the ring still holds. */
  lemma Shortfall(c: Config, s: State)
    requires c.capacity > 0 && Reachable(c, s) && s.producer.Ended? && ReturnCode(c, s) == 0
    ensures s.lost == [] && |s.slots| == SlotCount(c)
    ensures |s.written| == s.released == TakenCount(s) <= |s.published| == c.expected
    ensures s.published == s.written + InRing(c, s)
  {
    ExitCode(c, s);
    Conservation(c, s);
    ReachableInv(c, s);
    hide Clean, Slot;
    assert s.worker.Exited? && !s.failed;
    assert s.written + s.lost == s.written;
  }

  /** The producer counter behind the last load of the worker's consumer_slot. */
  function LastPoll(events: seq<Event>): nat {
    if |events| == 0 then 0
    else match events[|events| - 1]
         case LoadProducer(view) => view
         case _ => LastPoll(events[..|events| - 1])
  }

  /** A worker that found the ring empty has released what its last poll saw. */
  ghost predicate Polled(s: State, poll: nat) {
    && !s.worker.Rechecking?
    && (s.worker.CheckDone? || s.worker.Waiting? || s.worker.FinalFlush? || (s.worker.Exited? && !s.failed) ==>
          s.released == poll)
  }

  lemma PolledStep(c: Config, s: State, e: Event, poll: nat)
    requires !c.resample && |s.slots| == SlotCount(c) && Enabled(c, s, e) && Counters(c, s) && Polled(s, poll)
    ensures Polled(Apply(c, s, e), if e.LoadProducer? then e.view else poll)
  {
    if IsProducer(e) {
      hide ProducerStep, WorkerStep, Enabled, Counters;
      ProducerKeeps(c, s, e);
    } else {
      hide Slot, ProducerStep;
      match e
      case LoadProducer(view) => SlotDistance(s.released, view, SlotCount(c));
      case LoadDone(_) =>
      case LastFlush(_) =>
      case Wake(_, _) =>
      case _ =>
    }
  }

  lemma {:induction false} PolledRun(c: Config, events: seq<Event>)
    requires c.capacity > 0 && !c.resample && Exec(c, events).At?
    ensures Polled(Exec(c, events).state, LastPoll(events))
  {
    hide Polled, Enabled, Apply, Counters, Init;
    if |events| == 0 {
      assert Polled(Init(c), 0) by { PolledAtStart(c); }
    } else {
      var before := events[..|events| - 1];
      PolledRun(c, before);
      CountersRun(c, before);
      PolledStep(c, Exec(c, before).state, events[|events| - 1], LastPoll(before));
    }
  }

  lemma PolledAtStart(c: Config)
    ensures Polled(Init(c), 0)
  {
  }

  lemma CountersRun(c: Config, events: seq<Event>)
    requires c.capacity > 0 && Exec(c, events).At?
    ensures Counters(c, Exec(c, events).state)
  {
    hide Counters;
    RunInv(c, events);
  }

  /** After exit code 0 everything was written if and only if the worker's last look at the ring, before
      it loaded acquisition_done, already saw the last frame published; otherwise exactly the frames
      published after that look are missing. */
  lemma DrainedExactly(c: Config, events: seq<Event>)
    requires c.capacity > 0 && !c.resample && Exec(c, events).At?
    requires var s := Exec(c, events).state; s.producer.Ended? && ReturnCode(c, s) == 0
    ensures var s := Exec(c, events).state;
            && |s.slots| == SlotCount(c) && TakenCount(s) <= |s.published|
            && s.published == s.written + InRing(c, s)
            && |InRing(c, s)| == c.expected - LastPoll(events)
            && (s.written == s.published <==> LastPoll(events) == c.expected)
  {
    var s := Exec(c, events).state;
    assert Reachable(c, s);
    hide Reachable, InRing, Exec;
    Shortfall(c, s);
    PolledRun(c, events);
    EndedExits(c, s);
  }

  lemma EndedExits(c: Config, s: State)
    requires c.capacity > 0 && Reachable(c, s) && s.producer.Ended? && ReturnCode(c, s) == 0
    ensures s.worker.Exited? && !s.failed
  {
    ExitCode(c, s);
    ReachableInv(c, s);
    hide Counters, Ring, Incoming, Published, Observed, ReceiverSafety.Taken, Ending, Depths, StopReason, FlushLag;
  }

  /** A variant of the worker that samples consumer_slot once more after seeing acquisition_done
      always drains the ring. */
  lemma DrainedWhenResampled(c: Config, s: State)
    requires c.capacity > 0 && c.resample && Reachable(c, s) && s.producer.Ended? && ReturnCode(c, s) == 0
    ensures s.written == s.published
  {
    Shortfall(c, s);
    EndedExits(c, s);
    ReachableInv(c, s);
    hide Counters, Ring, Incoming, Published, Observed, Progress, ReceiverSafety.Taken, Depths, StopReason, FlushLag,
         InRing;
    assert InRing(c, s) == [];
  }

  /** A shortfall without any error code: at most one frame failed to be written, and only with
      writer_failed set, so that the exit code is not 0. */
  lemma LostIsReported(c: Config, s: State)
    requires c.capacity > 0 && Reachable(c, s) && s.producer.Ended? && s.lost != []
    ensures s.failed && ReturnCode(c, s) != 0 && ReturnCode(c, s) != 6
  {
    ExitCode(c, s);
    ReachableInv(c, s);
    hide Clean;
  }

  // ---- runs that return 0

  lemma Perform(c: Config, s: State, e: Event) returns (s': State)
    requires c.capacity > 0 && Reachable(c, s) && |s.slots| == SlotCount(c) && Enabled(c, s, e)
    ensures s' == Apply(c, s, e) && Reachable(c, s') && Inv(c, s') && |s'.slots| == SlotCount(c)
  {
    hide Inv, Enabled, Apply, Init;
    var events :| Exec(c, events) == At(s);
    assert (events + [e])[..|events|] == events;
    s' := Apply(c, s, e);
    assert Exec(c, events + [e]) == At(s');
    RunInv(c, events + [e]);
  }

  /** The stream starts with n frames fit for publishing. */
  ghost predicate CleanStream(c: Config, n: nat) {
    WIRE_FRAME_SIZE * n <= |c.stream| && forall k :: 0 <= k < n ==> Clean(c, StreamFrame(c, k))
  }

  /** Acquisition between two frames, without a failure so far. */
  ghost predicate AtHead(c: Config, s: State, n: nat) {
    && Reachable(c, s) && Inv(c, s) && |s.slots| == SlotCount(c)
    && s.producer.Head? && s.index == n && !s.failed
  }

  ghost predicate SameWorker(s: State, s': State) {
    && s'.released == s.released && s'.failed == s.failed && s'.worker == s.worker && s'.producerSeen == s.producerSeen
    && s'.written == s.written && s'.lost == s.lost && s'.sinceFlush == s.sinceFlush && s'.flushed == s.flushed
  }

  lemma HeadFacts(c: Config, s: State, n: nat)
    requires AtHead(c, s, n)
    ensures |s.published| == n == s.received && s.exitCode == 0 && !s.done && s.consumerSeen <= s.released <= n
    ensures TakenBytes(s) <= |c.stream|
    ensures forall i :: 0 <= i < |s.slots| ==> |s.slots[i]| == WIRE_FRAME_SIZE
  {
    hide Clean, Slot, Published, Observed, ReceiverSafety.Taken, Ending, Depths, StopReason, FlushLag, StreamFrame,
         Reachable;
  }

  /** From the loop condition to receive_exact. */
  lemma Reserve(c: Config, s: State, n: nat) returns (s': State)
    requires c.capacity > 0 && AtHead(c, s, n) && n < c.expected && n < s.released + c.capacity
    ensures Reachable(c, s') && Inv(c, s') && |s'.slots| == SlotCount(c) && SameWorker(s, s')
    ensures s'.producer.Receiving? && s'.offset == 0 && s'.received == |s'.published| == s'.index == n
              && s'.slots == s.slots
  {
    HeadFacts(c, s, n);
    hide Inv, Reachable, Slot, Next;
    FullTest(s.released, n, SlotCount(c));
    s' := Perform(c, s, LoopTest);
    s' := Perform(c, s', LoadFailed(false));
    s' := Perform(c, s', LoadConsumer(s.released));
  }

  /** The whole next frame in one recv, parsed. */
  lemma Fetch(c: Config, s: State, n: nat) returns (s': State)
    requires c.capacity > 0 && Reachable(c, s) && Inv(c, s) && |s.slots| == SlotCount(c) && CleanStream(c, n + 1)
    requires s.producer.Receiving? && s.offset == 0 && s.received == |s.published| == s.index == n
    requires |s.slots[FillIndex(c, s)]| == WIRE_FRAME_SIZE
    ensures Reachable(c, s') && Inv(c, s') && |s'.slots| == SlotCount(c) && SameWorker(s, s')
    ensures s'.producer.Publishing? && |s'.published| == s'.index == n
  {
    hide Inv, Reachable, Slot, Clean, StreamFrame;
    s' := Perform(c, s, Recv(WIRE_FRAME_SIZE));
    assert s'.slots[FillIndex(c, s')] == StreamFrame(c, n) by { ParsingSlot(c, s'); }
    s' := Perform(c, s', Parse);
  }

  lemma ParsingSlot(c: Config, s: State)
    requires Inv(c, s) && s.producer.Parsing?
    ensures |s.slots| == SlotCount(c) && s.slots[FillIndex(c, s)] == StreamFrame(c, |s.published|)
  {
    hide Counters, Ring, Published, Observed, Progress, ReceiverSafety.Taken, Ending, Depths, StopReason, FlushLag;
  }

  /** publish and the depth measurement. */
  lemma Announce(c: Config, s: State, n: nat) returns (s': State)
    requires c.capacity > 0 && Reachable(c, s) && Inv(c, s) && |s.slots| == SlotCount(c)
    requires s.producer.Publishing? && |s.published| == s.index == n && s.consumerSeen <= s.released && !s.failed
    ensures AtHead(c, s', n + 1) && SameWorker(s, s')
  {
    hide Inv, Reachable, Slot, Clean, Depth, Max;
    s' := Perform(c, s, Publish);
    s' := Perform(c, s', Measure(s'.released));
  }

  lemma ViewBehind(c: Config, s: State)
    requires Inv(c, s)
    ensures s.consumerSeen <= s.released
  {
    hide Ring, Incoming, Published, Observed, Progress, ReceiverSafety.Taken, Ending, Depths, StopReason, FlushLag;
  }

  /** Acquisition publishes one frame while the worker stands still. */
  lemma PublishNext(c: Config, s: State, n: nat) returns (s': State)
    requires c.capacity > 0 && AtHead(c, s, n) && n < c.expected && n < s.released + c.capacity && CleanStream(c, n + 1)
    ensures AtHead(c, s', n + 1) && SameWorker(s, s')
  {
    HeadFacts(c, s, n);
    hide Inv, Reachable, CleanStream, Slot;
    var s1 := Reserve(c, s, n);
    var s2 := Fetch(c, s1, n);
    ViewBehind(c, s2);
    s' := Announce(c, s2, n);
  }

  /** A worker step leaves acquisition between its frames. */
  lemma WorkerPerform(c: Config, s: State, n: nat, e: Event) returns (s': State)
    requires c.capacity > 0 && AtHead(c, s, n) && Enabled(c, s, e) && !IsProducer(e)
    ensures s' == WorkerStep(c, s, e) && (!s'.failed ==> AtHead(c, s', n))
  {
    hide Inv, Reachable, Enabled, ProducerStep, WorkerStep;
    s' := Perform(c, s, e);
    WorkerKeeps(c, s, e);
  }

  lemma TakeOne(c: Config, s: State, n: nat) returns (s': State)
    requires c.capacity > 0 && AtHead(c, s, n) && s.worker.Polling? && n == s.released + 1
    ensures AtHead(c, s', n) && s'.worker.Writing? && s'.released == s.released
  {
    HeadFacts(c, s, n);
    SeenBehind(c, s);
    hide AtHead, Slot, ProducerStep, Inv;
    SlotDistance(s.released, n, SlotCount(c));
    s' := WorkerPerform(c, s, n, LoadProducer(n));
  }

  lemma WriteOne(c: Config, s: State, n: nat) returns (s': State)
    requires c.capacity > 0 && AtHead(c, s, n) && s.worker.Writing?
    ensures AtHead(c, s', n) && s'.worker == Releasing(true) && s'.released == s.released
  {
    hide Slot, ProducerStep, Inv, Reachable;
    s' := WorkerPerform(c, s, n, Write(true));
  }

  lemma ReleaseOne(c: Config, s: State, n: nat) returns (s': State)
    requires c.capacity > 0 && AtHead(c, s, n) && s.worker == Releasing(true)
    ensures AtHead(c, s', n) && s'.worker.Polling? && s'.released == s.released + 1
  {
    hide Inv, Reachable, Slot, ProducerStep;
    s' := WorkerPerform(c, s, n, Release);
    if s'.worker.Flushing? {
      s' := WorkerPerform(c, s', n, Flush(true));
    }
  }

  /** The worker writes and releases the one frame in the ring. */
  lemma WriteNext(c: Config, s: State, n: nat) returns (s': State)
    requires c.capacity > 0 && AtHead(c, s, n) && s.worker.Polling? && n == s.released + 1
    ensures AtHead(c, s', n) && s'.worker.Polling? && s'.released == n
  {
    hide AtHead;
    s' := TakeOne(c, s, n);
    s' := WriteOne(c, s', n);
    s' := ReleaseOne(c, s', n);
  }

  lemma SeenBehind(c: Config, s: State)
    requires Inv(c, s)
    ensures s.producerSeen <= |s.published|
  {
    hide Ring, Incoming, Published, Observed, Progress, ReceiverSafety.Taken, Ending, Depths, StopReason, FlushLag;
  }

  /** The two threads in step: n frames published, written and released. */
  lemma {:induction false} InStep(c: Config, n: nat) returns (s: State)
    requires c.capacity > 0 && n <= c.expected && CleanStream(c, n)
    ensures AtHead(c, s, n) && s.worker.Polling? && s.released == n
  {
    hide Inv, Reachable, Clean, StreamFrame;
    if n == 0 {
      s := Init(c);
      assert AtHead(c, s, 0) by { AtStart(c); }
    } else {
      var s1 := InStep(c, n - 1);
      var s2 := PublishNext(c, s1, n - 1);
      s := WriteNext(c, s2, n);
    }
  }

  lemma AtStart(c: Config)
    requires c.capacity > 0
    ensures AtHead(c, Init(c), 0)
  {
    hide Inv;
    assert Exec(c, []) == At(Init(c));
    RunInv(c, []);
  }

  /** The worker finds the ring empty and goes on to look at acquisition_done; meanwhile k frames follow. */
  lemma {:induction false} Behind(c: Config, n: nat, k: nat) returns (s: State)
    requires c.capacity > 0 && n + k <= c.expected && k <= c.capacity && CleanStream(c, n + k)
    ensures AtHead(c, s, n + k) && s.worker.CheckDone? && s.released == n
  {
    hide Inv, Reachable, Clean, StreamFrame, Slot;
    if k == 0 {
      var s0 := InStep(c, n);
      HeadFacts(c, s0, n);
      s := Perform(c, s0, LoadProducer(n)) by { SeenBehind(c, s0); }
    } else {
      var s0 := Behind(c, n, k - 1);
      s := PublishNext(c, s0, n + k - 1);
    }
  }

  /** The end of the loop and the store of acquisition_done. */
  lemma Announced(c: Config, s: State) returns (s': State)
    requires c.capacity > 0 && AtHead(c, s, c.expected)
    ensures Reachable(c, s') && Inv(c, s') && |s'.slots| == SlotCount(c) && SameWorker(s, s')
    ensures s'.producer.Joining? && s'.done && s'.exitCode == 0 && |s'.published| == c.expected
  {
    HeadFacts(c, s, c.expected);
    hide Inv, Reachable, Slot, WorkerStep;
    s' := Perform(c, s, LoopTest);
    s' := Perform(c, s', StoreDone);
  }

  /** A worker whose last poll found the ring empty sees acquisition_done and leaves. */
  lemma Leave(c: Config, s: State) returns (s': State)
    requires c.capacity > 0 && Reachable(c, s) && Inv(c, s) && |s.slots| == SlotCount(c)
    requires s.producer.Joining? && s.done && s.worker.CheckDone?
    requires c.resample ==> s.released == |s.published|
    ensures Reachable(c, s') && Inv(c, s') && |s'.slots| == SlotCount(c) && s'.worker.Exited?
    ensures s' == s.(producerSeen := |s.published|, flushed := |s.written|, worker := Exited)
  {
    hide Inv, Reachable, Slot, ProducerStep;
    s' := Perform(c, s, LoadDone(true));
    if c.resample {
      s' := Perform(c, s', Recheck);
    }
    s' := Perform(c, s', LastFlush(true));
  }

  lemma Joined(c: Config, s: State) returns (s': State)
    requires c.capacity > 0 && Reachable(c, s) && Inv(c, s) && |s.slots| == SlotCount(c)
    requires s.producer.Joining? && s.worker.Exited? && !s.failed
    ensures s' == s.(producer := Ended) && Reachable(c, s') && Inv(c, s')
  {
    hide Inv, Reachable, Slot, WorkerStep;
    s' := Perform(c, s, Join);
  }

  lemma ShortfallRun(c: Config, k: nat) returns (s: State)
    requires c.capacity > 0 && CleanStream(c, c.expected)
    requires k <= c.expected && k <= c.capacity && (c.resample ==> k == 0)
    ensures Reachable(c, s) && s.producer.Ended? && ReturnCode(c, s) == 0
    ensures |s.published| == c.expected && s.written == s.published[..c.expected - k]
  {
    hide Inv, Reachable, CleanStream;
    s := Behind(c, c.expected - k, k);
    s := Announced(c, s);
    s := Leave(c, s);
    s := Joined(c, s);
    assert ReturnCode(c, s) == 0 by { CodeZero(c, s); }
    Shortfall(c, s);
    hide InRing;
    assert s.published[..c.expected - k] == s.written;
  }

  /** Every shortfall the ring allows does happen: for every capacity, every number of frames and every
      clean stream, and every k up to the capacity, some run returns 0 with the last k frames published
      and not written. With k == 0 everything is written, also in the variant that samples again. */
  lemma ShortfallsOccur(c: Config, k: nat)
    requires c.capacity > 0 && CleanStream(c, c.expected)
    requires k <= c.expected && k <= c.capacity && (c.resample ==> k == 0)
    ensures exists s :: Reachable(c, s) && s.producer.Ended? && ReturnCode(c, s) == 0
                        && |s.published| == c.expected && s.written == s.published[..c.expected - k]
  {
    hide Reachable, CleanStream, ReturnCode;
    var s := ShortfallRun(c, k);
  }

  lemma CodeZero(c: Config, s: State)
    requires c.capacity > 0 && Reachable(c, s) && s.producer.Ended? && s.exitCode == 0
    requires |s.published| == c.expected && !s.failed
    ensures ReturnCode(c, s) == 0
  {
    ExitCode(c, s);
  }
}
