/** How a run of the receiver ends, told from its events alone: which exit code each mishap leads to, what
    was flushed, what was measured (receiver/main.cpp:196-368). */
module ReceiverOutcomes {
  import opened Bytes
  import opened Frames
  import opened FrameParser
  import opened FrameCodec
  import opened CaptureQueues
  import opened Receiver
  import opened ReceiverSafety
  import opened ReceiverTheorems

  // ---- what can go wrong

  datatype Mishap =
    | Disconnected  // recv returned zero or less
    | RingFull      // has_space found `capacity` frames between the indices
    | Unparsable    // the next frame does not parse
    | Unwanted      // it parses, but with another rate or module id
    | WriterFault   // a write or a flush failed

  predicate Parses(f: seq<byte>) {
    FirstProblem(f).NoProblem?
  }

  /** The rate and the module id on the wire are those asked for. */
  predicate Wanted(c: Config, f: seq<byte>)
    requires |f| == WIRE_FRAME_SIZE
  {
    U16At(f, 34) == c.rateHz && (c.moduleCheck.OnlyModule? ==> U16At(f, 12) == c.moduleCheck.id)
  }

  /** The frame after the published ones has arrived. */
  predicate NextArrived(c: Config, s: State) {
    WIRE_FRAME_SIZE * (|s.published| + 1) <= |c.stream|
  }

  /** Step e from state s is this mishap. */
  predicate Is(c: Config, m: Mishap, s: State, e: Event) {
    match m
    case Disconnected => e.Recv? && e.rc <= 0
    case RingFull => e.LoadConsumer? && |s.published| == e.view + c.capacity
    case Unparsable => e.Parse? && NextArrived(c, s) && !Parses(StreamFrame(c, |s.published|))
    case Unwanted =>
      e.Parse? && NextArrived(c, s)
      && Parses(StreamFrame(c, |s.published|)) && !Wanted(c, StreamFrame(c, |s.published|))
    case WriterFault => e == Write(false) || e == Flush(false) || e == LastFlush(false)
  }

  ghost predicate HappenedAt(c: Config, events: seq<Event>, m: Mishap, i: nat)
    requires i < |events|
  {
    Exec(c, events[..i]).At? && Is(c, m, Exec(c, events[..i]).state, events[i])
  }

  ghost predicate Happened(c: Config, events: seq<Event>, m: Mishap) {
    exists i: nat :: i < |events| && HappenedAt(c, events, m, i)
  }

  lemma HappenedNext(c: Config, events: seq<Event>, e: Event, m: Mishap)
    requires Exec(c, events).At?
    ensures Happened(c, events + [e], m) <==> Happened(c, events, m) || Is(c, m, Exec(c, events).state, e)
  {
    hide Exec, Is;
    var all := events + [e];
    assert all[..|events|] == events;
    forall i: nat | i < |events|
      ensures HappenedAt(c, all, m, i) <==> HappenedAt(c, events, m, i)
    {
      assert all[..i] == events[..i];
    }
    assert HappenedAt(c, all, m, |events|) <==> Is(c, m, Exec(c, events).state, e);
  }

  lemma LastStep(c: Config, events: seq<Event>)
    requires Exec(c, events).At? && |events| > 0
    ensures var before, e := events[..|events| - 1], events[|events| - 1];
            && Exec(c, before).At?
            && var s := Exec(c, before).state;
               |s.slots| == SlotCount(c) && Enabled(c, s, e) && Exec(c, events).state == Apply(c, s, e)
  {
    hide Enabled, Apply, Init;
  }

  // ---- the codes

  predicate Faulty(s: State) {
    s.failed || s.worker.StoringFailed? || s.worker == Releasing(false)
  }

  /** The exit code set so far tells which mishap happened. */
  predicate Tells(s: State, disconnected: bool, full: bool, unparsable: bool, unwanted: bool, fault: bool) {
    && (s.exitCode == 3 <==> disconnected)
    && (s.exitCode == 9 <==> full)
    && (s.exitCode == 4 <==> unparsable)
    && (s.exitCode == 5 <==> unwanted)
    && (s.exitCode == 7 ==> fault)
    && (Faulty(s) <==> fault)
  }

  lemma ParsesIsRaw(f: seq<byte>)
    requires |f| == WIRE_FRAME_SIZE
    ensures ErrorOf(f).ParsedOk? <==> Parses(f)
  {
    hide FirstProblem, ErrorOf;
    ErrorIsRaw(f);
  }

  /** What acquisition asks of a frame, read off its bytes. */
  lemma CleanIsRaw(c: Config, f: seq<byte>)
    requires |f| == WIRE_FRAME_SIZE
    ensures Clean(c, f) <==> Parses(f) && Wanted(c, f)
    ensures ErrorOf(f).ParsedOk? <==> Parses(f)
  {
    hide Parses, FromLe, Deserialize, ErrorOf;
    ParsesIsRaw(f);
    if ErrorOf(f).ParsedOk? {
      AcceptedDecodes(f);
    }
  }

  lemma AcceptedDecodes(f: seq<byte>)
    requires |f| == WIRE_FRAME_SIZE && ErrorOf(f).ParsedOk?
    ensures Deserialize(f).Ok?
    ensures Deserialize(f).frame.header.sampleRateHz == U16At(f, 34)
    ensures Deserialize(f).frame.header.moduleId == U16At(f, 12)
  {
    hide FromLe, Pow256, PayloadOf, HeaderOf, Validate;
    HeaderFieldsAt(f);
  }

  /** What Tells says of the state after a step. */
  predicate TellsAfter(c: Config, s: State, e: Event, s': State, d: bool, r: bool, p: bool, u: bool, w: bool) {
    Tells(s', d || Is(c, Disconnected, s, e), r || Is(c, RingFull, s, e), p || Is(c, Unparsable, s, e),
          u || Is(c, Unwanted, s, e), w || Is(c, WriterFault, s, e))
  }

  lemma TellsProducer(c: Config, s: State, e: Event, d: bool, r: bool, p: bool, u: bool, w: bool)
    requires c.capacity > 0 && |s.slots| == SlotCount(c) && Enabled(c, s, e) && IsProducer(e) && !e.Parse?
    requires Counters(c, s) && Progress(c, s) && Tells(s, d, r, p, u, w)
    ensures TellsAfter(c, s, e, ProducerStep(c, s, e), d, r, p, u, w)
  {
    assert s.exitCode == 7 ==> Faulty(s);
    CodeStep(c, s, e);
    hide Counters, Progress, Enabled, ProducerStep, Parses, Wanted, NextArrived, StreamFrame;
    ProducerKeeps(c, s, e);
  }

  /** How a step of acquisition sets the code. */
  lemma CodeStep(c: Config, s: State, e: Event)
    requires c.capacity > 0 && |s.slots| == SlotCount(c) && Enabled(c, s, e) && IsProducer(e) && !e.Parse?
    requires Counters(c, s) && Progress(c, s)
    ensures var s' := ProducerStep(c, s, e);
            s'.exitCode == if e.Recv? && e.rc <= 0 then 3
                           else if e.LoadConsumer? && |s.published| == e.view + c.capacity then 9
                           else if s'.exitCode == 7 then 7
                           else s.exitCode
    ensures (e.Recv? || e.LoadConsumer?) ==> s.exitCode == 0
    ensures ProducerStep(c, s, e).exitCode == 7 ==> s.exitCode in {0, 7} && (s.exitCode == 7 || s.failed)
  {
    hide Clean, Slot, Next, StreamFrame, ParseExit, Depth, Max;
    match e
    case LoopTest =>
    case LoadFailed(_) =>
    case LoadConsumer(view) => FullTest(view, |s.published|, SlotCount(c));
    case Recv(_) =>
    case Publish =>
    case Measure(_) =>
    case StoreDone =>
    case Join =>
  }

  lemma TellsParse(c: Config, s: State, d: bool, r: bool, p: bool, u: bool, w: bool)
    requires |s.slots| == SlotCount(c) && Enabled(c, s, Parse)
    requires Incoming(c, s) && Progress(c, s) && Tells(s, d, r, p, u, w)
    ensures TellsAfter(c, s, Parse, ProducerStep(c, s, Parse), d, r, p, u, w)
  {
    hide Clean, Slot, Parses, Wanted, ErrorOf;
    CleanIsRaw(c, StreamFrame(c, |s.published|));
  }

  lemma TellsWorker(c: Config, s: State, e: Event, d: bool, r: bool, p: bool, u: bool, w: bool)
    requires |s.slots| == SlotCount(c) && Enabled(c, s, e) && !IsProducer(e) && Tells(s, d, r, p, u, w)
    ensures TellsAfter(c, s, e, WorkerStep(c, s, e), d, r, p, u, w)
  {
    FaultStep(c, s, e);
    hide Enabled, WorkerStep, Parses, Wanted, NextArrived, StreamFrame, Faulty;
    WorkerKeeps(c, s, e);
  }

  /** Only a failed write or flush makes the worker faulty, and it stays so. */
  lemma FaultStep(c: Config, s: State, e: Event)
    requires |s.slots| == SlotCount(c) && Enabled(c, s, e) && !IsProducer(e)
    ensures Faulty(WorkerStep(c, s, e)) <==>
              Faulty(s) || e == Write(false) || e == Flush(false) || e == LastFlush(false)
  {
    hide Slot;
    match e
    case LoadProducer(_) =>
    case Write(_) =>
    case Release =>
    case Flush(_) =>
    case LoadDone(_) =>
    case Recheck =>
    case LastFlush(_) =>
    case Wake(_, _) =>
    case StoreFailed =>
  }

  lemma TellsStep(c: Config, s: State, e: Event, d: bool, r: bool, p: bool, u: bool, w: bool)
    requires c.capacity > 0 && |s.slots| == SlotCount(c) && Enabled(c, s, e) && Inv(c, s) && Tells(s, d, r, p, u, w)
    ensures TellsAfter(c, s, e, Apply(c, s, e), d, r, p, u, w)
  {
    hide Counters, Ring, Incoming, Published, Observed, Progress, ReceiverSafety.Taken, Ending, Depths, StopReason,
         FlushLag, Enabled, ProducerStep, WorkerStep, Tells, TellsAfter;
    if e.Parse? {
      TellsParse(c, s, d, r, p, u, w);
    } else if IsProducer(e) {
      TellsProducer(c, s, e, d, r, p, u, w);
    } else {
      TellsWorker(c, s, e, d, r, p, u, w);
    }
  }

  ghost predicate EventsTold(c: Config, events: seq<Event>, s: State) {
    Tells(s, Happened(c, events, Disconnected), Happened(c, events, RingFull), Happened(c, events, Unparsable),
          Happened(c, events, Unwanted), Happened(c, events, WriterFault))
  }

  lemma {:induction false} ToldThroughout(c: Config, events: seq<Event>)
    requires c.capacity > 0 && Exec(c, events).At?
    ensures EventsTold(c, events, Exec(c, events).state)
  {
    if |events| == 0 {
      ToldAtStart(c);
      assert events == [];
    } else {
      hide Is, Tells, Happened, Enabled, Apply, Init, Inv;
      var before, e := events[..|events| - 1], events[|events| - 1];
      var s := Exec(c, before).state;
      ToldThroughout(c, before);
      RunInv(c, before);
      assert events == before + [e];
      HappenedNext(c, before, e, Disconnected);
      HappenedNext(c, before, e, RingFull);
      HappenedNext(c, before, e, Unparsable);
      HappenedNext(c, before, e, Unwanted);
      HappenedNext(c, before, e, WriterFault);
      TellsStep(c, s, e, Happened(c, before, Disconnected), Happened(c, before, RingFull),
                Happened(c, before, Unparsable), Happened(c, before, Unwanted), Happened(c, before, WriterFault));
    }
  }

  lemma ToldAtStart(c: Config)
    ensures EventsTold(c, [], Init(c))
  {
    hide Is;
  }

  /** The exit code of every run that ends, from its events: 3 if and only if recv failed, 9 if and only if
      the ring was found full, 4 and 5 if and only if the next frame did not parse or was not the one asked
      for, 7 if and only if none of these happened and a write or a flush failed, and 0 if and only if
      nothing of all this happened. */
  lemma CodesExactly(c: Config, events: seq<Event>)
    requires c.capacity > 0 && Exec(c, events).At? && Exec(c, events).state.producer.Ended?
    ensures var code := ReturnCode(c, Exec(c, events).state);
            && code in {0, 3, 4, 5, 7, 9}
            && (code == 3 <==> Happened(c, events, Disconnected))
            && (code == 9 <==> Happened(c, events, RingFull))
            && (code == 4 <==> Happened(c, events, Unparsable))
            && (code == 5 <==> Happened(c, events, Unwanted))
            && (code == 7 <==> Happened(c, events, WriterFault)
                               && !Happened(c, events, Disconnected) && !Happened(c, events, RingFull)
                               && !Happened(c, events, Unparsable) && !Happened(c, events, Unwanted))
            && (code == 0 <==> forall m: Mishap :: !Happened(c, events, m))
  {
    var s := Exec(c, events).state;
    RunReachable(c, events);
    ToldThroughout(c, events);
    hide Exec, Happened, Reachable;
    ExitReasons(c, s);
    ExitedThen(c, s);
    assert forall m: Mishap :: m.Disconnected? || m.RingFull? || m.Unparsable? || m.Unwanted? || m.WriterFault?;
  }

  lemma RunReachable(c: Config, events: seq<Event>)
    requires Exec(c, events).At?
    ensures Reachable(c, Exec(c, events).state)
  {
    hide Exec;
    assert Exec(c, events) == At(Exec(c, events).state);
  }

  lemma ExitedThen(c: Config, s: State)
    requires c.capacity > 0 && Reachable(c, s) && s.producer.Ended?
    ensures s.worker.Exited? && (s.exitCode == 0 <==> |s.published| == c.expected && !s.failed)
    ensures ReturnCode(c, s) == s.exitCode
  {
    ExitCode(c, s);
    ReachableInv(c, s);
    hide Counters, Ring, Incoming, Published, Observed, ReceiverSafety.Taken, Ending, Depths, StopReason, FlushLag;
  }

  lemma {:induction false} PrefixRuns(c: Config, events: seq<Event>, i: nat)
    requires Exec(c, events).At? && i <= |events|
    ensures Exec(c, events[..i]).At?
  {
    if i < |events| {
      PrefixRuns(c, events[..|events| - 1], i);
      assert events[..|events| - 1][..i] == events[..i];
    } else {
      assert events[..i] == events;
    }
  }

  predicate FaultIn(events: seq<Event>) {
    Write(false) in events || Flush(false) in events || LastFlush(false) in events
  }

  /** No failed write and no failed flush goes unreported: once the worker has left, writer_failed is set if
      and only if there was one, and a run with one does not return 0. */
  lemma FaultsReported(c: Config, events: seq<Event>)
    requires c.capacity > 0 && Exec(c, events).At? && Exec(c, events).state.worker.Exited?
    ensures var s := Exec(c, events).state;
            && (s.failed <==> FaultIn(events))
            && (s.producer.Ended? && FaultIn(events) ==> ReturnCode(c, s) != 0)
  {
    var s := Exec(c, events).state;
    ToldThroughout(c, events);
    if FaultIn(events) {
      var i: nat :| i < |events| && events[i] in {Write(false), Flush(false), LastFlush(false)};
      PrefixRuns(c, events, i);
      assert HappenedAt(c, events, WriterFault, i);
    }
    RunReachable(c, events);
    hide Exec, Reachable, Init;
    if s.producer.Ended? {
      ExitedThen(c, s);
    }
  }

  // ---- the first mishap of acquisition stops it

  predicate Halted(s: State) {
    s.producer.StoringDone? || s.producer.Joining? || s.producer.Ended?
  }

  lemma HaltedStep(c: Config, s: State, e: Event)
    requires |s.slots| == SlotCount(c) && Enabled(c, s, e) && Halted(s)
    ensures Halted(Apply(c, s, e)) && Apply(c, s, e).published == s.published
  {
    if IsProducer(e) {
      hide Slot, Next, Clean, StreamFrame, ParseExit, Depth, Max, TakeChunk;
    } else {
      hide WorkerStep, Enabled;
      WorkerKeeps(c, s, e);
    }
  }

  /** A mishap of acquisition, or the news that the writer failed. */
  predicate Stops(c: Config, s: State, e: Event) {
    Is(c, Disconnected, s, e) || Is(c, RingFull, s, e) || Is(c, Unparsable, s, e) || Is(c, Unwanted, s, e)
    || e == LoadFailed(true)
  }

  lemma StopStep(c: Config, s: State, e: Event)
    requires c.capacity > 0 && |s.slots| == SlotCount(c) && Enabled(c, s, e) && Inv(c, s) && Stops(c, s, e)
    ensures Halted(Apply(c, s, e)) && Apply(c, s, e).published == s.published
  {
    hide Ring, Published, Observed, ReceiverSafety.Taken, Ending, Depths, StopReason, FlushLag;
    hide Clean, Slot, Next, ErrorOf, Parses, Wanted;
    match e
    case LoadFailed(_) =>
    case LoadConsumer(view) => FullTest(view, |s.published|, SlotCount(c));
    case Recv(_) =>
    case Parse => CleanIsRaw(c, StreamFrame(c, |s.published|));
  }

  lemma {:induction false} StaysHalted(c: Config, events: seq<Event>, i: nat)
    requires Exec(c, events).At? && i <= |events| && Exec(c, events[..i]).At? && Halted(Exec(c, events[..i]).state)
    ensures Halted(Exec(c, events).state)
    ensures Exec(c, events).state.published == Exec(c, events[..i]).state.published
  {
    hide Halted, Enabled, Apply;
    if i < |events| {
      var before := events[..|events| - 1];
      assert before[..i] == events[..i];
      StaysHalted(c, before, i);
      HaltedStep(c, Exec(c, before).state, events[|events| - 1]);
    } else {
      assert events[..i] == events;
    }
  }

  /** After the first mishap, or after seeing writer_failed, acquisition publishes nothing more. */
  lemma NothingAfterMishap(c: Config, events: seq<Event>, i: nat)
    requires c.capacity > 0 && Exec(c, events).At? && i < |events|
    requires Exec(c, events[..i]).At? && Stops(c, Exec(c, events[..i]).state, events[i])
    ensures Exec(c, events).state.published == Exec(c, events[..i]).state.published
  {
    hide Halted, Enabled, Apply, Stops, Inv, Init;
    PrefixRuns(c, events, i + 1);
    assert events[..i + 1][..i] == events[..i];
    RunInv(c, events[..i]);
    StopStep(c, Exec(c, events[..i]).state, events[i]);
    StaysHalted(c, events, i + 1);
  }

  // ---- flushes

  /** How many writes have succeeded. */
  function WritesDone(events: seq<Event>): nat {
    if |events| == 0 then 0
    else WritesDone(events[..|events| - 1]) + if events[|events| - 1] == Write(true) then 1 else 0
  }

  /** How many of them the last successful flush came after. */
  function WritesFlushed(events: seq<Event>): nat {
    if |events| == 0 then 0
    else
      var before := events[..|events| - 1];
      if events[|events| - 1] == Flush(true) || events[|events| - 1] == LastFlush(true) then WritesDone(before)
      else WritesFlushed(before)
  }

  lemma CountersStep(c: Config, s: State, e: Event, done: nat, flushed: nat)
    requires |s.slots| == SlotCount(c) && Enabled(c, s, e) && |s.written| == done && s.flushed == flushed
    ensures |Apply(c, s, e).written| == done + if e == Write(true) then 1 else 0
    ensures Apply(c, s, e).flushed == if e == Flush(true) || e == LastFlush(true) then done else flushed
  {
    if IsProducer(e) {
      hide ProducerStep, WorkerStep, Enabled;
      ProducerKeeps(c, s, e);
    } else {
      hide Slot, ProducerStep;
      match e
      case Write(_) =>
      case Release =>
      case Flush(_) =>
      case LoadDone(_) =>
      case LastFlush(_) =>
      case _ =>
    }
  }

  lemma {:induction false} CountersFollow(c: Config, events: seq<Event>)
    requires Exec(c, events).At?
    ensures var s := Exec(c, events).state;
            |s.written| == WritesDone(events) && s.flushed == WritesFlushed(events)
  {
    if |events| > 0 {
      hide Enabled, Apply;
      var before := events[..|events| - 1];
      CountersFollow(c, before);
      CountersStep(c, Exec(c, before).state, events[|events| - 1], WritesDone(before), WritesFlushed(before));
    }
  }

  /** Writes and flushes over every run: at most 200 successful writes are not covered by a successful
      flush, a periodic flush comes exactly when there are 200, and a worker that leaves after no failure
      has flushed everything it wrote. */
  lemma FlushedExactly(c: Config, events: seq<Event>)
    requires c.capacity > 0 && Exec(c, events).At?
    ensures var s := Exec(c, events).state;
            && |s.written| == WritesDone(events) && s.flushed == WritesFlushed(events)
            && WritesFlushed(events) <= WritesDone(events) <= WritesFlushed(events) + 200
            && (s.worker.Flushing? ==> WritesDone(events) == WritesFlushed(events) + 200)
            && (s.worker.Polling? ==> WritesDone(events) < WritesFlushed(events) + 200)
            && (s.worker.Exited? && !FaultIn(events) ==> WritesFlushed(events) == WritesDone(events))
  {
    var s := Exec(c, events).state;
    hide *;
    RunReachable(c, events);
    CountersFollow(c, events);
    LagOf(c, s);
    LagMeans(s);
    if s.worker.Exited? {
      FaultsReported(c, events);
    }
  }

  lemma LagMeans(s: State)
    requires FlushLag(s)
    ensures s.flushed <= |s.written| <= s.flushed + 200
    ensures s.worker.Flushing? ==> |s.written| == s.flushed + 200
    ensures s.worker.Polling? ==> |s.written| < s.flushed + 200
    ensures s.worker.Exited? && !s.failed ==> s.flushed == |s.written|
  {
  }

  lemma LagOf(c: Config, s: State)
    requires c.capacity > 0 && Reachable(c, s)
    ensures FlushLag(s)
  {
    ReachableInv(c, s);
    hide Counters, Ring, Incoming, Published, Observed, Progress, ReceiverSafety.Taken, Ending, Depths, StopReason;
  }

  // ---- depths

  /** What a step from state s measures: frames published less those its view says are released. */
  function Measured(s: State, e: Event): seq<int> {
    if e.Measure? then [|s.published| - e.view] else []
  }

  /** The true depths at all measurements of a run. */
  ghost function TrueDepths(c: Config, events: seq<Event>): seq<int>
    requires Exec(c, events).At?
  {
    if |events| == 0 then []
    else
      var before := events[..|events| - 1];
      TrueDepths(c, before) + Measured(Exec(c, before).state, events[|events| - 1])
  }

  lemma DepthStep(c: Config, s: State, e: Event)
    requires c.capacity > 0 && |s.slots| == SlotCount(c) && Enabled(c, s, e) && Counters(c, s)
    ensures Apply(c, s, e).depths == s.depths + Measured(s, e)
  {
    hide Slot, Next, Clean, StreamFrame, ParseExit, Depth, Max, WorkerStep, TakeChunk;
    if e.Measure? {
      SlotDistance(e.view, |s.published|, SlotCount(c));
    } else if IsProducer(e) {
      OtherDepths(c, s, e);
    } else {
      WorkerKeeps(c, s, e);
    }
  }

  lemma OtherDepths(c: Config, s: State, e: Event)
    requires |s.slots| == SlotCount(c) && Enabled(c, s, e) && IsProducer(e) && !e.Measure?
    ensures ProducerStep(c, s, e).depths == s.depths
  {
    hide Slot, Next, Clean, StreamFrame, ParseExit, Depth, Max;
  }

  /** Every measurement records the true depth, over every run. */
  lemma {:induction false} DepthsMeasured(c: Config, events: seq<Event>)
    requires c.capacity > 0 && Exec(c, events).At?
    ensures Exec(c, events).state.depths == TrueDepths(c, events)
  {
    if |events| > 0 {
      hide Enabled, Apply, Counters, Init, Measured;
      var before, e := events[..|events| - 1], events[|events| - 1];
      DepthsMeasured(c, before);
      CountersRun(c, before);
      DepthStep(c, Exec(c, before).state, e);
    }
  }

  // ---- what the worker's looks at the ring lead to

  /** consumer_slot and the predicate of the wait, on wrapped indices, see exactly whether the view is ahead
      of what has been released. */
  lemma WorkerLooks(c: Config, s: State, view: nat, seen: bool)
    requires c.capacity > 0 && Reachable(c, s) && |s.slots| == SlotCount(c)
    ensures Enabled(c, s, LoadProducer(view)) ==>
              Apply(c, s, LoadProducer(view)).worker == if s.released < view then Writing else CheckDone
    ensures Enabled(c, s, Wake(seen, view)) ==>
              Apply(c, s, Wake(seen, view)).worker == if seen || s.released < view then Polling else Waiting
  {
    CountersOf(c, s);
    hide Slot, Reachable;
    if s.released <= view <= |s.published| {
      SlotDistance(s.released, view, SlotCount(c));
    }
  }

  lemma CountersOf(c: Config, s: State)
    requires c.capacity > 0 && Reachable(c, s)
    ensures Counters(c, s)
  {
    ReachableInv(c, s);
    hide Counters, Ring, Incoming, Published, Observed, Progress, ReceiverSafety.Taken, Ending, Depths, StopReason,
         FlushLag;
  }

  // ---- every code is returned by some run

  /** Acquisition has stopped with a code, and the worker has found the ring empty. */
  ghost predicate Stopped(c: Config, s: State, n: nat, code: nat) {
    && Reachable(c, s) && Inv(c, s) && |s.slots| == SlotCount(c)
    && s.producer.StoringDone? && s.worker.CheckDone? && !s.failed && s.exitCode == code && |s.published| == n
  }

  /** The rest of the run, with the last flush working or not. */
  lemma Finish(c: Config, s: State, n: nat, code: nat, flushes: bool) returns (s': State)
    requires c.capacity > 0 && !c.resample && Stopped(c, s, n, code)
    ensures Reachable(c, s') && s'.producer.Ended? && |s'.published| == n
    ensures s'.exitCode == if !flushes && code == 0 then 7 else code
  {
    hide Inv, Reachable, Slot;
    s' := Perform(c, s, StoreDone);
    var s1 := Perform(c, s', LoadDone(true));
    s' := LastSteps(c, s1, flushes);
    s' := Perform(c, s', Join);
  }

  lemma LastSteps(c: Config, s: State, flushes: bool) returns (s': State)
    requires c.capacity > 0 && Reachable(c, s) && |s.slots| == SlotCount(c) && s.worker.FinalFlush? && !s.failed
    ensures Reachable(c, s') && |s'.slots| == SlotCount(c)
    ensures s'.worker.Exited? && s'.failed == !flushes
    ensures s'.producer == s.producer && s'.exitCode == s.exitCode && s'.published == s.published
  {
    hide Inv, Reachable, Slot, ProducerStep;
    s' := Perform(c, s, LastFlush(flushes));
    if !flushes {
      s' := Perform(c, s', StoreFailed);
    }
  }

  /** n frames published and written, the worker at its last look: recv fails. */
  lemma StopDisconnected(c: Config, n: nat) returns (s: State)
    requires c.capacity > 0 && n < c.expected && CleanStream(c, n)
    ensures Stopped(c, s, n, 3)
  {
    hide Inv, Reachable, Slot, CleanStream, WorkerStep;
    s := Behind(c, n, 0);
    s := Reserve(c, s, n);
    s := Perform(c, s, Recv(0));
  }

  /** A full ring. */
  lemma StopFull(c: Config) returns (s: State)
    requires c.capacity > 0 && c.capacity < c.expected && CleanStream(c, c.capacity)
    ensures Stopped(c, s, c.capacity, 9)
  {
    hide CleanStream, Reachable, Slot, Next, Inv, WorkerStep;
    s := Behind(c, 0, c.capacity);
    HeadFacts(c, s, c.capacity);
    FullTest(0, c.capacity, SlotCount(c));
    s := Perform(c, s, LoopTest);
    s := Perform(c, s, LoadFailed(false));
    s := Perform(c, s, LoadConsumer(0));
  }

  lemma WholeFrame(c: Config, s: State, n: nat) returns (s': State)
    requires c.capacity > 0 && Reachable(c, s) && Inv(c, s) && |s.slots| == SlotCount(c)
    requires s.producer.Receiving? && s.offset == 0 && s.received == |s.published| == n
    requires |s.slots[FillIndex(c, s)]| == WIRE_FRAME_SIZE && WIRE_FRAME_SIZE * (n + 1) <= |c.stream|
    ensures Reachable(c, s') && Inv(c, s') && |s'.slots| == SlotCount(c) && SameWorker(s, s')
    ensures s'.producer.Parsing? && |s'.published| == n && s'.exitCode == s.exitCode
    ensures s'.slots[FillIndex(c, s')] == StreamFrame(c, n)
  {
    hide Inv, Reachable, Slot, WorkerStep, StreamFrame;
    s' := Perform(c, s, Recv(WIRE_FRAME_SIZE));
    ParsingSlot(c, s');
  }

  /** A frame that is not clean. */
  lemma StopRejected(c: Config, n: nat) returns (s: State)
    requires c.capacity > 0 && n < c.expected && CleanStream(c, n) && WIRE_FRAME_SIZE * (n + 1) <= |c.stream|
    requires !Clean(c, StreamFrame(c, n))
    ensures Stopped(c, s, n, if Parses(StreamFrame(c, n)) then 5 else 4)
  {
    ParsesIsRaw(StreamFrame(c, n));
    hide Inv, Reachable, Slot, Clean, CleanStream, Parses, ErrorOf, WorkerStep, StreamFrame;
    s := Behind(c, n, 0);
    HeadFacts(c, s, n);
    s := Reserve(c, s, n);
    hide AtHead;
    s := WholeFrame(c, s, n);
    s := Perform(c, s, Parse);
  }

  /** All frames published. */
  lemma StopComplete(c: Config) returns (s: State)
    requires c.capacity > 0 && CleanStream(c, c.expected)
    ensures Stopped(c, s, c.expected, 0)
  {
    hide CleanStream, Reachable, Slot, Inv, WorkerStep;
    s := Behind(c, c.expected, 0);
    HeadFacts(c, s, c.expected);
    s := Perform(c, s, LoopTest);
  }

  ghost predicate Returns(c: Config, code: nat, n: nat) {
    exists s :: Reachable(c, s) && s.producer.Ended? && ReturnCode(c, s) == code && |s.published| == n
  }

  lemma FinishReturns(c: Config, s: State, n: nat, code: nat, flushes: bool)
    requires c.capacity > 0 && !c.resample && Stopped(c, s, n, code)
    ensures Returns(c, if !flushes && code == 0 then 7 else code, n)
  {
    hide Stopped, Reachable, ReturnCode;
    var s' := Finish(c, s, n, code, flushes);
    ExitedThen(c, s');
  }

  /** Every exit code occurs, and after any number of frames for which it can. */
  lemma EveryCodeOccurs(c: Config, n: nat)
    requires c.capacity > 0 && !c.resample && n <= c.expected && CleanStream(c, n)
    ensures n == c.expected ==> Returns(c, 0, n) && Returns(c, 7, n)
    ensures n < c.expected ==> Returns(c, 3, n)
    ensures n == c.capacity < c.expected ==> Returns(c, 9, n)
    ensures n < c.expected && WIRE_FRAME_SIZE * (n + 1) <= |c.stream| && !Clean(c, StreamFrame(c, n)) ==>
              Returns(c, if Parses(StreamFrame(c, n)) then 5 else 4, n)
  {
    hide Stopped, Returns, CleanStream, Clean, StreamFrame, Parses;
    if n == c.expected {
      var s := StopComplete(c);
      FinishReturns(c, s, n, 0, true);
      FinishReturns(c, s, n, 0, false);
    } else {
      var s := StopDisconnected(c, n);
      FinishReturns(c, s, n, 3, true);
      if n == c.capacity {
        s := StopFull(c);
        FinishReturns(c, s, n, 9, true);
      }
      if WIRE_FRAME_SIZE * (n + 1) <= |c.stream| && !Clean(c, StreamFrame(c, n)) {
        s := StopRejected(c, n);
        FinishReturns(c, s, n, if Parses(StreamFrame(c, n)) then 5 else 4, true);
      }
    }
  }

  // ---- no answer of the outside world is excluded

  /** A frame cut into recv answers: each positive and at most 64 KiB. */
  predicate Cutting(chunks: seq<nat>) {
    forall i :: 0 <= i < |chunks| ==> 0 < chunks[i] <= 65536
  }

  function Total(chunks: seq<nat>): nat {
    if |chunks| == 0 then 0 else Total(chunks[..|chunks| - 1]) + chunks[|chunks| - 1]
  }

  function Recvs(chunks: seq<nat>): seq<Event> {
    if |chunks| == 0 then [] else Recvs(chunks[..|chunks| - 1]) + [Recv(chunks[|chunks| - 1])]
  }

  /** receive_exact has so many bytes of the next frame, in the n-th round. */
  ghost predicate Receives(c: Config, run: Run, n: nat, offset: nat) {
    && run.At? && |run.state.published| == n && Inv(c, run.state)
    && (if offset < WIRE_FRAME_SIZE then run.state.producer.Receiving? && run.state.offset == offset
        else run.state.producer.Parsing?)
  }

  lemma ReceivingFacts(c: Config, s: State)
    requires Inv(c, s) && s.producer.Receiving?
    ensures |s.slots| == SlotCount(c) && |s.slots[FillIndex(c, s)]| == WIRE_FRAME_SIZE
    ensures s.received == |s.published| && s.offset < WIRE_FRAME_SIZE
  {
    hide Counters, Ring, Published, Observed, Progress, ReceiverSafety.Taken, Ending, Depths, StopReason, FlushLag,
         Slot;
  }

  lemma ChunkArrives(c: Config, events: seq<Event>, n: nat, offset: nat, rc: nat)
    requires c.capacity > 0 && offset < WIRE_FRAME_SIZE && Receives(c, Exec(c, events), n, offset)
    requires 0 < rc <= 65536 && offset + rc <= WIRE_FRAME_SIZE && WIRE_FRAME_SIZE * (n + 1) <= |c.stream|
    ensures Receives(c, Exec(c, events + [Recv(rc)]), n, offset + rc)
  {
    var s := Exec(c, events).state;
    ReceivingFacts(c, s);
    hide Inv, Slot, StreamFrame;
    assert (events + [Recv(rc)])[..|events|] == events;
    assert Enabled(c, s, Recv(rc));
    RunInv(c, events + [Recv(rc)]);
  }

  /** However the answers of recv cut the next frame, that is a run, and it fills the slot with the frame. */
  lemma {:induction false} EveryCuttingRuns(c: Config, events: seq<Event>, n: nat, chunks: seq<nat>)
    requires c.capacity > 0 && Receives(c, Exec(c, events), n, 0) && WIRE_FRAME_SIZE * (n + 1) <= |c.stream|
    requires Cutting(chunks) && Total(chunks) <= WIRE_FRAME_SIZE
    ensures Receives(c, Exec(c, events + Recvs(chunks)), n, Total(chunks))
    ensures Total(chunks) == WIRE_FRAME_SIZE ==>
              var s := Exec(c, events + Recvs(chunks)).state;
              |s.slots| == SlotCount(c) && s.slots[FillIndex(c, s)] == StreamFrame(c, n)
  {
    hide Exec, Receives;
    if |chunks| == 0 {
      assert events + Recvs(chunks) == events;
    } else {
      var front, last := chunks[..|chunks| - 1], chunks[|chunks| - 1];
      EveryCuttingRuns(c, events, n, front);
      ChunkArrives(c, events + Recvs(front), n, Total(front), last);
      assert events + Recvs(chunks) == (events + Recvs(front)) + [Recv(last)];
    }
    if Total(chunks) == WIRE_FRAME_SIZE {
      FrameArrived(c, events + Recvs(chunks), n);
    }
  }

  lemma FrameArrived(c: Config, events: seq<Event>, n: nat)
    requires Receives(c, Exec(c, events), n, WIRE_FRAME_SIZE)
    ensures var s := Exec(c, events).state;
            |s.slots| == SlotCount(c) && s.slots[FillIndex(c, s)] == StreamFrame(c, n)
  {
    hide Inv, Exec, StreamFrame, Slot;
    ParsingSlot(c, Exec(c, events).state);
  }

  /** Wherever acquisition loads an index or calls out, every answer the outside may give is a possible
      step: any view between the last one seen and the current one, a flag not yet seen, and a failing or
      partial recv. */
  lemma EveryAnswerToAcquisition(c: Config, s: State, view: nat)
    requires c.capacity > 0 && Reachable(c, s)
    ensures s.consumerSeen <= view <= s.released ==>
              && (s.producer.CheckSpace? ==> Enabled(c, s, LoadConsumer(view)))
              && (s.producer.Measuring? ==> Enabled(c, s, Measure(view)))
    ensures s.producer.CheckFailed? ==>
              Enabled(c, s, LoadFailed(false)) && (s.failed ==> Enabled(c, s, LoadFailed(true)))
    ensures s.producer.Receiving? ==>
              && Enabled(c, s, Recv(-1)) && Enabled(c, s, Recv(0))
              && (0 < view <= WIRE_FRAME_SIZE - s.offset && TakenBytes(s) + view <= |c.stream| ==>
                    Enabled(c, s, Recv(view)))
  {
    ReachableInv(c, s);
    hide Inv, Reachable, Slot;
    if s.producer.Receiving? {
      ReceivingFacts(c, s);
    }
  }

  /** Likewise for the worker: any view, a flag not yet seen, and failing writes and flushes. */
  lemma EveryAnswerToWorker(c: Config, s: State, view: nat, ok: bool)
    ensures s.producerSeen <= view <= |s.published| ==>
              && (s.worker.Polling? ==> Enabled(c, s, LoadProducer(view)))
              && (s.worker.Waiting? ==> Enabled(c, s, Wake(false, view)))
              && (s.worker.Waiting? && s.done ==> Enabled(c, s, Wake(true, view)))
    ensures s.worker.CheckDone? ==> Enabled(c, s, LoadDone(false)) && (s.done ==> Enabled(c, s, LoadDone(true)))
    ensures s.worker.Writing? ==> Enabled(c, s, Write(ok))
    ensures s.worker.Flushing? ==> Enabled(c, s, Flush(ok))
    ensures s.worker.FinalFlush? ==> Enabled(c, s, LastFlush(ok))
  {
  }

  /** A failed write as it happens: for every n below the number of frames, some run returns 7 with n
      frames written and the next one lost. */
  lemma WriteFailureOccurs(c: Config, n: nat)
    requires c.capacity > 0 && !c.resample && n < c.expected && CleanStream(c, c.expected)
    ensures exists s :: Reachable(c, s) && s.producer.Ended? && ReturnCode(c, s) == 7
                        && |s.written| == n && s.lost == [StreamFrame(c, n)]
  {
    hide CleanStream, Reachable, ReturnCode, StreamFrame, AtHead;
    CleanPrefix(c, n);
    CleanPrefix(c, n + 1);
    var s := InStep(c, n);
    s := PublishNext(c, s, n);
    assert s.released == n && s.worker.Polling?;
    s := TakeOne(c, s, n + 1);
    s := FailWrite(c, s, n);
  }

  lemma CleanPrefix(c: Config, n: nat)
    requires n <= c.expected && CleanStream(c, c.expected)
    ensures CleanStream(c, n) && WIRE_FRAME_SIZE * n <= |c.stream|
  {
    hide Clean, StreamFrame;
  }

  /** From the failed write to the end. */
  lemma FailWrite(c: Config, s: State, n: nat) returns (s': State)
    requires c.capacity > 0 && AtHead(c, s, n + 1) && s.worker.Writing? && s.released == n && n + 1 <= c.expected
    requires WIRE_FRAME_SIZE * (n + 1) <= |c.stream|
    ensures Reachable(c, s') && s'.producer.Ended? && ReturnCode(c, s') == 7
    ensures |s'.written| == n && s'.lost == [StreamFrame(c, n)]
  {
    s' := FailAndStop(c, s, n);
    s' := SeeFailure(c, s', n);
  }

  lemma FailAndStop(c: Config, s: State, n: nat) returns (s': State)
    requires c.capacity > 0 && AtHead(c, s, n + 1) && s.worker.Writing? && s.released == n
    requires WIRE_FRAME_SIZE * (n + 1) <= |c.stream|
    ensures Reachable(c, s') && Inv(c, s') && |s'.slots| == SlotCount(c)
    ensures s'.producer.Head? && s'.index == n + 1 && s'.exitCode == 0
    ensures s'.failed && s'.worker.Exited? && |s'.written| == n && s'.lost == [StreamFrame(c, n)]
  {
    HeadCode(c, s, n + 1);
    WritingFacts(c, s, n);
    hide Inv, Reachable, Slot, ProducerStep, WorkerStep, StreamFrame;
    FailingWrite(c, s);
    s' := Perform(c, s, Write(false));
    s' := LeaveFailed(c, s');
  }

  lemma HeadCode(c: Config, s: State, n: nat)
    requires AtHead(c, s, n)
    ensures s.exitCode == 0 && |s.published| == n
  {
    HeadFacts(c, s, n);
  }

  lemma FailingWrite(c: Config, s: State)
    requires |s.slots| == SlotCount(c) && s.worker.Writing?
    ensures Enabled(c, s, Write(false))
    ensures WorkerStep(c, s, Write(false))
              == s.(lost := s.lost + [s.slots[ReadIndex(c, s)]], worker := Releasing(false))
  {
    hide Slot;
  }

  lemma LeaveFailed(c: Config, s: State) returns (s': State)
    requires c.capacity > 0 && Reachable(c, s) && |s.slots| == SlotCount(c) && s.worker == Releasing(false)
    ensures Reachable(c, s') && Inv(c, s') && |s'.slots| == SlotCount(c)
    ensures s' == s.(released := s.released + 1, worker := Exited, failed := true)
  {
    hide Inv, Reachable, Slot, ProducerStep;
    s' := Perform(c, s, Release);
    s' := Perform(c, s', StoreFailed);
  }

  lemma WritingFacts(c: Config, s: State, n: nat)
    requires Inv(c, s) && s.worker.Writing? && s.released == n && |s.published| == n + 1
    ensures WIRE_FRAME_SIZE * (n + 1) <= |c.stream|
    ensures |s.slots| == SlotCount(c) && s.slots[ReadIndex(c, s)] == StreamFrame(c, n)
    ensures s.lost == [] && |s.written| == n
  {
    hide Incoming, Observed, Progress, Ending, Depths, StopReason, FlushLag, Slot, StreamFrame, Clean;
    assert s.slots[ReadIndex(c, s)] == s.published[n];
    assert s.published[..n] == s.written + s.lost;
  }

  lemma SeeFailure(c: Config, s: State, n: nat) returns (s': State)
    requires c.capacity > 0 && Reachable(c, s) && Inv(c, s) && |s.slots| == SlotCount(c)
    requires s.producer.Head? && s.index == n + 1 <= c.expected && s.exitCode == 0 && s.failed && s.worker.Exited?
    ensures Reachable(c, s') && s'.producer.Ended? && ReturnCode(c, s') == 7
    ensures s'.written == s.written && s'.lost == s.lost
  {
    hide Inv, Reachable, Slot, WorkerStep;
    s' := Perform(c, s, LoopTest);
    if s'.producer.CheckFailed? {
      s' := Perform(c, s', LoadFailed(true));
    }
    s' := Perform(c, s', StoreDone);
    s' := Perform(c, s', Join);
  }
}
