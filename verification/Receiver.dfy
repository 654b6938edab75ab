/** The two threads of the receiver (receiver/main.cpp): acquisition fills the ring from the
    socket, the capture worker writes it to disk. Every atomic load, store and foreign call is a
    step of its own; a frame arrives in any number of recv calls. A load of the other thread's
    index may return any value between the last one seen and the current one. */
module Receiver {
  import opened Bytes
  import opened Frames
  import opened FrameParser
  import opened CaptureQueues
  import Transport

  const FLUSH_FRAMES: nat := 200

  datatype ModuleCheck = AnyModule | OnlyModule(id: u16)

  // `stream` is everything the peer ever delivers. `resample` selects the variant discussed at
  // DrainedWhenResampled; the program has it off.
  datatype Config = Config(expected: nat, rateHz: u16, moduleCheck: ModuleCheck, capacity: nat, stream: seq<byte>,
                           resample: bool)

  datatype ProducerAt =
    | Head           // the loop condition
    | CheckFailed    // load writer_failed
    | CheckSpace     // has_space
    | Receiving      // receive_exact into the producer slot, chunk by chunk
    | Parsing
    | Publishing     // publish
    | Measuring      // size
    | StoringDone    // acquisition_done.store
    | Joining
    | Ended

  datatype WorkerAt =
    | Polling        // consumer_slot
    | Writing        // storage.write
    | Releasing(wrote: bool)
    | Flushing
    | CheckDone      // load acquisition_done
    | Rechecking     // variant only: consumer_slot once more
    | FinalFlush
    | Waiting        // the predicate of queue_ready.wait
    | StoringFailed  // writer_failed.store
    | Exited

  datatype State = State(
    // shared
    published: seq<seq<byte>>,  // every frame published so far; producer_index is Slot(|published|)
    released: nat,              // consumer_index is Slot(released)
    slots: seq<seq<byte>>,
    done: bool,
    failed: bool,
    // acquisition
    producer: ProducerAt,
    index: nat,
    consumerSeen: nat,          // the last counter behind a load of consumer_index
    received: nat,              // complete frames taken from the stream
    offset: nat,                // bytes of the next frame already in the slot
    observed: seq<u64>,         // ids given to the loss detector
    highWater: int,
    depths: seq<int>,
    exitCode: nat,
    // capture worker
    worker: WorkerAt,
    producerSeen: nat,          // the last counter behind a load of producer_index
    written: seq<seq<byte>>,
    lost: seq<seq<byte>>,       // the frame whose write failed, if any
    sinceFlush: nat,
    flushed: nat)               // how many of the written frames the last good flush covered

  datatype Event =
    | LoopTest
    | LoadFailed(seen: bool)
    | LoadConsumer(view: nat)
    | Recv(rc: int)
    | Parse
    | Publish
    | Measure(view: nat)
    | StoreDone
    | Join
    | LoadProducer(view: nat)
    | Write(ok: bool)
    | Release
    | Flush(ok: bool)
    | LoadDone(seen: bool)
    | Recheck
    | LastFlush(ok: bool)
    | Wake(doneSeen: bool, view: nat)
    | StoreFailed

  function SlotCount(c: Config): nat {
    c.capacity + 1
  }

  function Zeros(): seq<byte> {
    seq(WIRE_FRAME_SIZE, _ => 0)
  }

  function Init(c: Config): State {
    State([], 0, seq(SlotCount(c), _ => Zeros()), false, false,
          Head, 0, 0, 0, 0, [], 0, [], 0,
          Polling, 0, [], [], 0, 0)
  }

  /** The k-th frame of the stream. */
  function StreamFrame(c: Config, k: nat): seq<byte>
    requires WIRE_FRAME_SIZE * (k + 1) <= |c.stream|
  {
    c.stream[WIRE_FRAME_SIZE * k..WIRE_FRAME_SIZE * (k + 1)]
  }

  /** How much of the stream receive_exact has taken off so far. */
  function TakenBytes(s: State): nat {
    WIRE_FRAME_SIZE * s.received + s.offset
  }

  /** What acquisition requires of a frame before publishing it. */
  predicate Clean(c: Config, f: seq<byte>) {
    && ErrorOf(f).ParsedOk?
    && Deserialize(f).Ok?
    && Deserialize(f).frame.header.sampleRateHz == c.rateHz
    && (c.moduleCheck.OnlyModule? ==> Deserialize(f).frame.header.moduleId == c.moduleCheck.id)
  }

  /** The exit code of a frame that is not published. */
  function ParseExit(c: Config, f: seq<byte>): nat {
    if !ErrorOf(f).ParsedOk? then 4 else 5
  }

  function FillIndex(c: Config, s: State): nat {
    Slot(|s.published|, SlotCount(c))
  }

  function ReadIndex(c: Config, s: State): nat {
    Slot(s.released, SlotCount(c))
  }

  // ---- which steps are possible

  predicate Enabled(c: Config, s: State, e: Event) {
    match e
    case LoopTest => s.producer.Head?
    case LoadFailed(seen) => s.producer.CheckFailed? && (seen ==> s.failed)
    case LoadConsumer(view) => s.producer.CheckSpace? && s.consumerSeen <= view <= s.released
    case Recv(rc) =>
      && s.producer.Receiving? && |s.slots| == SlotCount(c)
      && (rc > 0 ==>
            && s.offset + rc <= |s.slots[FillIndex(c, s)]| && rc <= Transport.CHUNK
            && TakenBytes(s) + rc <= |c.stream|)
    case Parse => s.producer.Parsing?
    case Publish => s.producer.Publishing?
    case Measure(view) => s.producer.Measuring? && s.consumerSeen <= view <= s.released
    case StoreDone => s.producer.StoringDone?
    case Join => s.producer.Joining? && s.worker.Exited?
    case LoadProducer(view) => s.worker.Polling? && s.producerSeen <= view <= |s.published|
    case Write(_) => s.worker.Writing?
    case Release => s.worker.Releasing?
    case Flush(_) => s.worker.Flushing?
    case LoadDone(seen) => s.worker.CheckDone? && (seen ==> s.done)
    case Recheck => s.worker.Rechecking?
    case LastFlush(_) => s.worker.FinalFlush?
    case Wake(doneSeen, view) => s.worker.Waiting? && (doneSeen ==> s.done) && s.producerSeen <= view <= |s.published|
    case StoreFailed => s.worker.StoringFailed?
  }

  // ---- what they do

  function Stop(s: State, code: nat): State {
    s.(exitCode := code, producer := StoringDone)
  }

  function PutSlot(c: Config, s: State, bytes: seq<byte>): State
    requires |s.slots| == SlotCount(c)
  {
    s.(slots := s.slots[FillIndex(c, s) := bytes])
  }

  function Max(a: int, b: int): int {
    if a < b then b else a
  }

  /** One successful recv of receive_exact: the next bytes of the stream go into the slot at the offset
      reached, and a full slot ends the loop. */
  function TakeChunk(c: Config, s: State, rc: nat): State
    requires Enabled(c, s, Recv(rc)) && rc > 0
  {
    var slot := s.slots[FillIndex(c, s)];
    var chunk := c.stream[TakenBytes(s)..TakenBytes(s) + rc];
    var s' := PutSlot(c, s, slot[..s.offset] + chunk + slot[s.offset + rc..]);
    if s.offset + rc < |slot| then s'.(offset := s.offset + rc)
    else s'.(offset := 0, received := s.received + 1, producer := Parsing)
  }

  function ProducerStep(c: Config, s: State, e: Event): State
    requires Enabled(c, s, e) && |s.slots| == SlotCount(c)
  {
    match e
    case LoopTest => s.(producer := if s.index < c.expected then CheckFailed else StoringDone)
    case LoadFailed(seen) => if seen then Stop(s, 7) else s.(producer := CheckSpace)
    case LoadConsumer(view) =>
      var s' := s.(consumerSeen := view);
      if Next(FillIndex(c, s), SlotCount(c)) != Slot(view, SlotCount(c)) then s'.(offset := 0, producer := Receiving)
      else Stop(s', 9)
    case Recv(rc) => if rc <= 0 then Stop(s, 3) else TakeChunk(c, s, rc)
    case Parse =>
      var f := s.slots[FillIndex(c, s)];
      if Clean(c, f) then s.(observed := s.observed + [Deserialize(f).frame.header.frameId], producer := Publishing)
      else Stop(s, ParseExit(c, f))
    case Publish => s.(published := s.published + [s.slots[FillIndex(c, s)]], producer := Measuring)
    case Measure(view) =>
      var depth := Depth(FillIndex(c, s), Slot(view, SlotCount(c)), SlotCount(c));
      s.(consumerSeen := view, highWater := Max(s.highWater, depth), depths := s.depths + [depth],
         index := s.index + 1, producer := Head)
    case StoreDone => s.(done := true, producer := Joining)
    case Join => s.(exitCode := if s.failed && s.exitCode == 0 then 7 else s.exitCode, producer := Ended)
    case _ => s
  }

  /** consumer_slot, with the given view of the producer counter. */
  function Poll(c: Config, s: State, view: nat, otherwise: WorkerAt): State {
    s.(producerSeen := view,
       worker := if ReadIndex(c, s) != Slot(view, SlotCount(c)) then Writing else otherwise)
  }

  function WorkerStep(c: Config, s: State, e: Event): State
    requires Enabled(c, s, e) && |s.slots| == SlotCount(c)
  {
    match e
    case LoadProducer(view) => Poll(c, s, view, CheckDone)
    case Write(ok) =>
      var f := s.slots[ReadIndex(c, s)];
      if ok then s.(written := s.written + [f], worker := Releasing(true))
      else s.(lost := s.lost + [f], worker := Releasing(false))
    case Release =>
      var s' := s.(released := s.released + 1);
      if !s.worker.wrote then s'.(worker := StoringFailed)
      else if s.sinceFlush + 1 == FLUSH_FRAMES then s'.(sinceFlush := 0, worker := Flushing)
      else s'.(sinceFlush := s.sinceFlush + 1, worker := Polling)
    case Flush(ok) => if ok then s.(flushed := |s.written|, worker := Polling) else s.(worker := StoringFailed)
    case LoadDone(seen) =>
      // Reading true synchronises with the store, which follows every publish.
      if seen then s.(producerSeen := |s.published|, worker := if c.resample then Rechecking else FinalFlush)
      else s.(worker := Waiting)
    case Recheck => Poll(c, s, s.producerSeen, FinalFlush)
    case LastFlush(ok) => if ok then s.(flushed := |s.written|, worker := Exited) else s.(worker := StoringFailed)
    case Wake(doneSeen, view) =>
      if doneSeen then s.(producerSeen := |s.published|, worker := Polling)
      else if ReadIndex(c, s) != Slot(view, SlotCount(c)) then s.(producerSeen := view, worker := Polling)
      else s.(producerSeen := view)
    case StoreFailed => s.(failed := true, worker := Exited)
    case _ => s
  }

  predicate IsProducer(e: Event) {
    e.LoopTest? || e.LoadFailed? || e.LoadConsumer? || e.Recv? || e.Parse? || e.Publish? || e.Measure?
    || e.StoreDone? || e.Join?
  }

  function Apply(c: Config, s: State, e: Event): State
    requires Enabled(c, s, e) && |s.slots| == SlotCount(c)
  {
    if IsProducer(e) then ProducerStep(c, s, e) else WorkerStep(c, s, e)
  }

  datatype Run = Stuck | At(state: State)

  /** The state after a sequence of steps from the start, if each was possible. */
  function Exec(c: Config, events: seq<Event>): (r: Run)
    ensures r.At? ==> |r.state.slots| == SlotCount(c)
  {
    if |events| == 0 then At(Init(c))
    else match Exec(c, events[..|events| - 1])
         case Stuck => Stuck
         case At(s) =>
           var e := events[|events| - 1];
           if Enabled(c, s, e) then At(Apply(c, s, e)) else Stuck
  }

  /** What the process returns. */
  function ReturnCode(c: Config, s: State): nat {
    if s.exitCode != 0 then s.exitCode
    else if |s.observed| == c.expected then 0 else 6
  }
}
