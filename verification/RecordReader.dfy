// The concurrent reader of kadmin/record_reader.go (doReadRecords and shutdown) as
// a labelled step system: one worker per partition, an atomic counter, a bounded
// record channel, an error channel of capacity one, a cancel context, and a closer
// that waits for every worker. A run is any interleaving of the steps.
module RecordReader {
  import opened Options
  import opened ReadingWindows
  import opened RecordFilters

  datatype ReadDetails = ReadDetails(partitions: seq<int>, startPoint: StartPoint, limit: int, filter: Option<Filter>)

  // The feed is what the broker hands this worker during the run, in order.
  datatype Job = Job(partition: int, window: ReadingOffsets, feed: seq<Message>)

  datatype Read = Read(details: ReadDetails, jobs: seq<Job>) {
    // The record channel is made with one slot per requested partition.
    function Capacity(): nat { |details.partitions| }
  }

  datatype Reason = AtEnd | AtLimit | DroppedAtLimit | Cancelled | Failed

  datatype Pc =
    | Unlaunched
    | Starting                // determines its offsets and opens the partition consumer
    | ReportingStartFailure   // err is about to be sent, then the read is cancelled
    | Aborting
    | Fetching                // in the select over errors, cancellation and messages
    | Counting                // holds an accepted message, not counted yet
    | Sending(last: bool)     // counted; last iff the counter had reached the limit
    | ReportingConsumerError
    | Returned(why: Reason)

  // pos counts the messages of the feed this worker is completely done with.
  datatype Worker = Worker(pc: Pc, pos: nat)

  datatype CloserPc = NotStarted | Waiting | CancellingContext | ClosingRecords | ClosingErrors | Finished

  datatype Cancel = Running | Aborted | ShutDown

  // The message at that index of that worker's feed.
  datatype Delivery = Delivery(worker: nat, index: nat)

  datatype State = State(
    workers: seq<Worker>,
    launched: nat,
    running: int,             // the wait group's counter
    count: nat,               // msgCount
    received: seq<Delivery>,  // what the receiver has taken off the channel
    buffer: seq<Delivery>,    // what sits in the channel
    errors: nat,              // how many errors sit in the error channel
    reported: nat,            // how many errors were ever sent
    cancel: Cancel,
    closer: CloserPc,
    recordsClosed: bool,
    errorsClosed: bool,
    panicked: bool)
  {
    function Sent(): seq<Delivery> { received + buffer }
  }

  // The steps of a worker, and those of the launching loop, the closer and the environment.
  datatype Op = Start | FailToStart | Report | Abort | Receive | Count | Send | SeeCancel | SeeError

  datatype Action = Launch | StartCloser | Move(w: nat, op: Op) | TakeRecord | TakeError | UserCancels | Close

  function Init(r: Read): State {
    State(seq(|r.jobs|, _ => Worker(Unlaunched, 0)), 0, 0, 0, [], [], 0, 0, Running, NotStarted, false, false, false)
  }

  predicate MessageAccepted(r: Read, w: nat, i: nat)
    requires w < |r.jobs| && i < |r.jobs[w].feed|
  {
    Accepts(r.details.filter, r.jobs[w].feed[i])
  }

  // The worker's own end check on a message, branch by branch: a filtered-out
  // message is only looked at for the most recent records, an accepted one is
  // compared for equality with the window's end.
  predicate Stops(r: Read, w: nat, i: nat)
    requires w < |r.jobs| && i < |r.jobs[w].feed|
  {
    var m := r.jobs[w].feed[i];
    var end := r.jobs[w].window.end;
    if !MessageAccepted(r, w, i) then
      r.details.startPoint == MostRecent && m.offset >= end
    else if m.offset == end && r.details.startPoint != Live then
      !(r.details.startPoint == MostRecent && r.details.filter.Some? && m.offset < end)
    else
      false
  }

  predicate CanMove(r: Read, s: State, w: nat, op: Op) {
    && w < |s.workers| == |r.jobs|
    && var v := s.workers[w];
       match op
       case Start => v.pc == Starting
       case FailToStart => v.pc == Starting
       case Report =>
         (v.pc == ReportingStartFailure || v.pc == ReportingConsumerError) && (s.errorsClosed || s.errors < 1)
       case Abort => v.pc == Aborting
       case Receive => v.pc == Fetching && v.pos < |r.jobs[w].feed|
       case Count => v.pc == Counting
       case Send =>
         v.pc.Sending? && v.pos < |r.jobs[w].feed| && (s.recordsClosed || |s.buffer| < r.Capacity())
       case SeeCancel => s.cancel != Running && (v.pc == Fetching || v.pc.Sending?)
       case SeeError => v.pc == Fetching
  }

  // The worker after its step.
  function Moved(r: Read, s: State, w: nat, op: Op): Worker
    requires CanMove(r, s, w, op)
  {
    var v := s.workers[w];
    match op
    case Start => v.(pc := Fetching)
    case FailToStart => v.(pc := ReportingStartFailure)
    case Report => v.(pc := if v.pc == ReportingStartFailure then Aborting else Returned(Failed))
    case Abort => v.(pc := Returned(Failed))
    case Receive =>
      if MessageAccepted(r, w, v.pos) then v.(pc := Counting)
      else Worker(if Stops(r, w, v.pos) then Returned(AtEnd) else Fetching, v.pos + 1)
    case Count => v.(pc := Sending(s.count + 1 >= r.details.limit))
    case Send =>
      Worker(if v.pc.last then Returned(AtLimit) else if Stops(r, w, v.pos) then Returned(AtEnd) else Fetching,
             v.pos + 1)
    case SeeCancel => v.(pc := Returned(if v.pc == Sending(true) then DroppedAtLimit else Cancelled))
    case SeeError => v.(pc := ReportingConsumerError)
  }

  predicate Enabled(r: Read, s: State, a: Action) {
    && !s.panicked
    && |s.workers| == |r.jobs|
    && match a
       case Launch => s.launched < |s.workers|
       case StartCloser => s.launched == |s.workers| && s.closer == NotStarted
       case Move(w, op) => CanMove(r, s, w, op)
       case TakeRecord => s.buffer != []
       case TakeError => s.errors > 0
       case UserCancels => s.cancel == Running
       case Close => s.closer != NotStarted && s.closer != Finished && (s.closer == Waiting ==> s.running == 0)
  }

  // Sending on a closed channel, or closing one again, panics.
  function Next(r: Read, s: State, a: Action): State
    requires Enabled(r, s, a)
  {
    match a
    case Launch =>
      s.(workers := s.workers[s.launched := s.workers[s.launched].(pc := Starting)],
         launched := s.launched + 1, running := s.running + 1)
    case StartCloser => s.(closer := Waiting)
    case Move(w, op) =>
      if (op == Send && s.recordsClosed) || (op == Report && s.errorsClosed) then s.(panicked := true)
      else
        var v := Moved(r, s, w, op);
        s.(workers := s.workers[w := v],
           running := if v.pc.Returned? then s.running - 1 else s.running,
           count := if op == Count then s.count + 1 else s.count,
           buffer := if op == Send then s.buffer + [Delivery(w, s.workers[w].pos)] else s.buffer,
           errors := if op == Report then s.errors + 1 else s.errors,
           reported := if op == Report then s.reported + 1 else s.reported,
           cancel := if op == Abort && s.cancel == Running then Aborted else s.cancel)
    case TakeRecord => s.(received := s.received + [s.buffer[0]], buffer := s.buffer[1..])
    case TakeError => s.(errors := s.errors - 1)
    case UserCancels => s.(cancel := Aborted)
    case Close =>
      match s.closer
      case Waiting => s.(closer := CancellingContext)
      case CancellingContext =>
        s.(closer := ClosingRecords, cancel := if s.cancel == Running then ShutDown else s.cancel)
      case ClosingRecords =>
        if s.recordsClosed then s.(panicked := true) else s.(closer := ClosingErrors, recordsClosed := true)
      case _ =>
        if s.errorsClosed then s.(panicked := true) else s.(closer := Finished, errorsClosed := true)
  }

  // Where a sequence of steps leads from the start, None if it is not a run: some
  // step was not enabled where it was taken.
  function After(r: Read, actions: seq<Action>): Option<State> {
    if actions == [] then Some(Init(r))
    else
      match After(r, actions[..|actions| - 1])
      case None => None
      case Some(s) =>
        var a := actions[|actions| - 1];
        if Enabled(r, s, a) then Some(Next(r, s, a)) else None
  }
}
