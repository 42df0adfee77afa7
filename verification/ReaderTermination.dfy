// Every run of the record reader is finite, and it can only stop with every worker
// returned and the drained channels closed.
module ReaderTermination {
  import opened Options
  import opened Counting
  import opened RecordReader
  import opened ReaderSafety

  // How many steps a worker with n messages in its feed can still cause, those of
  // the receiver taking its records and errors included.
  function Rank(v: Worker, n: nat): nat {
    var left := if v.pos <= n then n - v.pos else 0;
    match v.pc
    case Unlaunched => 5 * left + 6
    case Starting => 5 * left + 5
    case Fetching => 5 * left + 3
    case Counting => 5 * left + 2
    case Sending(_) => 5 * left + 1
    case ReportingStartFailure => 3
    case ReportingConsumerError => 2
    case Aborting => 1
    case Returned(_) => 0
  }

  function Ranks(jobs: seq<Job>, ws: seq<Worker>): nat
    requires |jobs| == |ws|
  {
    if ws == [] then 0
    else Ranks(jobs[..|ws| - 1], ws[..|ws| - 1]) + Rank(ws[|ws| - 1], |jobs[|ws| - 1].feed|)
  }

  function CloserRank(c: CloserPc): nat {
    match c
    case NotStarted => 5
    case Waiting => 4
    case CancellingContext => 3
    case ClosingRecords => 2
    case ClosingErrors => 1
    case Finished => 0
  }

  function Measure(r: Read, s: State): nat
    requires |s.workers| == |r.jobs|
  {
    Ranks(r.jobs, s.workers) + |s.buffer| + s.errors + CloserRank(s.closer) + (if s.cancel == Running then 1 else 0)
  }

  lemma {:induction false} RanksUpdate(jobs: seq<Job>, ws: seq<Worker>, w: nat, v: Worker)
    requires |jobs| == |ws| && w < |ws|
    ensures Ranks(jobs, ws[w := v]) == Ranks(jobs, ws) - Rank(ws[w], |jobs[w].feed|) + Rank(v, |jobs[w].feed|)
  {
    var n := |ws| - 1;
    if w == n {
      assert ws[w := v][..n] == ws[..n];
    } else {
      assert ws[w := v][..n] == ws[..n][w := v];
      RanksUpdate(jobs[..n], ws[..n], w, v);
    }
  }

  // A worker's step costs more than the record or error it leaves behind.
  lemma MovedRank(r: Read, s: State, w: nat, op: Op)
    requires CanMove(r, s, w, op) && WorkerShape(r, w, s.workers[w])
    ensures Rank(Moved(r, s, w, op), |r.jobs[w].feed|) + (if op == Send || op == Report then 1 else 0)
            < Rank(s.workers[w], |r.jobs[w].feed|)
  {
  }

  lemma StepDecreasesMeasure(r: Read, s: State, a: Action)
    requires Invariant(r, s) && Enabled(r, s, a)
    ensures Invariant(r, Next(r, s, a)) && Measure(r, Next(r, s, a)) < Measure(r, s)
  {
    StepKeepsInvariant(r, s, a);
    match a {
      case Launch =>
        RanksUpdate(r.jobs, s.workers, s.launched, s.workers[s.launched].(pc := Starting));
      case Move(w, op) =>
        RanksUpdate(r.jobs, s.workers, w, Moved(r, s, w, op));
        MovedRank(r, s, w, op);
      case _ =>
    }
  }

  // No run is longer than the measure of the start.
  lemma {:induction false} RunsAreFinite(r: Read, actions: seq<Action>)
    requires After(r, actions).Some?
    ensures Invariant(r, After(r, actions).value)
    ensures |actions| + Measure(r, After(r, actions).value) <= Measure(r, Init(r))
  {
    ReachableIsInvariant(r, actions);
    if actions != [] {
      var before := actions[..|actions| - 1];
      RunsAreFinite(r, before);
      StepDecreasesMeasure(r, After(r, before).value, actions[|actions| - 1]);
    }
  }

  // Steps the reader takes on its own: nobody cancels and the broker reports no failure.
  predicate Unforced(a: Action) {
    a != UserCancels && !(a.Move? && (a.op == FailToStart || a.op == SeeError))
  }

  predicate HasStop(r: Read, w: nat)
    requires w < |r.jobs|
  {
    exists i :: 0 <= i < |r.jobs[w].feed| && Stops(r, w, i)
  }

  predicate Ended(s: State) {
    && AllReturned(s)
    && s.closer == Finished && s.recordsClosed && s.errorsClosed
    && s.buffer == [] && s.errors == 0
  }

  // As long as the read has not ended, some step is possible. Only a worker whose
  // feed holds no message its end check stops at could be left waiting.
  lemma SomeStepIsPossible(r: Read, s: State) returns (a: Action)
    requires Invariant(r, s) && |r.jobs| <= r.Capacity() && !Ended(s)
    requires forall w :: 0 <= w < |r.jobs| ==> HasStop(r, w)
    ensures Enabled(r, s, a) && Unforced(a)
  {
    if s.errors > 0 {
      return TakeError;
    } else if s.buffer != [] {
      return TakeRecord;
    } else if s.launched < |s.workers| {
      return Launch;
    } else if s.closer == NotStarted {
      return StartCloser;
    } else if AllReturned(s) {
      CountIfBounds(s.workers, IsLive);
      return Close;
    }
    var w :| 0 <= w < |s.workers| && !s.workers[w].pc.Returned?;
    match s.workers[w].pc {
      case Starting => a := Move(w, Start);
      case ReportingStartFailure => a := Move(w, Report);
      case ReportingConsumerError => a := Move(w, Report);
      case Aborting => a := Move(w, Abort);
      case Fetching =>
        FetchingHasMore(r, s, w);
        a := Move(w, Receive);
      case Counting => a := Move(w, Count);
      case Sending(_) => a := Move(w, Send);
    }
  }

  lemma FetchingHasMore(r: Read, s: State, w: nat)
    requires Invariant(r, s) && w < |r.jobs| && HasStop(r, w) && s.workers[w].pc == Fetching
    ensures s.workers[w].pos < |r.jobs[w].feed|
  {
  }

  // A run that cannot go on by itself has ended: all workers returned, everything
  // sent was received, and the channels are closed.
  lemma StuckRunsHaveEnded(r: Read, actions: seq<Action>)
    requires After(r, actions).Some? && |r.jobs| <= r.Capacity()
    requires forall w :: 0 <= w < |r.jobs| ==> HasStop(r, w)
    requires forall a :: Unforced(a) ==> !Enabled(r, After(r, actions).value, a)
    ensures Ended(After(r, actions).value)
    ensures After(r, actions).value.received == After(r, actions).value.Sent()
  {
    ReachableIsInvariant(r, actions);
    var s := After(r, actions).value;
    if !Ended(s) {
      var a := SomeStepIsPossible(r, s);
      assert false;
    }
  }

  // Conversely, a worker with no such message keeps the channel open: unless the
  // read was cancelled, failed or hit its limit, it never closes.
  lemma WithoutStopNeverCloses(r: Read, actions: seq<Action>, w: nat)
    requires After(r, actions).Some? && w < |r.jobs| && !HasStop(r, w)
    ensures var s := After(r, actions).value;
            s.recordsClosed ==> s.cancel == Aborted || s.reported > 0 || s.count >= r.details.limit
  {
    ReachableIsInvariant(r, actions);
    var s := After(r, actions).value;
    assert WorkerJustified(r, s, w, s.workers[w]);
  }
}
