// A read one of whose partition consumers is refused: kadmin/record_reader.go reports
// it and cancels the whole read. The consumer refuses a start offset the log does not
// hold, which the reader computes where it found nothing and the log was shortened.
module ReaderRefusals {
  import opened Options
  import opened ReadingWindows
  import opened RecordFilters
  import opened RecordReader
  import opened Counting
  import opened ReaderSafety
  import opened ReaderTermination
  import opened ReaderDelivery

  // A run in which that worker's consumer is not opened.
  predicate Refused(actions: seq<Action>, w: nat) {
    forall i :: 0 <= i < |actions| ==> actions[i] != Move(w, Op.Start)
  }

  // Where such a worker can be: on its way to report the refusal, or done with it.
  predicate NeverStarted(s: State, w: nat)
    requires w < |s.workers|
  {
    && s.workers[w].pos == 0
    && s.workers[w].pc in {Unlaunched, Starting, ReportingStartFailure, Aborting, Returned(Failed)}
    && (s.workers[w].pc == Returned(Failed) ==> s.cancel == Aborted && s.reported > 0)
  }

  lemma StepKeepsNeverStarted(r: Read, s: State, a: Action, w: nat)
    requires Invariant(r, s) && Enabled(r, s, a) && w < |r.jobs| && a != Move(w, Op.Start) && NeverStarted(s, w)
    ensures w < |Next(r, s, a).workers| && NeverStarted(Next(r, s, a), w)
  {
    assert WorkerJustified(r, s, w, s.workers[w]);
  }

  lemma {:induction false} StaysNeverStarted(r: Read, actions: seq<Action>, w: nat)
    requires After(r, actions).Some? && w < |r.jobs| && Refused(actions, w)
    ensures Invariant(r, After(r, actions).value) && NeverStarted(After(r, actions).value, w)
  {
    ReachableIsInvariant(r, actions);
    if actions != [] {
      var before := actions[..|actions| - 1];
      StaysNeverStarted(r, before, w);
      StepKeepsNeverStarted(r, After(r, before).value, actions[|actions| - 1], w);
    }
  }

  // A refused partition delivers nothing, and the channels only close on a read that
  // reported an error and was cancelled.
  lemma RefusalAborts(r: Read, actions: seq<Action>, w: nat)
    requires After(r, actions).Some? && w < |r.jobs| && Refused(actions, w)
    ensures var s := After(r, actions).value;
            && IndexesOf(s.Sent(), w) == []
            && (s.recordsClosed ==> s.cancel == Aborted && s.reported > 0)
  {
    StaysNeverStarted(r, actions, w);
    var s := After(r, actions).value;
    assert WorkerOrdered(r, s, w);
  }

  // Steps the reader takes, and the refusal.
  predicate ForcedByRefusal(w: nat, a: Action) {
    (Unforced(a) && a != Move(w, Op.Start)) || a == Move(w, FailToStart)
  }

  lemma RefusedReadGoesOn(r: Read, s: State, w: nat) returns (a: Action)
    requires Invariant(r, s) && |r.jobs| <= r.Capacity() && w < |r.jobs| && NeverStarted(s, w) && !Ended(s)
    ensures Enabled(r, s, a) && ForcedByRefusal(w, a)
  {
    if s.errors > 0 {
      return TakeError;
    } else if s.buffer != [] {
      return TakeRecord;
    } else if s.launched < |s.workers| {
      return Launch;
    } else if s.closer == NotStarted {
      return StartCloser;
    } else if AllReturned(s) {
      CountIfBounds(s.workers, IsLive);
      return Close;
    }
    var v: nat := w;
    if s.workers[w].pc.Returned? {
      v :| v < |s.workers| && !s.workers[v].pc.Returned?;
    }
    match s.workers[v].pc {
      case Starting => a := Move(v, if v == w then FailToStart else Op.Start);
      case ReportingStartFailure => a := Move(v, Report);
      case ReportingConsumerError => a := Move(v, Report);
      case Aborting => a := Move(v, Abort);
      case Fetching => a := Move(v, SeeCancel);
      case Counting => a := Move(v, Op.Count);
      case Sending(_) => a := Move(v, Send);
    }
  }

  // Left alone such a read always comes to its end, whatever the other partitions
  // hold: as a cancelled one.
  lemma RefusedReadsEnd(r: Read, actions: seq<Action>, w: nat)
    requires After(r, actions).Some? && |r.jobs| <= r.Capacity() && w < |r.jobs| && Refused(actions, w)
    requires forall a :: ForcedByRefusal(w, a) ==> !Enabled(r, After(r, actions).value, a)
    ensures var s := After(r, actions).value;
            Ended(s) && s.cancel == Aborted && s.reported > 0 && IndexesOf(s.received, w) == []
  {
    StaysNeverStarted(r, actions, w);
    RefusalAborts(r, actions, w);
    var s := After(r, actions).value;
    if !Ended(s) {
      var a := RefusedReadGoesOn(r, s, w);
      assert false;
    }
    assert s.Sent() == s.received;
  }

  // The worker's consumer refuses the offset it is told to start from, once the log
  // only holds the offsets from oldest on.
  predicate RefusesItsStart(j: Job, o: Offsets, oldest: int) {
    !ConsumerTakes(j.window.start, oldest, o.end)
  }

  // Exactly when that happens to a worker whose partition holds nothing as recent as
  // was asked for: of the more than share records its log ever had, it holds no more
  // than the share.
  lemma RefusesItsStartIff(details: ReadDetails, offsets: map<int, Offsets>, feeds: map<int, seq<Message>>, w: nat, oldest: int)
    requires KnowsItsPartitions(details, offsets, feeds) && w < |ReadOf(details, offsets, feeds).jobs|
    requires details.startPoint != Live && details.startPoint != Beginning && details.limit + |details.partitions| > 0
    requires var j := ReadOf(details, offsets, feeds).jobs[w];
             j.partition in offsets && Reported(offsets[j.partition], oldest) && offsets[j.partition].start == -1
    ensures var j := ReadOf(details, offsets, feeds).jobs[w];
            var o := offsets[j.partition];
            var share := RecordsPerPartition(details.limit, |details.partitions|);
            RefusesItsStart(j, o, oldest) <==> o.Newest() - oldest < share <= o.Newest()
  {
    var j := ReadOf(details, offsets, feeds).jobs[w];
    NothingFoundIsReadIff(details.startPoint, details.limit, |details.partitions|, offsets[j.partition], oldest);
  }
}
