// How far failures reach in kadmin/record_reader.go: a consumer error ends its own
// worker and nothing else, only a cancellation or a consumer that cannot be opened
// cancels the read, and a cancelled read always comes to its end.
module ReaderFailures {
  import opened Options
  import opened RecordReader
  import opened Counting
  import opened ReaderSafety
  import opened ReaderTermination
  import opened ReaderDelivery

  predicate UserCancelled(actions: seq<Action>) {
    exists i :: 0 <= i < |actions| && actions[i] == UserCancels
  }

  predicate Took(actions: seq<Action>, w: nat, op: Op) {
    exists i :: 0 <= i < |actions| && actions[i] == Move(w, op)
  }

  // What has happened in the run, as far as a worker and the context show it.
  predicate WorkerAccountsFor(actions: seq<Action>, w: nat, v: Worker) {
    && (v.pc in {ReportingStartFailure, Aborting} ==> Took(actions, w, FailToStart))
    && (v.pc == ReportingConsumerError ==> Took(actions, w, SeeError))
    && (v.pc == Returned(Failed) ==> Took(actions, w, FailToStart) || Took(actions, w, SeeError))
  }

  predicate AccountsFor(r: Read, actions: seq<Action>, s: State) {
    && |s.workers| == |r.jobs|
    && (forall w :: 0 <= w < |s.workers| ==> WorkerAccountsFor(actions, w, s.workers[w]))
    && (s.cancel == Aborted ==> UserCancelled(actions) || exists w: nat :: w < |r.jobs| && Took(actions, w, FailToStart))
  }

  lemma TookMore(actions: seq<Action>, a: Action)
    ensures UserCancelled(actions) || a == UserCancels ==> UserCancelled(actions + [a])
    ensures forall w: nat, op :: Took(actions, w, op) || a == Move(w, op) ==> Took(actions + [a], w, op)
  {
    var more := actions + [a];
    assert more[|actions|] == a;
    if UserCancelled(actions) {
      var i :| 0 <= i < |actions| && actions[i] == UserCancels;
      assert more[i] == UserCancels;
    }
    forall w: nat, op | Took(actions, w, op)
      ensures Took(more, w, op)
    {
      var i :| 0 <= i < |actions| && actions[i] == Move(w, op);
      assert more[i] == Move(w, op);
    }
  }

  lemma StepAccountsFor(r: Read, actions: seq<Action>, s: State, a: Action)
    requires Enabled(r, s, a) && AccountsFor(r, actions, s)
    ensures AccountsFor(r, actions + [a], Next(r, s, a))
  {
    TookMore(actions, a);
    var t := Next(r, s, a);
    forall w | 0 <= w < |t.workers|
      ensures WorkerAccountsFor(actions + [a], w, t.workers[w])
    {
      assert WorkerAccountsFor(actions, w, s.workers[w]);
    }
    if t.cancel == Aborted && s.cancel != Aborted && a != UserCancels {
      assert a.Move? && a.op == Abort && WorkerAccountsFor(actions, a.w, s.workers[a.w]);
    }
  }

  lemma {:induction false} RunsAccountFor(r: Read, actions: seq<Action>)
    requires After(r, actions).Some?
    ensures AccountsFor(r, actions, After(r, actions).value)
  {
    if actions != [] {
      var before, a := actions[..|actions| - 1], actions[|actions| - 1];
      RunsAccountFor(r, before);
      StepAccountsFor(r, before, After(r, before).value, a);
      assert before + [a] == actions;
    }
  }

  // Only the user, or a consumer that could not be opened, cancels a read.
  lemma AbortedOnlyBy(r: Read, actions: seq<Action>)
    requires After(r, actions).Some? && After(r, actions).value.cancel == Aborted
    ensures UserCancelled(actions) || exists w: nat :: w < |r.jobs| && Took(actions, w, FailToStart)
  {
    RunsAccountFor(r, actions);
  }

  lemma EndedAtAStop(r: Read, s: State, w: nat)
    requires Invariant(r, s) && w < |r.jobs| && AllReturned(s) && |s.Sent()| < r.details.limit
    requires s.cancel != Aborted && s.workers[w].pc != Returned(Failed)
    ensures 0 < s.workers[w].pos <= |r.jobs[w].feed|
    ensures Stops(r, w, s.workers[w].pos - 1) && NoStopBelow(r, w, s.workers[w].pos - 1)
    ensures IndexesOf(s.Sent(), w) == AcceptedBelow(r, w, s.workers[w].pos)
  {
    CountIfBounds(s.workers, IsSending);
    assert WorkerJustified(r, s, w, s.workers[w]);
    assert WorkerOrdered(r, s, w);
  }

  // Whatever other consumers report: a read that nobody cancelled and all of whose
  // consumers were opened, once it ended below its limit, delivered from every worker
  // without a consumer error exactly the accepted messages up to the one that stopped it.
  lemma OthersGoOn(r: Read, actions: seq<Action>, w: nat)
    requires After(r, actions).Some? && w < |r.jobs| && !UserCancelled(actions) && !Took(actions, w, SeeError)
    requires forall v: nat :: v < |r.jobs| ==> !Took(actions, v, FailToStart)
    requires var s := After(r, actions).value; AllReturned(s) && |s.Sent()| < r.details.limit
    ensures var s := After(r, actions).value;
            && |s.workers| == |r.jobs| && 0 < s.workers[w].pos <= |r.jobs[w].feed|
            && Stops(r, w, s.workers[w].pos - 1) && NoStopBelow(r, w, s.workers[w].pos - 1)
            && IndexesOf(s.Sent(), w) == AcceptedBelow(r, w, s.workers[w].pos)
  {
    ReachableIsInvariant(r, actions);
    RunsAccountFor(r, actions);
    var s := After(r, actions).value;
    assert WorkerAccountsFor(actions, w, s.workers[w]);
    EndedAtAStop(r, s, w);
  }

  // A worker's step is nobody else's, and only the abort of a start failure touches
  // the context.
  lemma StepsAreTheirOwn(r: Read, s: State, w: nat, op: Op, v: nat)
    requires Invariant(r, s) && Enabled(r, s, Move(w, op)) && v < |r.jobs| && v != w
    ensures var t := Next(r, s, Move(w, op));
            && |t.workers| == |r.jobs| && t.workers[v] == s.workers[v]
            && t.received == s.received && t.closer == s.closer && t.recordsClosed == s.recordsClosed
            && (op != Abort ==> t.cancel == s.cancel)
            && (op != Send ==> t.buffer == s.buffer)
  {
    StepKeepsInvariant(r, s, Move(w, op));
  }

  predicate Erred(v: Worker) {
    v.pc == ReportingConsumerError || v.pc == Returned(Failed)
  }

  lemma ErredStays(r: Read, s: State, a: Action, w: nat)
    requires Invariant(r, s) && Enabled(r, s, a) && w < |r.jobs|
    requires Erred(s.workers[w]) || a == Move(w, SeeError)
    ensures |Next(r, s, a).workers| == |r.jobs| && Erred(Next(r, s, a).workers[w])
    ensures Erred(s.workers[w]) && a.Move? && a.w == w ==> a.op == Report
  {
  }

  lemma LastStep(r: Read, actions: seq<Action>) returns (s: State)
    requires actions != [] && After(r, actions).Some?
    ensures After(r, actions[..|actions| - 1]) == Some(s) && Invariant(r, s) && Enabled(r, s, actions[|actions| - 1])
    ensures After(r, actions) == Some(Next(r, s, actions[|actions| - 1]))
  {
    ReachableIsInvariant(r, actions[..|actions| - 1]);
    s := After(r, actions[..|actions| - 1]).value;
  }

  lemma OneMoreErred(r: Read, actions: seq<Action>, w: nat)
    requires actions != [] && After(r, actions).Some? && w < |r.jobs|
    requires actions[|actions| - 1] == Move(w, SeeError) || ErredAfter(r, actions[..|actions| - 1], w)
    ensures ErredAfter(r, actions, w)
  {
    var s := LastStep(r, actions);
    ErredStays(r, s, actions[|actions| - 1], w);
  }

  predicate ErredAfter(r: Read, actions: seq<Action>, w: nat) {
    match After(r, actions)
    case None => false
    case Some(s) => w < |s.workers| && Erred(s.workers[w])
  }

  lemma {:induction false} ErredSince(r: Read, actions: seq<Action>, w: nat, i: nat)
    requires After(r, actions).Some? && w < |r.jobs| && i < |actions| && actions[i] == Move(w, SeeError)
    ensures ErredAfter(r, actions, w)
  {
    var n := |actions| - 1;
    if i < n {
      ErredSince(r, actions[..n], w, i);
    }
    OneMoreErred(r, actions, w);
  }

  // A worker that has seen a consumer error only reports it.
  lemma {:induction false} ConsumerErrorIsFinal(r: Read, actions: seq<Action>, w: nat, i: nat, j: nat)
    requires After(r, actions).Some? && w < |r.jobs| && i < j < |actions|
    requires actions[i] == Move(w, SeeError) && actions[j].Move? && actions[j].w == w
    ensures actions[j].op == Report
  {
    var n := |actions| - 1;
    var before := actions[..n];
    if j < n {
      ConsumerErrorIsFinal(r, before, w, i, j);
    } else {
      var s := LastStep(r, actions);
      ErredSince(r, before, w, i);
      ErredStays(r, s, actions[n], w);
    }
  }

  // Neither channel ever holds more than it was made for: a record a requested
  // partition, and one error.
  lemma {:induction false} ChannelsNeverOverflow(r: Read, actions: seq<Action>)
    requires After(r, actions).Some?
    ensures |After(r, actions).value.buffer| <= |r.details.partitions| && After(r, actions).value.errors <= 1
  {
    ReachableIsInvariant(r, actions);
    if actions != [] {
      var before, a := actions[..|actions| - 1], actions[|actions| - 1];
      ChannelsNeverOverflow(r, before);
      assert !Next(r, After(r, before).value, a).panicked;
    }
  }

  // In every run a worker about to send waits exactly while the channel is full, and
  // one about to report an error exactly while another error sits there.
  lemma SendWaitsIff(r: Read, actions: seq<Action>, w: nat)
    requires After(r, actions).Some? && w < |r.jobs|
    ensures var s := After(r, actions).value;
            && |s.workers| == |r.jobs|
            && (s.workers[w].pc.Sending? ==>
                  (Enabled(r, s, Move(w, Send)) <==> |s.buffer| < |r.details.partitions|))
            && (s.workers[w].pc in {ReportingStartFailure, ReportingConsumerError} ==>
                  (Enabled(r, s, Move(w, Report)) <==> s.errors == 0))
  {
    ReachableIsInvariant(r, actions);
    var s := After(r, actions).value;
    assert WorkerShape(r, w, s.workers[w]);
  }

  lemma CancelledReadGoesOn(r: Read, s: State) returns (a: Action)
    requires Invariant(r, s) && s.cancel != Running && !Ended(s)
    ensures Enabled(r, s, a) && Unforced(a)
  {
    if s.errors > 0 {
      return TakeError;
    } else if s.buffer != [] {
      return TakeRecord;
    } else if s.launched < |s.workers| {
      return Launch;
    } else if s.closer == NotStarted {
      return StartCloser;
    } else if AllReturned(s) {
      CountIfBounds(s.workers, IsLive);
      return Close;
    }
    var v: nat :| v < |s.workers| && !s.workers[v].pc.Returned?;
    match s.workers[v].pc {
      case Starting => a := Move(v, Start);
      case ReportingStartFailure => a := Move(v, Report);
      case ReportingConsumerError => a := Move(v, Report);
      case Aborting => a := Move(v, Abort);
      case Fetching => a := Move(v, SeeCancel);
      case Counting => a := Move(v, Op.Count);
      case Sending(_) => a := Move(v, SeeCancel);
    }
  }

  // Once cancelled, a read comes to its end whatever the logs hold and whether or not
  // anything would have stopped its workers.
  lemma CancelledReadsEnd(r: Read, actions: seq<Action>)
    requires After(r, actions).Some? && After(r, actions).value.cancel != Running
    requires forall a :: Unforced(a) ==> !Enabled(r, After(r, actions).value, a)
    ensures Ended(After(r, actions).value)
  {
    ReachableIsInvariant(r, actions);
    var s := After(r, actions).value;
    if !Ended(s) {
      var a := CancelledReadGoesOn(r, s);
      assert false;
    }
  }
}
