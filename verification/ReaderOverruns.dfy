// Where the reader leaves its own bounds: exactly which messages a read can deliver,
// when some of them lie past a window, and by how much a read can exceed its limit.
module ReaderOverruns {
  import opened Options
  import opened ReadingWindows
  import opened RecordFilters
  import opened Counting
  import opened RecordReader
  import opened ReaderSafety
  import opened ReaderTermination
  import opened ReaderDelivery

  ghost predicate Reaches(r: Read, s: State) {
    exists actions :: After(r, actions) == Some(s)
  }

  lemma Step(r: Read, s: State, a: Action)
    requires Reaches(r, s) && Enabled(r, s, a)
    ensures Reaches(r, Next(r, s, a))
  {
    var actions :| After(r, actions) == Some(s);
    assert (actions + [a])[..|actions|] == actions;
    assert After(r, actions + [a]) == Some(Next(r, s, a));
  }

  lemma Start(r: Read)
    ensures Reaches(r, Init(r))
  {
    assert After(r, []) == Some(Init(r));
  }

  // The state after a fetching worker took its next message and counted it.
  function AfterCounting(r: Read, s: State, w: nat): State
    requires w < |s.workers|
  {
    s.(workers := s.workers[w := s.workers[w].(pc := Sending(s.count + 1 >= r.details.limit))], count := s.count + 1)
  }

  lemma TakesAndCounts(r: Read, s: State, w: nat)
    requires Reaches(r, s) && !s.panicked && w < |s.workers| == |r.jobs| && s.workers[w].pc == Fetching
    requires s.workers[w].pos < |r.jobs[w].feed| && MessageAccepted(r, w, s.workers[w].pos)
    ensures Reaches(r, AfterCounting(r, s, w))
  {
    Step(r, s, Move(w, Receive));
    var t := Next(r, s, Move(w, Receive));
    Step(r, t, Move(w, Count));
    var v := s.workers[w];
    assert t.workers == s.workers[w := v.(pc := Counting)];
    assert t.workers[w := AfterCounting(r, s, w).workers[w]] == AfterCounting(r, s, w).workers;
    assert Next(r, t, Move(w, Count)) == AfterCounting(r, s, w);
  }

  // The first k workers have been launched and are fetching.
  function Launched(r: Read, k: nat): State
    requires k <= |r.jobs|
  {
    Init(r).(workers := seq(|r.jobs|, i => Worker(if i < k then Fetching else Unlaunched, 0)), launched := k, running := k)
  }

  lemma {:induction false} LaunchAll(r: Read, k: nat)
    requires k <= |r.jobs|
    ensures Reaches(r, Launched(r, k))
  {
    if k == 0 {
      Start(r);
      assert Init(r).workers == Launched(r, 0).workers;
    } else {
      LaunchAll(r, k - 1);
      var s := Launched(r, k - 1);
      Step(r, s, Launch);
      s := Next(r, s, Launch);
      Step(r, s, Move(k - 1, Op.Start));
      assert Next(r, s, Move(k - 1, Op.Start)).workers == Launched(r, k).workers;
    }
  }

  // A worker is fetching at index k, everything so far was received and is its own.
  predicate FetchingAt(r: Read, s: State, w: nat, k: nat)
    requires w < |r.jobs| && k <= |r.jobs[w].feed|
  {
    && !s.panicked && |s.workers| == |r.jobs| && s.workers[w] == Worker(Fetching, k)
    && s.buffer == [] && !s.recordsClosed
    && s.count == |AcceptedBelow(r, w, k)|
  }

  // With the others standing still, a worker gets past every index below which
  // nothing stops it, as long as the limit is not used up.
  lemma {:induction false} WorkerReaches(r: Read, w: nat, k: nat) returns (s: State)
    requires r.Capacity() >= 1 && w < |r.jobs| && k <= |r.jobs[w].feed|
    requires NoStopBelow(r, w, k) && |AcceptedBelow(r, w, k)| < Max(r.details.limit, 1)
    ensures Reaches(r, s) && FetchingAt(r, s, w, k)
  {
    if k == 0 {
      LaunchAll(r, w + 1);
      s := Launched(r, w + 1);
    } else {
      s := WorkerReaches(r, w, k - 1);
      if MessageAccepted(r, w, k - 1) {
        s := WorkerSends(r, s, w, k - 1);
        Step(r, s, TakeRecord);
        s := Next(r, s, TakeRecord);
      } else {
        Step(r, s, Move(w, Receive));
        s := Next(r, s, Move(w, Receive));
      }
    }
  }

  lemma {:induction false} WorkerSends(r: Read, s: State, w: nat, k: nat) returns (t: State)
    requires r.Capacity() >= 1 && w < |r.jobs| && k < |r.jobs[w].feed| && MessageAccepted(r, w, k)
    requires Reaches(r, s) && FetchingAt(r, s, w, k)
    ensures Reaches(r, t)
    ensures && t.buffer == [Delivery(w, k)] && |t.workers| == |r.jobs|
            && t.count == s.count + 1 && !t.panicked && !t.recordsClosed
            && (t.count < r.details.limit && !Stops(r, w, k) ==> t.workers[w] == Worker(Fetching, k + 1))
  {
    TakesAndCounts(r, s, w);
    t := Sends(r, AfterCounting(r, s, w), w, k);
  }

  lemma Sends(r: Read, s: State, w: nat, k: nat) returns (t: State)
    requires r.Capacity() >= 1 && w < |r.jobs| == |s.workers| && k < |r.jobs[w].feed|
    requires Reaches(r, s) && !s.panicked && !s.recordsClosed && s.buffer == []
    requires s.workers[w] == Worker(Sending(s.count >= r.details.limit), k)
    ensures Reaches(r, t)
    ensures && t.buffer == [Delivery(w, k)] && |t.workers| == |r.jobs|
            && t.count == s.count && !t.panicked && !t.recordsClosed
            && (t.count < r.details.limit && !Stops(r, w, k) ==> t.workers[w] == Worker(Fetching, k + 1))
  {
    Step(r, s, Move(w, Send));
    t := Next(r, s, Move(w, Send));
  }

  // The increments a worker's position stands for.
  function Own(r: Read, s: State, w: nat): nat
    requires Shape(r, s) && w < |r.jobs|
  {
    |AcceptedBelow(r, w, s.workers[w].pos)| + (if IsSending(s.workers[w]) then 1 else 0)
  }

  // One worker alone never counts past the limit, but for the one record it counts
  // when there is no limit to speak of.
  predicate OwnWithinLimit(r: Read, s: State, w: nat)
    requires Shape(r, s) && w < |r.jobs|
  {
    Own(r, s, w) <= if ReachedLimit(s.workers[w]) then Max(r.details.limit, 1) else Max(r.details.limit - 1, 0)
  }

  lemma {:induction false} HistoryLength(ds: seq<Delivery>, w: nat)
    ensures |IndexesOf(ds, w)| <= |ds|
  {
    if ds != [] {
      HistoryLength(ds[..|ds| - 1], w);
    }
  }

  lemma OwnAtMostCount(r: Read, s: State, w: nat)
    requires Invariant(r, s) && w < |r.jobs|
    ensures Own(r, s, w) <= s.count
  {
    assert WorkerOrdered(r, s, w);
    HistoryLength(s.Sent(), w);
    CountIfBounds(s.workers, IsSending);
  }

  lemma MovedOwn(r: Read, s: State, w: nat, op: Op)
    requires Invariant(r, s) && Enabled(r, s, Move(w, op)) && OwnWithinLimit(r, s, w)
    ensures Shape(r, Next(r, s, Move(w, op))) && OwnWithinLimit(r, Next(r, s, Move(w, op)), w)
  {
    ShapeKept(r, s, Move(w, op));
    OwnAtMostCount(r, s, w);
    assert WorkerShape(r, w, s.workers[w]);
  }

  lemma StandingStillKeepsOwn(r: Read, s: State, a: Action, w: nat)
    requires Invariant(r, s) && Enabled(r, s, a) && w < |r.jobs| && OwnWithinLimit(r, s, w)
    requires !(a.Move? && a.w == w)
    ensures Shape(r, Next(r, s, a)) && OwnWithinLimit(r, Next(r, s, a), w)
  {
    ShapeKept(r, s, a);
    var v, v' := s.workers[w], Next(r, s, a).workers[w];
    assert v' == v || (v.pc == Unlaunched && v' == v.(pc := Starting));
  }

  lemma {:induction false} OwnStaysWithinLimit(r: Read, actions: seq<Action>, w: nat)
    requires After(r, actions).Some? && w < |r.jobs|
    ensures Invariant(r, After(r, actions).value) && OwnWithinLimit(r, After(r, actions).value, w)
  {
    ReachableIsInvariant(r, actions);
    if actions != [] {
      var before, a := actions[..|actions| - 1], actions[|actions| - 1];
      OwnStaysWithinLimit(r, before, w);
      if a.Move? && a.w == w {
        MovedOwn(r, After(r, before).value, w, a.op);
      } else {
        StandingStillKeepsOwn(r, After(r, before).value, a, w);
      }
    }
  }

  ghost predicate CanBeDelivered(r: Read, d: Delivery) {
    exists s :: Reaches(r, s) && d in s.Sent()
  }

  // Whatever the logs and the number of partitions: some run delivers a message if and
  // only if it is accepted, no earlier one of its partition stops the worker, and
  // fewer of its partition than the limit are accepted before it. A limit below one
  // counts as one.
  lemma CanBeDeliveredIff(r: Read, w: nat, i: nat)
    requires r.Capacity() >= 1 && w < |r.jobs| && i < |r.jobs[w].feed|
    ensures CanBeDelivered(r, Delivery(w, i)) <==>
              && MessageAccepted(r, w, i)
              && NoStopBelow(r, w, i)
              && |AcceptedBelow(r, w, i)| < Max(r.details.limit, 1)
  {
    if CanBeDelivered(r, Delivery(w, i)) {
      DeliveredInBounds(r, w, i);
    }
    if MessageAccepted(r, w, i) && NoStopBelow(r, w, i) && |AcceptedBelow(r, w, i)| < Max(r.details.limit, 1) {
      var s := WorkerReaches(r, w, i);
      s := WorkerSends(r, s, w, i);
      assert s.Sent()[|s.received|] == Delivery(w, i);
      assert CanBeDelivered(r, Delivery(w, i));
    }
  }

  lemma DeliveredInBounds(r: Read, w: nat, i: nat)
    requires w < |r.jobs| && i < |r.jobs[w].feed| && CanBeDelivered(r, Delivery(w, i))
    ensures MessageAccepted(r, w, i) && NoStopBelow(r, w, i) && |AcceptedBelow(r, w, i)| < Max(r.details.limit, 1)
  {
    var s :| Reaches(r, s) && Delivery(w, i) in s.Sent();
    var actions :| After(r, actions) == Some(s);
    OwnStaysWithinLimit(r, actions, w);
    var n :| 0 <= n < |s.Sent()| && s.Sent()[n] == Delivery(w, i);
    DeliveryInRange(r, s, n);
    AcceptedGrows(r, w, i, s.workers[w].pos);
    assert WorkerJustified(r, s, w, s.workers[w]);
  }

  lemma {:induction false} AcceptedGrows(r: Read, w: nat, i: nat, k: nat)
    requires w < |r.jobs| && i < k <= |r.jobs[w].feed| && MessageAccepted(r, w, i)
    ensures |AcceptedBelow(r, w, i)| < |AcceptedBelow(r, w, k)|
  {
    if i + 1 < k {
      AcceptedGrows(r, w, i, k - 1);
    }
  }

  // The accepted record at index i lies past its worker's window, and the limit still
  // leaves room for it once everything before it was delivered.
  predicate LateRecord(r: Read, w: nat, i: nat)
    requires w < |r.jobs|
  {
    && r.jobs[w].window.Size() <= i < |r.jobs[w].feed| && MessageAccepted(r, w, i)
    && |AcceptedBelow(r, w, i)| < Max(r.details.limit, 1)
  }

  ghost predicate DeliversOnlyItsWindows(r: Read) {
    forall d :: CanBeDelivered(r, d) ==> d.worker < |r.jobs| && d.index < r.jobs[d.worker].window.Size()
  }

  // The guard of a worker that keeps to its window: the read is for the most recent
  // records, or the record at the window's end passes the filter, or no later record
  // passes it before the limit is used up.
  ghost predicate WindowGuard(r: Read, w: nat)
    requires w < |r.jobs|
  {
    SeesItsEnd(r, w) || !exists i :: LateRecord(r, w, i)
  }

  // A read over dense logs stays inside its windows, whatever the interleaving, if and
  // only if that guard holds for each of its workers.
  lemma StaysInWindowIff(r: Read)
    requires r.Capacity() >= 1 && r.details.startPoint != Live
    requires forall w :: 0 <= w < |r.jobs| ==> Dense(r.jobs[w]) && r.jobs[w].window.Size() >= 1
    ensures DeliversOnlyItsWindows(r) <==> forall w :: 0 <= w < |r.jobs| ==> WindowGuard(r, w)
  {
    if forall w :: 0 <= w < |r.jobs| ==> WindowGuard(r, w) {
      forall d | CanBeDelivered(r, d)
        ensures d.worker < |r.jobs| && d.index < r.jobs[d.worker].window.Size()
      {
        DeliveredInWindow(r, d);
      }
    } else {
      var w: nat :| w < |r.jobs| && !WindowGuard(r, w);
      var i :| LateRecord(r, w, i);
      StopsAtWindowEndIff(r, w);
      CanBeDeliveredIff(r, w, i);
      assert CanBeDelivered(r, Delivery(w, i));
    }
  }

  lemma DeliveredInWindow(r: Read, d: Delivery)
    requires r.details.startPoint != Live && CanBeDelivered(r, d)
    requires forall w :: 0 <= w < |r.jobs| ==> Dense(r.jobs[w]) && r.jobs[w].window.Size() >= 1 && WindowGuard(r, w)
    ensures d.worker < |r.jobs| && d.index < r.jobs[d.worker].window.Size()
  {
    var s :| Reaches(r, s) && d in s.Sent();
    DeliveryExists(r, s, d);
    DeliveredInBounds(r, d.worker, d.index);
    StopsAtWindowEndIff(r, d.worker);
    if d.index >= r.jobs[d.worker].window.Size() {
      assert LateRecord(r, d.worker, d.index);
    }
  }

  lemma DeliveryExists(r: Read, s: State, d: Delivery)
    requires Reaches(r, s) && d in s.Sent()
    ensures d.worker < |r.jobs| && d.index < |r.jobs[d.worker].feed|
  {
    var actions :| After(r, actions) == Some(s);
    ReachableIsInvariant(r, actions);
    var n :| 0 <= n < |s.Sent()| && s.Sent()[n] == d;
    DeliveryInRange(r, s, n);
  }

  // Reading live without a filter: partitions that each hold enough records.
  function BusyRead(limit: int, partitions: nat): Read {
    var details := ReadDetails(seq(partitions, i => i), Live, limit, None);
    var feed := seq(Max(limit, 1), i => Message(i, "", Decoded("")));
    Read(details, seq(partitions, i => Job(i, ReadingOffsets(0, -1), feed)))
  }

  // The first worker has sent n records, all received; then the first k workers
  // have counted one more record each, and the first m of those have sent it.
  function Counted(r: Read, n: nat, k: nat, m: nat): State {
    Launched(r, |r.jobs|).(
      workers := seq(|r.jobs|, i => CountedWorker(n, k, m, i)),
      running := |r.jobs| - m,
      count := n + k,
      received := seq(n, (i: nat) => Delivery(0, i)),
      buffer := seq(m, (i: nat) => Delivery(i, if i == 0 then n else 0)))
  }

  function CountedWorker(n: nat, k: nat, m: nat, i: int): Worker {
    Worker(if i < m then Returned(AtLimit) else if i < k then Sending(true) else Fetching,
           (if i == 0 then n else 0) + (if i < m then 1 else 0))
  }

  lemma {:induction false} FirstSends(limit: int, partitions: nat, n: nat)
    requires partitions >= 1 && n <= Max(limit - 1, 0)
    ensures Reaches(BusyRead(limit, partitions), Counted(BusyRead(limit, partitions), n, 0, 0))
  {
    var r := BusyRead(limit, partitions);
    if n == 0 {
      LaunchAll(r, partitions);
      assert Launched(r, partitions).workers == Counted(r, 0, 0, 0).workers;
      assert Launched(r, partitions) == Counted(r, 0, 0, 0);
    } else {
      FirstSends(limit, partitions, n - 1);
      var s := Counted(r, n - 1, 0, 0);
      TakesAndCounts(r, s, 0);
      FirstSendsOne(r, s, n - 1);
    }
  }

  lemma FirstSendsOne(r: Read, s: State, n: nat)
    requires |r.jobs| >= 1 && r.Capacity() >= 1 && r.details.startPoint == Live && n < |r.jobs[0].feed| && n + 1 < r.details.limit
    requires s == Counted(r, n, 0, 0) && Reaches(r, AfterCounting(r, s, 0))
    ensures Reaches(r, Counted(r, n + 1, 0, 0))
  {
    var t := AfterCounting(r, s, 0);
    Step(r, t, Move(0, Send));
    t := Next(r, t, Move(0, Send));
    Step(r, t, TakeRecord);
    t := Next(r, t, TakeRecord);
    var goal := Counted(r, n + 1, 0, 0);
    assert t.workers == goal.workers;
    assert t.received == s.received + [Delivery(0, n)] == goal.received;
    assert t == goal;
  }

  lemma {:induction false} AllCount(limit: int, partitions: nat, k: nat)
    requires partitions >= 1 && k <= partitions
    ensures Reaches(BusyRead(limit, partitions), Counted(BusyRead(limit, partitions), Max(limit - 1, 0), k, 0))
  {
    var r := BusyRead(limit, partitions);
    var n := Max(limit - 1, 0);
    if k == 0 {
      FirstSends(limit, partitions, n);
    } else {
      AllCount(limit, partitions, k - 1);
      CountOne(r, n, k - 1);
    }
  }

  lemma CountOne(r: Read, n: nat, k: nat)
    requires k < |r.jobs| && (if k == 0 then n else 0) < |r.jobs[k].feed| && n + k + 1 >= r.details.limit
    requires MessageAccepted(r, k, if k == 0 then n else 0)
    requires Reaches(r, Counted(r, n, k, 0))
    ensures Reaches(r, Counted(r, n, k + 1, 0))
  {
    var s := Counted(r, n, k, 0);
    TakesAndCounts(r, s, k);
    assert AfterCounting(r, s, k).workers == Counted(r, n, k + 1, 0).workers;
    assert AfterCounting(r, s, k) == Counted(r, n, k + 1, 0);
  }

  lemma {:induction false} AllSend(limit: int, partitions: nat, m: nat)
    requires partitions >= 1 && m <= partitions
    ensures Reaches(BusyRead(limit, partitions), Counted(BusyRead(limit, partitions), Max(limit - 1, 0), partitions, m))
  {
    var r := BusyRead(limit, partitions);
    var n := Max(limit - 1, 0);
    if m == 0 {
      AllCount(limit, partitions, partitions);
    } else {
      AllSend(limit, partitions, m - 1);
      SendOne(r, n, m - 1);
    }
  }

  lemma SendOne(r: Read, n: nat, m: nat)
    requires m < |r.jobs| <= r.Capacity() && (if m == 0 then n else 0) < |r.jobs[m].feed|
    requires Reaches(r, Counted(r, n, |r.jobs|, m))
    ensures Reaches(r, Counted(r, n, |r.jobs|, m + 1))
  {
    var s := Counted(r, n, |r.jobs|, m);
    Step(r, s, Move(m, Send));
    var t := Next(r, s, Move(m, Send));
    var goal := Counted(r, n, |r.jobs|, m + 1);
    assert t.workers == goal.workers;
    assert t.buffer == goal.buffer;
    assert t == goal;
  }

  // The bound on what a read sends is reached for every limit and every number of
  // partitions: the last workers all count before any of them sends.
  lemma LimitBoundIsTight(limit: int, partitions: nat) returns (s: State)
    requires partitions >= 1
    ensures var r := BusyRead(limit, partitions);
            && |r.jobs| == r.Capacity() == partitions && r.details.limit == limit
            && Reaches(r, s)
            && |s.Sent()| == Max(limit - 1, 0) + partitions
  {
    AllSend(limit, partitions, partitions);
    s := Counted(BusyRead(limit, partitions), Max(limit - 1, 0), partitions, partitions);
  }
}
