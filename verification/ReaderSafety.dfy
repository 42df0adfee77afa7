// What every step of the record reader keeps, and what therefore holds in every
// state of every run.
module ReaderSafety {
  import opened Options
  import opened ReadingWindows
  import opened RecordFilters
  import opened Counting
  import opened RecordReader

  predicate IsLive(w: Worker) { w.pc != Unlaunched && !w.pc.Returned? }

  predicate IsSending(w: Worker) { w.pc.Sending? }

  // Its own increment reached the limit, so it makes no further one.
  predicate ReachedLimit(w: Worker) {
    w.pc == Sending(true) || w.pc == Returned(AtLimit) || w.pc == Returned(DroppedAtLimit)
  }

  predicate AllReturned(s: State) {
    forall w :: 0 <= w < |s.workers| ==> s.workers[w].pc.Returned?
  }

  predicate Shape(r: Read, s: State) {
    && |s.workers| == |r.jobs|
    && s.launched <= |s.workers|
    && (forall w :: 0 <= w < |s.workers| ==> (s.workers[w].pc == Unlaunched <==> s.launched <= w))
    && (forall w :: 0 <= w < |s.workers| ==> WorkerShape(r, w, s.workers[w]))
  }

  // A worker holding a counted message holds the accepted one at its position.
  predicate WorkerShape(r: Read, w: nat, v: Worker)
    requires w < |r.jobs|
  {
    && v.pos <= |r.jobs[w].feed|
    && (v.pc.Counting? || v.pc.Sending? ==> v.pos < |r.jobs[w].feed| && MessageAccepted(r, w, v.pos))
  }

  // The channels and the context: closed in order, once, and only by a closer
  // that has seen every worker return.
  predicate ClosedInOrder(s: State) {
    && !s.panicked
    && s.running == CountIf(s.workers, IsLive)
    && (s.closer != NotStarted ==> s.launched == |s.workers|)
    && (s.closer != NotStarted && s.closer != Waiting ==> AllReturned(s))
    && (s.recordsClosed <==> s.closer == ClosingErrors || s.closer == Finished)
    && (s.errorsClosed <==> s.closer == Finished)
    && (s.closer in {ClosingRecords, ClosingErrors, Finished} ==> s.cancel != Running)
    && (s.cancel == ShutDown ==> AllReturned(s))
    && s.errors <= 1
  }

  // Records never outnumber increments, only an aborted read drops a counted one,
  // and at most one increment a worker happens at or past the limit.
  predicate WithinLimit(r: Read, s: State) {
    && |s.Sent()| + CountIf(s.workers, IsSending) <= s.count
    && (s.cancel != Aborted ==> |s.Sent()| + CountIf(s.workers, IsSending) == s.count)
    && s.count <= Max(r.details.limit - 1, 0) + CountIf(s.workers, ReachedLimit)
    && (CountIf(s.workers, ReachedLimit) > 0 ==> s.count >= r.details.limit)
  }

  // What a step does to the number of workers in some condition.
  lemma CountAfterStep(r: Read, s: State, a: Action, p: Worker -> bool)
    requires Enabled(r, s, a)
    ensures var t := Next(r, s, a);
            CountIf(t.workers, p) == CountIf(s.workers, p) +
              match a
              case Launch => Change(p, s.workers[s.launched], t.workers[s.launched])
              case Move(w, _) => Change(p, s.workers[w], t.workers[w])
              case _ => 0
  {
    match a {
      case Launch => CountIfUpdate(s.workers, p, s.launched, s.workers[s.launched].(pc := Starting));
      case Move(w, op) => CountIfUpdate(s.workers, p, w, Moved(r, s, w, op));
      case _ =>
    }
  }

  function Change(p: Worker -> bool, before: Worker, after: Worker): int {
    (if p(after) then 1 else 0) - (if p(before) then 1 else 0)
  }

  lemma ShapeKept(r: Read, s: State, a: Action)
    requires Shape(r, s) && Enabled(r, s, a)
    ensures Shape(r, Next(r, s, a))
  {
    if a.Move? {
      MovedShape(r, s, a.w, a.op);
    }
  }

  lemma MovedShape(r: Read, s: State, w: nat, op: Op)
    requires CanMove(r, s, w, op) && WorkerShape(r, w, s.workers[w])
    ensures WorkerShape(r, w, Moved(r, s, w, op)) && Moved(r, s, w, op).pc != Unlaunched
  {
  }

  lemma ClosedInOrderKept(r: Read, s: State, a: Action)
    requires Shape(r, s) && ClosedInOrder(s) && Enabled(r, s, a)
    ensures ClosedInOrder(Next(r, s, a))
  {
    CountAfterStep(r, s, a, IsLive);
    CountIfBounds(s.workers, IsLive);
  }

  lemma WithinLimitKept(r: Read, s: State, a: Action)
    requires Shape(r, s) && ClosedInOrder(s) && WithinLimit(r, s) && Enabled(r, s, a)
    ensures WithinLimit(r, Next(r, s, a))
  {
    CountAfterStep(r, s, a, IsSending);
    CountAfterStep(r, s, a, ReachedLimit);
    if a.Move? {
      MovedWithinLimit(r, s, a.w, a.op);
    }
  }

  // The worker's own share in the counts: a sender is one record behind its
  // increment, and an increment past the limit is its last.
  lemma MovedWithinLimit(r: Read, s: State, w: nat, op: Op)
    requires CanMove(r, s, w, op)
    ensures var v := s.workers[w];
            var v' := Moved(r, s, w, op);
            && Change(IsSending, v, v') == (if op == Count then 1 else if op == Send || (op == SeeCancel && v.pc.Sending?) then -1 else 0)
            && Change(ReachedLimit, v, v') == (if op == Count && s.count + 1 >= r.details.limit then 1 else 0)
  {
  }

  // The feed indexes a worker contributed to a history, in the history's order.
  function IndexesOf(ds: seq<Delivery>, w: nat): seq<nat> {
    if ds == [] then []
    else
      var d := ds[|ds| - 1];
      IndexesOf(ds[..|ds| - 1], w) + (if d.worker == w then [d.index] else [])
  }

  // The accepted messages among the first k of a worker's feed.
  function AcceptedBelow(r: Read, w: nat, k: nat): seq<nat>
    requires w < |r.jobs| && k <= |r.jobs[w].feed|
  {
    if k == 0 then []
    else AcceptedBelow(r, w, k - 1) + (if MessageAccepted(r, w, k - 1) then [k - 1] else [])
  }

  // The channel's history, seen from a worker, is what it has accepted so far.
  predicate WorkerOrdered(r: Read, s: State, w: nat)
    requires Shape(r, s) && w < |r.jobs|
  {
    IndexesOf(s.Sent(), w) == AcceptedBelow(r, w, s.workers[w].pos)
  }

  predicate Ordered(r: Read, s: State)
    requires Shape(r, s)
  {
    && (forall i :: 0 <= i < |s.Sent()| ==> s.Sent()[i].worker < |r.jobs|)
    && (forall w :: 0 <= w < |r.jobs| ==> WorkerOrdered(r, s, w))
  }

  // No message below k ends the read.
  predicate NoStopBelow(r: Read, w: nat, k: nat)
    requires w < |r.jobs| && k <= |r.jobs[w].feed|
  {
    forall i :: 0 <= i < k ==> !Stops(r, w, i)
  }

  // The worker went past no message its end check stops at, and returned for a reason.
  predicate WorkerJustified(r: Read, s: State, w: nat, v: Worker)
    requires w < |r.jobs| && WorkerShape(r, w, v)
  {
    && NoStopBelow(r, w, if v.pos > 0 then v.pos - 1 else 0)
    && (v.pos > 0 && Stops(r, w, v.pos - 1) ==> v.pc.Returned?)
    && match v.pc
       case Returned(AtEnd) => v.pos > 0 && Stops(r, w, v.pos - 1)
       case Returned(AtLimit) => s.count >= r.details.limit
       case Returned(Failed) => s.reported > 0
       case Returned(_) => s.cancel == Aborted
       case Aborting => s.reported > 0
       case Sending(true) => s.count >= r.details.limit
       case _ => true
  }

  predicate Justified(r: Read, s: State)
    requires Shape(r, s)
  {
    forall w :: 0 <= w < |r.jobs| ==> WorkerJustified(r, s, w, s.workers[w])
  }

  lemma IndexesOfAppend(ds: seq<Delivery>, d: Delivery, w: nat)
    ensures IndexesOf(ds + [d], w) == IndexesOf(ds, w) + (if d.worker == w then [d.index] else [])
  {
  }

  lemma SentAfterStep(r: Read, s: State, a: Action)
    requires Enabled(r, s, a)
    ensures Next(r, s, a).Sent() ==
            if a.Move? && a.op == Send && !s.recordsClosed then s.Sent() + [Delivery(a.w, s.workers[a.w].pos)]
            else s.Sent()
  {
  }

  // A worker is done with one more message when it sends it or filters it out.
  lemma MovedAccepts(r: Read, s: State, w: nat, op: Op)
    requires CanMove(r, s, w, op) && WorkerShape(r, w, s.workers[w])
    ensures var v, v' := s.workers[w], Moved(r, s, w, op);
            && v'.pos <= |r.jobs[w].feed|
            && AcceptedBelow(r, w, v'.pos) == AcceptedBelow(r, w, v.pos) + (if op == Send then [v.pos] else [])
  {
  }

  lemma {:induction false} WorkerOrderedKept(r: Read, s: State, a: Action, w: nat)
    requires Shape(r, s) && ClosedInOrder(s) && w < |r.jobs| && WorkerOrdered(r, s, w) && Enabled(r, s, a)
    ensures Shape(r, Next(r, s, a)) && WorkerOrdered(r, Next(r, s, a), w)
  {
    ShapeKept(r, s, a);
    SentAfterStep(r, s, a);
    if a.Move? {
      MovedAccepts(r, s, a.w, a.op);
      IndexesOfAppend(s.Sent(), Delivery(a.w, s.workers[a.w].pos), w);
    }
  }

  lemma OrderedKept(r: Read, s: State, a: Action)
    requires Shape(r, s) && ClosedInOrder(s) && Ordered(r, s) && Enabled(r, s, a)
    ensures Shape(r, Next(r, s, a)) && Ordered(r, Next(r, s, a))
  {
    ShapeKept(r, s, a);
    SentAfterStep(r, s, a);
    forall w | 0 <= w < |r.jobs|
      ensures WorkerOrdered(r, Next(r, s, a), w)
    {
      WorkerOrderedKept(r, s, a, w);
    }
  }

  // What the shared state a reason looks at can do in a step.
  lemma SharedAfterStep(r: Read, s: State, a: Action)
    requires Enabled(r, s, a)
    ensures var t := Next(r, s, a);
            s.count <= t.count && s.reported <= t.reported && (s.cancel == Aborted ==> t.cancel == Aborted)
  {
  }

  lemma MovedJustified(r: Read, s: State, w: nat, op: Op, t: State)
    requires CanMove(r, s, w, op) && WorkerShape(r, w, s.workers[w]) && WorkerJustified(r, s, w, s.workers[w])
    requires WorkerShape(r, w, Moved(r, s, w, op))
    requires s.cancel == ShutDown ==> s.workers[w].pc.Returned?
    requires s.count <= t.count && s.reported <= t.reported && (s.cancel == Aborted ==> t.cancel == Aborted)
    requires op == Count ==> t.count == s.count + 1
    requires op == Report ==> t.reported > 0
    ensures WorkerJustified(r, t, w, Moved(r, s, w, op))
  {
  }

  lemma StaysJustified(r: Read, s: State, t: State, w: nat, v: Worker)
    requires w < |r.jobs| && WorkerShape(r, w, v) && WorkerJustified(r, s, w, v)
    requires s.count <= t.count && s.reported <= t.reported && (s.cancel == Aborted ==> t.cancel == Aborted)
    ensures WorkerJustified(r, t, w, v)
  {
  }

  lemma {:induction false} JustifiedKept(r: Read, s: State, a: Action)
    requires Shape(r, s) && ClosedInOrder(s) && Justified(r, s) && Enabled(r, s, a)
    ensures Shape(r, Next(r, s, a)) && Justified(r, Next(r, s, a))
  {
    ShapeKept(r, s, a);
    SharedAfterStep(r, s, a);
    var t := Next(r, s, a);
    forall w | 0 <= w < |r.jobs|
      ensures WorkerJustified(r, t, w, t.workers[w])
    {
      StaysJustified(r, s, t, w, s.workers[w]);
      if a.Move? && a.w == w {
        MovedShape(r, s, w, a.op);
        MovedJustified(r, s, w, a.op, t);
      }
    }
  }

  predicate Invariant(r: Read, s: State) {
    Shape(r, s) && ClosedInOrder(s) && WithinLimit(r, s) && Ordered(r, s) && Justified(r, s)
  }

  lemma InitiallyInvariant(r: Read)
    ensures Invariant(r, Init(r))
  {
    var idle := Worker(Unlaunched, 0);
    CountIfConstant(|r.jobs|, idle, IsLive);
    CountIfConstant(|r.jobs|, idle, IsSending);
    CountIfConstant(|r.jobs|, idle, ReachedLimit);
  }

  lemma StepKeepsInvariant(r: Read, s: State, a: Action)
    requires Invariant(r, s) && Enabled(r, s, a)
    ensures Invariant(r, Next(r, s, a))
  {
    ShapeKept(r, s, a);
    ClosedInOrderKept(r, s, a);
    WithinLimitKept(r, s, a);
    OrderedKept(r, s, a);
    JustifiedKept(r, s, a);
  }

  lemma {:induction false} ReachableIsInvariant(r: Read, actions: seq<Action>)
    requires After(r, actions).Some?
    ensures Invariant(r, After(r, actions).value)
  {
    if actions == [] {
      InitiallyInvariant(r);
    } else {
      var before := actions[..|actions| - 1];
      ReachableIsInvariant(r, before);
      StepKeepsInvariant(r, After(r, before).value, actions[|actions| - 1]);
    }
  }

  // In no run does anything get sent on or closed twice: the model panics there,
  // and no run panics. The channels close only once every worker was launched and
  // has returned.
  lemma ChannelsCloseOnceAndLast(r: Read, actions: seq<Action>)
    requires After(r, actions).Some?
    ensures var s := After(r, actions).value;
            && !s.panicked
            && (s.recordsClosed || s.errorsClosed ==> s.launched == |r.jobs| && AllReturned(s))
            && (s.errorsClosed ==> s.recordsClosed && s.cancel != Running)
  {
    ReachableIsInvariant(r, actions);
  }

  // The limit is shared, not strict: each worker may still send the one record it
  // had counted at or past the limit.
  lemma SentAtMost(r: Read, actions: seq<Action>)
    requires After(r, actions).Some?
    ensures var s := After(r, actions).value;
            && |s.Sent()| <= Max(r.details.limit - 1, 0) + |r.jobs|
            && (|r.jobs| == 1 && r.details.limit >= 1 ==> |s.Sent()| <= r.details.limit)
  {
    ReachableIsInvariant(r, actions);
    CountIfBounds(After(r, actions).value.workers, ReachedLimit);
  }

  // The channel's history interleaves the partitions' accepted messages, each in
  // feed order and without a gap from its reading start.
  lemma HistoryInterleavesPrefixes(r: Read, actions: seq<Action>)
    requires After(r, actions).Some?
    ensures var s := After(r, actions).value;
            && |s.workers| == |r.jobs|
            && (forall i :: 0 <= i < |s.Sent()| ==> s.Sent()[i].worker < |r.jobs|)
            && forall w :: 0 <= w < |r.jobs| ==>
                 && s.workers[w].pos <= |r.jobs[w].feed|
                 && IndexesOf(s.Sent(), w) == AcceptedBelow(r, w, s.workers[w].pos)
  {
    ReachableIsInvariant(r, actions);
    var s := After(r, actions).value;
    forall w | 0 <= w < |r.jobs|
      ensures s.workers[w].pos <= |r.jobs[w].feed| && IndexesOf(s.Sent(), w) == AcceptedBelow(r, w, s.workers[w].pos)
    {
      assert WorkerOrdered(r, s, w);
    }
  }

  // A broker hands out a partition's messages by increasing offset.
  predicate OffsetsIncrease(r: Read) {
    forall w, i, j :: 0 <= w < |r.jobs| && 0 <= i < j < |r.jobs[w].feed| ==>
      r.jobs[w].feed[i].offset < r.jobs[w].feed[j].offset
  }

  predicate DistinctPartitions(r: Read) {
    forall v, w :: 0 <= v < w < |r.jobs| ==> r.jobs[v].partition != r.jobs[w].partition
  }

  predicate Increasing(xs: seq<nat>) {
    forall i, j :: 0 <= i < j < |xs| ==> xs[i] < xs[j]
  }

  // AcceptedBelow lists exactly the accepted indexes, increasing.
  lemma {:induction false} AcceptedAreIncreasing(r: Read, w: nat, k: nat)
    requires w < |r.jobs| && k <= |r.jobs[w].feed|
    ensures Increasing(AcceptedBelow(r, w, k))
    ensures forall m: nat :: m in AcceptedBelow(r, w, k) <==> m < k && MessageAccepted(r, w, m)
  {
    if k > 0 {
      AcceptedAreIncreasing(r, w, k - 1);
      var xs := AcceptedBelow(r, w, k - 1);
      assert forall i :: 0 <= i < |xs| ==> xs[i] in xs;
    }
  }

  // Positions in the history come out in the same order as the worker's indexes.
  lemma {:induction false} HistoryOrder(ds: seq<Delivery>, i: nat, j: nat)
    requires i < j < |ds| && ds[i].worker == ds[j].worker
    requires Increasing(IndexesOf(ds, ds[i].worker))
    ensures ds[i].index < ds[j].index
  {
    var n := |ds| - 1;
    var w := ds[i].worker;
    var front, xs := IndexesOf(ds[..n], w), IndexesOf(ds, w);
    assert front <= xs;
    if j < n {
      assert Increasing(front) by {
        assert forall a :: 0 <= a < |front| ==> front[a] == xs[a];
      }
      HistoryOrder(ds[..n], i, j);
    } else {
      IndexIsThere(ds[..n], i);
      var a :| 0 <= a < |front| && front[a] == ds[i].index;
      assert xs == front + [ds[j].index];
      assert xs[a] < xs[|front|];
    }
  }

  lemma {:induction false} IndexIsThere(ds: seq<Delivery>, i: nat)
    requires i < |ds|
    ensures ds[i].index in IndexesOf(ds, ds[i].worker)
  {
    if i < |ds| - 1 {
      IndexIsThere(ds[..|ds| - 1], i);
    }
  }

  // A delivery points at a message its worker is done with.
  lemma DeliveryInRange(r: Read, s: State, i: nat)
    requires Invariant(r, s) && i < |s.Sent()|
    ensures s.Sent()[i].worker < |r.jobs|
    ensures var d := s.Sent()[i]; d.index < s.workers[d.worker].pos && MessageAccepted(r, d.worker, d.index)
  {
    var d := s.Sent()[i];
    assert WorkerOrdered(r, s, d.worker);
    IndexIsThere(s.Sent(), i);
    AcceptedAreIncreasing(r, d.worker, s.workers[d.worker].pos);
  }

  // The partition and offset of a delivered record.
  function RecordOf(r: Read, d: Delivery): (int, int)
    requires d.worker < |r.jobs| && d.index < |r.jobs[d.worker].feed|
  {
    (r.jobs[d.worker].partition, r.jobs[d.worker].feed[d.index].offset)
  }

  // No record of a partition is delivered twice, in any run.
  lemma NoDuplicates(r: Read, actions: seq<Action>, i: nat, j: nat)
    requires After(r, actions).Some? && OffsetsIncrease(r) && DistinctPartitions(r)
    requires i < j < |After(r, actions).value.Sent()|
    ensures var ds := After(r, actions).value.Sent();
            && ds[i].worker < |r.jobs| && ds[i].index < |r.jobs[ds[i].worker].feed|
            && ds[j].worker < |r.jobs| && ds[j].index < |r.jobs[ds[j].worker].feed|
            && RecordOf(r, ds[i]) != RecordOf(r, ds[j])
  {
    ReachableIsInvariant(r, actions);
    var s := After(r, actions).value;
    var d, e := s.Sent()[i], s.Sent()[j];
    DeliveryInRange(r, s, i);
    DeliveryInRange(r, s, j);
    if d.worker == e.worker {
      assert WorkerOrdered(r, s, d.worker);
      AcceptedAreIncreasing(r, d.worker, s.workers[d.worker].pos);
      HistoryOrder(s.Sent(), i, j);
    } else if d.worker < e.worker {
      assert r.jobs[d.worker].partition != r.jobs[e.worker].partition;
    } else {
      assert r.jobs[e.worker].partition != r.jobs[d.worker].partition;
    }
  }
}
