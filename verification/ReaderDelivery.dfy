// What a read delivers: the protocol's guarantees composed with the window
// arithmetic, for the jobs doReadRecords starts.
module ReaderDelivery {
  import opened Options
  import opened Sequences
  import opened ReadingWindows
  import opened RecordFilters
  import opened Counting
  import opened RecordReader
  import opened ReaderSafety
  import opened ReaderTermination

  // The partitions the launching loop starts a worker for: those with records, all
  // of them when reading live.
  function Selected(startPoint: StartPoint, ps: seq<int>, offsets: map<int, Offsets>): (sel: seq<int>)
    requires forall p <- ps :: p in offsets
    ensures forall p <- sel :: p in ps
  {
    if ps == [] then []
    else
      var p := ps[|ps| - 1];
      Selected(startPoint, ps[..|ps| - 1], offsets) +
      (if offsets[p].end != offsets[p].start || startPoint == Live then [p] else [])
  }

  lemma {:induction false} SelectedOnes(startPoint: StartPoint, ps: seq<int>, offsets: map<int, Offsets>)
    requires forall p <- ps :: p in offsets
    ensures var sel := Selected(startPoint, ps, offsets);
            && |sel| <= |ps|
            && (forall p :: p in sel <==> p in ps && (offsets[p].end != offsets[p].start || startPoint == Live))
            && (Distinct(ps) ==> Distinct(sel))
  {
    if ps != [] {
      var front := ps[..|ps| - 1];
      SelectedOnes(startPoint, front, offsets);
      assert ps == front + [ps[|ps| - 1]];
      if Distinct(ps) {
        assert forall i :: 0 <= i < |front| ==> front[i] == ps[i];
        assert ps[|ps| - 1] !in front;
      }
    }
  }

  // The partition's log has no gap from the reading start on, and the feed reaches
  // the window's end.
  predicate Dense(j: Job) {
    && j.window.Size() <= |j.feed|
    && forall i :: 0 <= i < |j.feed| ==> j.feed[i].offset == j.window.start + i
  }

  // On a dense log, with a window to read, the first message that stops the worker
  // is the window's last one. It does so exactly when the read is for the most
  // recent records or that last record is accepted; otherwise nothing stops it.
  lemma StopsAtWindowEndIff(r: Read, w: nat)
    requires w < |r.jobs| && Dense(r.jobs[w]) && r.jobs[w].window.Size() >= 1 && r.details.startPoint != Live
    ensures var last := r.jobs[w].window.Size() - 1;
            && NoStopBelow(r, w, last)
            && (Stops(r, w, last) <==> r.details.startPoint == MostRecent || MessageAccepted(r, w, last))
            && (HasStop(r, w) <==> r.details.startPoint == MostRecent || MessageAccepted(r, w, last))
  {
  }

  predicate EndsAtWindow(r: Read, w: nat)
    requires w < |r.jobs|
  {
    && 1 <= r.jobs[w].window.Size() <= |r.jobs[w].feed|
    && Stops(r, w, r.jobs[w].window.Size() - 1)
    && NoStopBelow(r, w, r.jobs[w].window.Size() - 1)
  }

  // No state of any run has delivered anything outside a window such a worker reads.
  lemma {:induction false} StaysInWindow(r: Read, actions: seq<Action>, i: nat)
    requires After(r, actions).Some? && i < |After(r, actions).value.Sent()|
    requires forall w :: 0 <= w < |r.jobs| ==> Dense(r.jobs[w]) && EndsAtWindow(r, w)
    ensures var d := After(r, actions).value.Sent()[i];
            && d.worker < |r.jobs| && d.index < |r.jobs[d.worker].feed|
            && var j := r.jobs[d.worker];
               j.window.start <= j.feed[d.index].offset <= j.window.end
  {
    ReachableIsInvariant(r, actions);
    var s := After(r, actions).value;
    DeliveryInRange(r, s, i);
    PositionInWindow(r, s, s.Sent()[i].worker);
  }

  lemma PositionInWindow(r: Read, s: State, w: nat)
    requires Invariant(r, s) && w < |r.jobs| && EndsAtWindow(r, w)
    ensures s.workers[w].pos <= r.jobs[w].window.Size()
    ensures s.workers[w].pc == Returned(AtEnd) ==> s.workers[w].pos == r.jobs[w].window.Size()
  {
  }

  // Nobody cancelled the read and the broker reported no error.
  predicate Undisturbed(s: State) {
    s.cancel != Aborted && s.reported == 0
  }

  // An undisturbed read that has ended delivered the limit, or from every worker
  // exactly the accepted messages up to the one that stopped it.
  lemma FullReadDelivers(r: Read, actions: seq<Action>, w: nat)
    requires After(r, actions).Some? && w < |r.jobs|
    requires var s := After(r, actions).value; AllReturned(s) && Undisturbed(s) && |s.Sent()| < r.details.limit
    ensures var s := After(r, actions).value;
            && |s.workers| == |r.jobs| && 0 < s.workers[w].pos <= |r.jobs[w].feed|
            && Stops(r, w, s.workers[w].pos - 1) && NoStopBelow(r, w, s.workers[w].pos - 1)
            && IndexesOf(s.Sent(), w) == AcceptedBelow(r, w, s.workers[w].pos)
  {
    ReachableIsInvariant(r, actions);
    var s := After(r, actions).value;
    CountIfBounds(s.workers, IsSending);
    assert WorkerJustified(r, s, w, s.workers[w]);
    assert WorkerOrdered(r, s, w);
  }

  // The read doReadRecords performs: one job a selected partition.
  function ReadOf(details: ReadDetails, offsets: map<int, Offsets>, feeds: map<int, seq<Message>>): Read
    requires forall p <- details.partitions :: p in offsets && p in feeds
  {
    var sel := Selected(details.startPoint, details.partitions, offsets);
    Read(details,
         seq(|sel|, i requires 0 <= i < |sel| =>
           var p := sel[i];
           Job(p, DetermineReadingOffsets(details.startPoint, details.limit, |details.partitions|, offsets[p]), feeds[p])))
  }

  // Distinct requested partitions make distinct jobs, so no record comes twice.
  lemma DistinctRequestsAreDistinctJobs(details: ReadDetails, offsets: map<int, Offsets>, feeds: map<int, seq<Message>>)
    requires forall p <- details.partitions :: p in offsets && p in feeds
    requires Distinct(details.partitions)
    ensures DistinctPartitions(ReadOf(details, offsets, feeds))
    ensures |ReadOf(details, offsets, feeds).jobs| <= |details.partitions|
  {
    SelectedOnes(details.startPoint, details.partitions, offsets);
  }

  predicate KnowsItsPartitions(details: ReadDetails, offsets: map<int, Offsets>, feeds: map<int, seq<Message>>) {
    details.partitions != [] && forall p <- details.partitions :: p in offsets && p in feeds
  }

  // A read whose every worker has a window, over a dense log that holds it.
  predicate DenseRead(details: ReadDetails, offsets: map<int, Offsets>, feeds: map<int, seq<Message>>) {
    && details.startPoint != Live && KnowsItsPartitions(details, offsets, feeds)
    && forall j <- ReadOf(details, offsets, feeds).jobs :: Dense(j) && 0 <= j.window.start <= j.window.end
  }

  // When that is so for dense logs that still hold what oldest says, in terms of what
  // was asked for and what the broker reported.
  lemma EveryWorkerHasAWindowIff(details: ReadDetails, offsets: map<int, Offsets>, feeds: map<int, seq<Message>>, oldest: map<int, int>)
    requires details.startPoint != Live && KnowsItsPartitions(details, offsets, feeds)
    requires forall p <- details.partitions :: p in oldest && Reported(offsets[p], oldest[p])
    ensures var r := ReadOf(details, offsets, feeds);
            && (forall j <- r.jobs :: j.partition in details.partitions)
            && ((forall j <- r.jobs :: oldest[j.partition] <= j.window.start <= j.window.end <= offsets[j.partition].Newest()) <==>
                  forall p <- details.partitions :: offsets[p].start != offsets[p].end ==>
                    HasWindow(details.startPoint, details.limit, |details.partitions|, offsets[p], oldest[p]))
  {
    var r := ReadOf(details, offsets, feeds);
    var sel := Selected(details.startPoint, details.partitions, offsets);
    SelectedOnes(details.startPoint, details.partitions, offsets);
    forall w | 0 <= w < |sel|
      ensures sel[w] in sel && r.jobs[w] in r.jobs && r.jobs[w].partition == sel[w]
      ensures var j := r.jobs[w];
              oldest[sel[w]] <= j.window.start <= j.window.end <= offsets[sel[w]].Newest() <==>
                HasWindow(details.startPoint, details.limit, |details.partitions|, offsets[sel[w]], oldest[sel[w]])
    {
      WindowNonEmptyIff(details.startPoint, details.limit, |details.partitions|, offsets[sel[w]], oldest[sel[w]]);
    }
  }

  // What makes a worker look at its window's end: the read is for the most recent
  // records, or the window's last record passes the filter.
  predicate SeesItsEnd(r: Read, w: nat)
    requires w < |r.jobs|
  {
    || r.details.startPoint == MostRecent
    || (1 <= r.jobs[w].window.Size() <= |r.jobs[w].feed| && MessageAccepted(r, w, r.jobs[w].window.Size() - 1))
  }

  predicate EveryWorkerSeesItsEnd(r: Read) {
    forall w :: 0 <= w < |r.jobs| ==> SeesItsEnd(r, w)
  }

  // Which workers of such a read stop at their window's end; the others never stop
  // by themselves.
  lemma EveryWorkerEndsAtItsWindow(details: ReadDetails, offsets: map<int, Offsets>, feeds: map<int, seq<Message>>)
    requires DenseRead(details, offsets, feeds)
    ensures var r := ReadOf(details, offsets, feeds);
            && |r.jobs| <= r.Capacity()
            && forall w :: 0 <= w < |r.jobs| ==>
                 && (EndsAtWindow(r, w) <==> SeesItsEnd(r, w))
                 && (HasStop(r, w) <==> SeesItsEnd(r, w))
  {
    var r := ReadOf(details, offsets, feeds);
    SelectedOnes(details.startPoint, details.partitions, offsets);
    forall w | 0 <= w < |r.jobs|
      ensures (EndsAtWindow(r, w) <==> SeesItsEnd(r, w)) && (HasStop(r, w) <==> SeesItsEnd(r, w))
    {
      assert r.jobs[w] in r.jobs;
      StopsAtWindowEndIff(r, w);
    }
  }

  // Every worker does when all messages pass the filter: without one, with one that
  // was never filled in, or with one that happens to match.
  lemma AcceptingReadsSeeTheirEnds(details: ReadDetails, offsets: map<int, Offsets>, feeds: map<int, seq<Message>>)
    requires DenseRead(details, offsets, feeds)
    requires AcceptsEverything(details.filter) || forall p <- details.partitions :: forall m <- feeds[p] :: Accepts(details.filter, m)
    ensures EveryWorkerSeesItsEnd(ReadOf(details, offsets, feeds))
  {
    var r := ReadOf(details, offsets, feeds);
    var sel := Selected(details.startPoint, details.partitions, offsets);
    AcceptsEverythingIff(details.filter);
    forall w | 0 <= w < |r.jobs|
      ensures SeesItsEnd(r, w)
    {
      assert r.jobs[w] in r.jobs;
      var last := r.jobs[w].feed[r.jobs[w].window.Size() - 1];
      assert sel[w] in sel && last in feeds[sel[w]];
    }
  }

  // A run after which the read takes no further step of its own.
  ghost predicate IsComplete(r: Read, actions: seq<Action>) {
    After(r, actions).Some? && forall a :: Unforced(a) ==> !Enabled(r, After(r, actions).value, a)
  }

  // Every worker's whole window was delivered: its accepted records, in order.
  predicate DeliversWindow(r: Read, ds: seq<Delivery>, w: nat)
    requires w < |r.jobs|
  {
    && 0 <= r.jobs[w].window.Size() <= |r.jobs[w].feed|
    && IndexesOf(ds, w) == AcceptedBelow(r, w, r.jobs[w].window.Size())
  }

  lemma WindowIsDelivered(r: Read, actions: seq<Action>, w: nat)
    requires After(r, actions).Some? && w < |r.jobs| && EndsAtWindow(r, w)
    requires var s := After(r, actions).value; AllReturned(s) && Undisturbed(s) && |s.Sent()| < r.details.limit
    ensures DeliversWindow(r, After(r, actions).value.Sent(), w)
  {
    FullReadDelivers(r, actions, w);
    FirstStopIsUnique(r, w, After(r, actions).value.workers[w].pos - 1, r.jobs[w].window.Size() - 1);
  }

  // The main statement: left alone, a read whose workers see their ends comes to its
  // end, with its channels closed and everything received, and if nothing disturbed it
  // and it stayed below the limit, the receiver has exactly the accepted records of
  // every window.
  lemma ReadDeliversTheWindows(details: ReadDetails, offsets: map<int, Offsets>, feeds: map<int, seq<Message>>, actions: seq<Action>)
    requires DenseRead(details, offsets, feeds) && EveryWorkerSeesItsEnd(ReadOf(details, offsets, feeds))
    requires IsComplete(ReadOf(details, offsets, feeds), actions)
    ensures var r := ReadOf(details, offsets, feeds);
            var s := After(r, actions).value;
            && Ended(s)
            && (Undisturbed(s) && |s.received| < details.limit ==>
                  forall w :: 0 <= w < |r.jobs| ==> DeliversWindow(r, s.received, w))
  {
    var r := ReadOf(details, offsets, feeds);
    var s := After(r, actions).value;
    EveryWorkerEndsAtItsWindow(details, offsets, feeds);
    StuckRunsHaveEnded(r, actions);
    if Undisturbed(s) && |s.received| < details.limit {
      forall w | 0 <= w < |r.jobs|
        ensures DeliversWindow(r, s.received, w)
      {
        WindowIsDelivered(r, actions, w);
      }
    }
  }

  // All messages of a worker come from beyond its window, as they do when the
  // consumer was told to start where nothing is yet. Only the most recent records
  // with a filter ever stop at such a message, and only when they drop it.
  lemma BeyondTheWindowStopsIff(r: Read, w: nat)
    requires w < |r.jobs| && r.details.startPoint != Live && forall m <- r.jobs[w].feed :: m.offset > r.jobs[w].window.end
    ensures HasStop(r, w) <==>
              r.details.startPoint == MostRecent && exists i :: 0 <= i < |r.jobs[w].feed| && !MessageAccepted(r, w, i)
  {
    var feed := r.jobs[w].feed;
    forall i | 0 <= i < |feed|
      ensures Stops(r, w, i) <==> r.details.startPoint == MostRecent && !MessageAccepted(r, w, i)
    {
      assert feed[i] in feed;
    }
  }

  // Every worker either has a window, over a dense log, or only ever gets messages
  // from beyond its window's end: because the window is empty, or because its consumer
  // was started where nothing is yet.
  predicate FedRead(details: ReadDetails, offsets: map<int, Offsets>, feeds: map<int, seq<Message>>) {
    && details.startPoint != Live && KnowsItsPartitions(details, offsets, feeds)
    && forall j <- ReadOf(details, offsets, feeds).jobs ::
         || (Dense(j) && j.window.start <= j.window.end)
         || (forall m <- j.feed :: m.offset > j.window.end)
  }

  // What stops a worker of such a read.
  predicate StopsByItself(r: Read, w: nat)
    requires w < |r.jobs|
  {
    var j := r.jobs[w];
    if Dense(j) && j.window.start <= j.window.end then SeesItsEnd(r, w)
    else r.details.startPoint == MostRecent && exists i :: 0 <= i < |j.feed| && !MessageAccepted(r, w, i)
  }

  lemma StopsByItselfIff(r: Read, w: nat)
    requires w < |r.jobs| && r.details.startPoint != Live
    requires var j := r.jobs[w]; (Dense(j) && j.window.start <= j.window.end) || forall m <- j.feed :: m.offset > j.window.end
    ensures HasStop(r, w) <==> StopsByItself(r, w)
  {
    var j := r.jobs[w];
    if Dense(j) && j.window.start <= j.window.end {
      StopsAtWindowEndIff(r, w);
    } else {
      BeyondTheWindowStopsIff(r, w);
    }
  }

  // For every limit and start point but live: an undisturbed run that took all its
  // steps below the limit has ended if and only if every worker stops by itself.
  // Otherwise the receiver waits.
  lemma ReadEndsIff(details: ReadDetails, offsets: map<int, Offsets>, feeds: map<int, seq<Message>>, actions: seq<Action>)
    requires FedRead(details, offsets, feeds) && IsComplete(ReadOf(details, offsets, feeds), actions)
    requires var s := After(ReadOf(details, offsets, feeds), actions).value; Undisturbed(s) && |s.received| < details.limit
    ensures var r := ReadOf(details, offsets, feeds);
            Ended(After(r, actions).value) <==> forall w :: 0 <= w < |r.jobs| ==> StopsByItself(r, w)
  {
    var r := ReadOf(details, offsets, feeds);
    SelectedOnes(details.startPoint, details.partitions, offsets);
    forall w | 0 <= w < |r.jobs|
      ensures HasStop(r, w) <==> StopsByItself(r, w)
    {
      assert r.jobs[w] in r.jobs;
      StopsByItselfIff(r, w);
    }
    if forall w :: 0 <= w < |r.jobs| ==> StopsByItself(r, w) {
      StuckRunsHaveEnded(r, actions);
    } else {
      var w: nat :| w < |r.jobs| && !StopsByItself(r, w);
      NoStopNoEnd(r, actions, w);
    }
  }

  // In particular from the beginning with a limit below the number of partitions: a
  // worker whose partition holds two records or more is given an empty window and never
  // stops by itself.
  lemma ShareOfNothingNeverStops(r: Read, w: nat, partitions: nat, o: Offsets)
    requires w < |r.jobs| && r.details.startPoint == Beginning && partitions > 0 && r.details.limit < partitions && 0 <= o.start && o.start + 2 <= o.end
    requires r.jobs[w].window == DetermineReadingOffsets(Beginning, r.details.limit, partitions, o)
    requires forall m <- r.jobs[w].feed :: m.offset >= r.jobs[w].window.start
    ensures r.jobs[w].window.start == o.start && r.jobs[w].window.end < o.start && !HasStop(r, w)
  {
    ShareIff(r.details.limit, partitions);
    BeyondTheWindowStopsIff(r, w);
  }

  lemma NoStopNoEnd(r: Read, actions: seq<Action>, w: nat)
    requires After(r, actions).Some? && w < |r.jobs| && !HasStop(r, w)
    requires var s := After(r, actions).value; Undisturbed(s) && |s.received| < r.details.limit
    ensures !Ended(After(r, actions).value)
  {
    ReachableIsInvariant(r, actions);
    WithoutStopNeverCloses(r, actions, w);
    var s := After(r, actions).value;
    CountIfBounds(s.workers, IsSending);
  }

  // So a partition without records for the requested start that holds no more than
  // the share keeps the read open, whatever is still written to it, unless the read is
  // cancelled, fails or reaches its limit.
  lemma NothingFoundWaits(details: ReadDetails, offsets: map<int, Offsets>, feeds: map<int, seq<Message>>, actions: seq<Action>, w: nat)
    requires details.partitions != [] && details.startPoint != Live && forall p <- details.partitions :: p in offsets && p in feeds
    requires var r := ReadOf(details, offsets, feeds);
             && After(r, actions).Some? && w < |r.jobs| && r.jobs[w].partition in offsets
             && var o := offsets[r.jobs[w].partition];
                && StartsAtSentinel(details.startPoint, details.limit, |details.partitions|, o)
                && forall m <- r.jobs[w].feed :: m.offset >= o.end && (details.startPoint == MostRecent ==> Accepts(details.filter, m))
    ensures var r := ReadOf(details, offsets, feeds);
            var s := After(r, actions).value;
            && r.jobs[w].window.start == -1
            && (s.recordsClosed ==> s.cancel == Aborted || s.reported > 0 || s.count >= details.limit)
  {
    var r := ReadOf(details, offsets, feeds);
    var o := offsets[r.jobs[w].partition];
    assert r.jobs[w].window == DetermineReadingOffsets(details.startPoint, details.limit, |details.partitions|, o);
    SentinelWindow(details.startPoint, details.limit, |details.partitions|, o);
    BeyondTheWindowStopsIff(r, w);
    WithoutStopNeverCloses(r, actions, w);
  }

  lemma SentinelWindow(startPoint: StartPoint, limit: int, partitions: nat, o: Offsets)
    requires partitions > 0 && startPoint != Live && StartsAtSentinel(startPoint, limit, partitions, o)
    ensures var w := DetermineReadingOffsets(startPoint, limit, partitions, o); w.start == -1 && w.end < o.end
  {
  }

  lemma FirstStopIsUnique(r: Read, w: nat, i: nat, j: nat)
    requires w < |r.jobs| && i < |r.jobs[w].feed| && j < |r.jobs[w].feed|
    requires Stops(r, w, i) && NoStopBelow(r, w, i) && Stops(r, w, j) && NoStopBelow(r, w, j)
    ensures i == j
  {
  }

  // Live: every requested partition is read, empty or not, from where its log ended.
  lemma {:induction false} LiveSelectsAll(ps: seq<int>, offsets: map<int, Offsets>)
    requires forall p <- ps :: p in offsets
    ensures Selected(Live, ps, offsets) == ps
  {
    if ps != [] {
      LiveSelectsAll(ps[..|ps| - 1], offsets);
    }
  }

  lemma LiveStartsAtTheEnd(details: ReadDetails, offsets: map<int, Offsets>, feeds: map<int, seq<Message>>)
    requires details.startPoint == Live && KnowsItsPartitions(details, offsets, feeds)
    ensures var r := ReadOf(details, offsets, feeds);
            && |r.jobs| == |details.partitions|
            && forall w :: 0 <= w < |r.jobs| ==>
                 && r.jobs[w].partition == details.partitions[w] && r.jobs[w].feed == feeds[details.partitions[w]]
                 && r.jobs[w].window.start == offsets[details.partitions[w]].end
  {
    LiveSelectsAll(details.partitions, offsets);
  }

  // So no run of a live read replays a record that was there before it.
  lemma LiveDeliversOnlyNewRecords(details: ReadDetails, offsets: map<int, Offsets>, feeds: map<int, seq<Message>>,
                                   actions: seq<Action>, i: nat)
    requires details.startPoint == Live && KnowsItsPartitions(details, offsets, feeds)
    requires forall j <- ReadOf(details, offsets, feeds).jobs :: forall k :: 0 <= k < |j.feed| ==> j.feed[k].offset == j.window.start + k
    requires var r := ReadOf(details, offsets, feeds); After(r, actions).Some? && i < |After(r, actions).value.Sent()|
    ensures var r := ReadOf(details, offsets, feeds);
            var d := After(r, actions).value.Sent()[i];
            && d.worker < |details.partitions| && d.worker < |r.jobs| && d.index < |r.jobs[d.worker].feed|
            && r.jobs[d.worker].feed[d.index].offset >= offsets[details.partitions[d.worker]].end
  {
    var r := ReadOf(details, offsets, feeds);
    LiveStartsAtTheEnd(details, offsets, feeds);
    ReachableIsInvariant(r, actions);
    DeliveryInRange(r, After(r, actions).value, i);
    var d := After(r, actions).value.Sent()[i];
    assert r.jobs[d.worker] in r.jobs;
  }

  // And it goes on until it is cancelled, fails or reaches its limit, with any filter.
  lemma LiveNeverStops(r: Read, actions: seq<Action>, w: nat)
    requires r.details.startPoint == Live && w < |r.jobs| && After(r, actions).Some?
    ensures !HasStop(r, w)
    ensures var s := After(r, actions).value;
            s.recordsClosed ==> s.cancel == Aborted || s.reported > 0 || s.count >= r.details.limit
  {
    WithoutStopNeverCloses(r, actions, w);
  }

  // The offsets of a history, in order.
  function OffsetsOf(r: Read, ds: seq<Delivery>): seq<int>
    requires forall d <- ds :: d.worker < |r.jobs| && d.index < |r.jobs[d.worker].feed|
  {
    seq(|ds|, i requires 0 <= i < |ds| => assert ds[i] in ds; r.jobs[ds[i].worker].feed[ds[i].index].offset)
  }

  predicate AcceptsItsFeed(r: Read, w: nat)
    requires w < |r.jobs|
  {
    forall i :: 0 <= i < |r.jobs[w].feed| ==> MessageAccepted(r, w, i)
  }

  lemma {:induction false} AllAcceptedBelow(r: Read, w: nat, k: nat)
    requires w < |r.jobs| && k <= |r.jobs[w].feed| && AcceptsItsFeed(r, w)
    ensures AcceptedBelow(r, w, k) == seq(k, i => i)
  {
    if k > 0 {
      AllAcceptedBelow(r, w, k - 1);
    }
  }

  lemma {:induction false} OnlyWorker(ds: seq<Delivery>)
    requires forall i :: 0 <= i < |ds| ==> ds[i].worker == 0
    ensures IndexesOf(ds, 0) == seq(|ds|, i requires 0 <= i < |ds| => ds[i].index)
  {
    if ds != [] {
      OnlyWorker(ds[..|ds| - 1]);
    }
  }

  // The read of a single requested partition.
  function SoleRead(details: ReadDetails, o: Offsets, feed: seq<Message>): Read
    requires |details.partitions| == 1
  {
    Read(details, [Job(details.partitions[0], DetermineReadingOffsets(details.startPoint, details.limit, 1, o), feed)])
  }

  // It is the read doReadRecords performs.
  lemma SoleReadIsReadOf(details: ReadDetails, o: Offsets, feed: seq<Message>)
    requires |details.partitions| == 1 && (o.start != o.end || details.startPoint == Live)
    ensures var p := details.partitions[0];
            ReadOf(details, map[p := o], map[p := feed]) == SoleRead(details, o, feed)
  {
    var p := details.partitions[0];
    assert details.partitions[..0] == [];
    assert Selected(details.startPoint, details.partitions, map[p := o]) == [p];
  }

  predicate EndedUndisturbed(r: Read, actions: seq<Action>) {
    After(r, actions).Some? && AllReturned(After(r, actions).value) && Undisturbed(After(r, actions).value)
  }

  function FirstOffset(details: ReadDetails, o: Offsets): int {
    if details.startPoint == Beginning then o.start else Max(o.end - 1 - details.limit, o.start)
  }

  // A read of one partition whose filter, if any, lets everything through delivers the
  // limit or all there is, as consecutive offsets; the most recent records start one too early, so that the
  // newest record is among them exactly when the limit covers everything.
  lemma OnePartitionRead(details: ReadDetails, o: Offsets, feed: seq<Message>, actions: seq<Action>)
    requires |details.partitions| == 1 && details.limit >= 1 && details.startPoint != Live
    requires AcceptsEverything(details.filter) || forall m <- feed :: Accepts(details.filter, m)
    requires 0 <= o.start < o.end
    requires var r := SoleRead(details, o, feed); Dense(r.jobs[0]) && EndedUndisturbed(r, actions)
    ensures var r := SoleRead(details, o, feed);
            var ds := After(r, actions).value.Sent();
            && (forall d <- ds :: d.worker < |r.jobs| && d.index < |r.jobs[d.worker].feed|)
            && OffsetsOf(r, ds) == seq(Min(details.limit, o.end - o.start), i => FirstOffset(details, o) + i)
            && (o.Newest() in OffsetsOf(r, ds) <==> o.end - o.start <= details.limit)
  {
    var r := SoleRead(details, o, feed);
    var ds := After(r, actions).value.Sent();
    AcceptsEverythingIff(details.filter);
    assert forall i :: 0 <= i < |feed| ==> feed[i] in feed;
    WindowOfAPartition(details.startPoint, details.limit, 1, o);
    StopsAtWindowEndIff(r, 0);
    OnePartitionHistory(r, actions);
    SoleWindow(details, o);
    HeadOffsets(r, ds);
    NewestAmong(FirstOffset(details, o), Min(details.limit, o.end - o.start), o.Newest());
  }

  // The head of a dense feed, as offsets.
  lemma HeadOffsets(r: Read, ds: seq<Delivery>)
    requires |r.jobs| == 1 && Dense(r.jobs[0]) && |ds| <= |r.jobs[0].feed|
    requires forall i :: 0 <= i < |ds| ==> ds[i] == Delivery(0, i)
    ensures forall d <- ds :: d.worker < |r.jobs| && d.index < |r.jobs[d.worker].feed|
    ensures OffsetsOf(r, ds) == seq(|ds|, i => r.jobs[0].window.start + i)
  {
  }

  lemma NewestAmong(first: int, n: nat, newest: int)
    ensures newest in seq(n, i => first + i) <==> first <= newest < first + n
  {
    var offs := seq(n, i => first + i);
    if first <= newest < first + n {
      assert offs[newest - first] == newest;
    }
  }

  lemma SoleWindow(details: ReadDetails, o: Offsets)
    requires details.limit >= 1 && details.startPoint != Live && 0 <= o.start < o.end
    ensures var window := DetermineReadingOffsets(details.startPoint, details.limit, 1, o);
            && window.start == FirstOffset(details, o)
            && Min(details.limit, window.Size()) == Min(details.limit, o.end - o.start)
  {
  }

  // With one worker and nothing filtered out, the history is the head of its feed.
  lemma OnePartitionHistory(r: Read, actions: seq<Action>)
    requires |r.jobs| == 1 && r.details.limit >= 1 && AcceptsItsFeed(r, 0)
    requires EndsAtWindow(r, 0) && EndedUndisturbed(r, actions)
    ensures var ds := After(r, actions).value.Sent();
            && |ds| == Min(r.details.limit, r.jobs[0].window.Size())
            && forall i :: 0 <= i < |ds| ==> ds[i] == Delivery(0, i)
  {
    ReachableIsInvariant(r, actions);
    SentAtMost(r, actions);
    var s := After(r, actions).value;
    OnePartitionOrder(r, s);
    PositionInWindow(r, s, 0);
    CountIfBounds(s.workers, IsSending);
    assert WorkerJustified(r, s, 0, s.workers[0]);
  }

  lemma OnePartitionOrder(r: Read, s: State)
    requires |r.jobs| == 1 && AcceptsItsFeed(r, 0) && Invariant(r, s)
    ensures |s.Sent()| == s.workers[0].pos
    ensures forall i :: 0 <= i < |s.Sent()| ==> s.Sent()[i] == Delivery(0, i)
  {
    assert WorkerOrdered(r, s, 0);
    OnlyWorker(s.Sent());
    AllAcceptedBelow(r, 0, s.workers[0].pos);
    forall i | 0 <= i < |s.Sent()|
      ensures s.Sent()[i] == Delivery(0, i)
    {
      assert IndexesOf(s.Sent(), 0)[i] == i;
    }
  }
}
