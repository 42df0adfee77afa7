// fetchOffsets of kadmin/record_reader.go: one goroutine a partition, results in a
// map under a mutex, failures in a buffered channel. The schedule is the order in
// which the goroutines publish; any order may happen.
module OffsetFetcher {
  import opened Options
  import opened ReadingWindows

  datatype Fetched = AllFetched(offsets: map<int, Offsets>) | FetchFailed(partition: int)

  // What the broker answers for a partition.
  datatype Broker = Broker(oldest: int -> Option<int>, newest: int -> Option<int>) {
    predicate Answers(p: int) {
      oldest(p).Some? && newest(p).Some?
    }
  }

  // blocked would say that a goroutine found the error channel full.
  method FetchOffsets(partitions: seq<int>, broker: Broker, schedule: seq<int>) returns (r: Fetched, blocked: bool)
    requires multiset(schedule) == multiset(partitions)
    ensures !blocked
    ensures r.FetchFailed? <==> exists p :: p in partitions && !broker.Answers(p)
    ensures r.FetchFailed? ==> r.partition in partitions && !broker.Answers(r.partition)
    ensures r.AllFetched? ==>
              r.offsets == map p | p in partitions :: Offsets(broker.oldest(p).value, broker.newest(p).value)
  {
    assert |schedule| == |multiset(schedule)| == |partitions|;
    assert forall p :: p in schedule <==> p in multiset(schedule);
    assert forall p :: p in partitions <==> p in multiset(partitions);
    var offsetsByPartition: map<int, Offsets> := map[];
    var errors: seq<int> := [];
    blocked := false;
    for k := 0 to |schedule|
      invariant !blocked && |errors| <= k
      invariant forall p <- errors :: p in partitions && !broker.Answers(p)
      invariant forall i :: 0 <= i < k && !broker.Answers(schedule[i]) ==> errors != []
      invariant forall p :: p in offsetsByPartition <==> p in schedule[..k] && broker.Answers(p)
      invariant forall p <- offsetsByPartition :: offsetsByPartition[p] == Offsets(broker.oldest(p).value, broker.newest(p).value)
    {
      var partition := schedule[k];
      assert schedule[..k + 1] == schedule[..k] + [partition];
      var startOffset := broker.oldest(partition);
      if startOffset.None? {
        blocked := blocked || |errors| >= |partitions|;
        errors := errors + [partition];
      } else {
        var endOffset := broker.newest(partition);
        if endOffset.None? {
          blocked := blocked || |errors| >= |partitions|;
          errors := errors + [partition];
        } else {
          offsetsByPartition := offsetsByPartition[partition := Offsets(startOffset.value, endOffset.value)];
        }
      }
    }
    assert schedule[..|schedule|] == schedule;
    if |errors| > 0 {
      r := FetchFailed(errors[0]);
      assert errors[0] in errors;
    } else {
      forall p
        ensures p in partitions <==> p in offsetsByPartition
      {
        assert p in partitions <==> p in multiset(partitions);
        assert p in schedule <==> p in multiset(schedule);
      }
      r := AllFetched(offsetsByPartition);
    }
  }
}
