// The offsets a worker reads: kadmin/record_reader.go, determineReadingOffsets
// and its two helpers.
module ReadingWindows {

  datatype StartPoint = Beginning | MostRecent | Today | Yesterday | Last7Days | Live

  // What the broker reports for a partition: the first offset matching the
  // start point and the next offset to be written.
  datatype Offsets = Offsets(start: int, end: int) {
    function Newest(): int { end - 1 }
  }

  // Both ends are inclusive.
  datatype ReadingOffsets = ReadingOffsets(start: int, end: int) {
    function Size(): int { end - start + 1 }
  }

  // The share of the limit one partition gets. The source divides in float64 and
  // truncates toward zero; for limits below 2^53 that is exact integer division.
  function RecordsPerPartition(limit: int, partitions: nat): int
    requires partitions > 0
  {
    if limit >= 0 then limit / partitions else -((-limit) / partitions)
  }

  function MostRecentOffsets(o: Offsets, share: int): ReadingOffsets {
    var start := o.Newest() - share;
    if start < 0 || start < o.start
    then ReadingOffsets(o.start, o.Newest())
    else ReadingOffsets(start, o.Newest())
  }

  function OffsetsFromBeginning(o: Offsets, share: int): ReadingOffsets {
    if o.start + share < o.Newest()
    then ReadingOffsets(o.start, o.start + share - 1)
    else ReadingOffsets(o.start, o.Newest())
  }

  function DetermineReadingOffsets(startPoint: StartPoint, limit: int, partitions: nat, o: Offsets): ReadingOffsets
    requires partitions > 0
  {
    if startPoint == Live then ReadingOffsets(o.end, -1)
    else
      var share := RecordsPerPartition(limit, partitions);
      if startPoint == Beginning then OffsetsFromBeginning(o, share) else MostRecentOffsets(o, share)
  }

  function Min(a: int, b: int): int { if a <= b then a else b }
  function Max(a: int, b: int): int { if a >= b then a else b }

  // The offsets a partition consumer can be started from, on a log that still holds
  // those from oldest to end - 1: its "newest" and "oldest", or any of these and end.
  predicate ConsumerTakes(start: int, oldest: int, end: int) {
    start == -1 || start == -2 || oldest <= start <= end
  }

  // Nothing was found, and the newest share + 1 records would reach back past offset 0:
  // the -1 itself is the start, the consumer's "newest", where nothing is yet.
  predicate StartsAtSentinel(startPoint: StartPoint, limit: int, partitions: nat, o: Offsets)
    requires partitions > 0
  {
    o.start == -1 && (startPoint == Beginning || RecordsPerPartition(limit, partitions) > o.Newest())
  }

  // From the beginning a share of nothing leaves only single-record partitions
  // readable, otherwise it still leaves the newest record; where nothing was found the
  // log must hold the newest share + 1 records.
  predicate HasWindow(startPoint: StartPoint, limit: int, partitions: nat, o: Offsets, oldest: int)
    requires partitions > 0
  {
    && limit + partitions > 0
    && (o.start == -1 ==> startPoint != Beginning && RecordsPerPartition(limit, partitions) <= o.Newest() - oldest)
    && (startPoint == Beginning ==> limit >= partitions || o.end == o.start + 1)
  }

  // What the broker may report for a log that holds the offsets from oldest on.
  predicate Reported(o: Offsets, oldest: int) {
    0 <= oldest <= o.end && o.start <= o.end && (o.start == -1 || oldest <= o.start)
  }

  // The share is not negative, or at least one, exactly for these limits.
  lemma ShareIff(limit: int, partitions: nat)
    requires partitions > 0
    ensures var share := RecordsPerPartition(limit, partitions);
            && (share >= 0 <==> limit + partitions > 0)
            && (share >= 1 <==> limit >= partitions)
            && (share >= 0 ==> partitions * share <= Max(limit, 0))
            && (limit >= 0 ==> partitions * share <= limit < partitions * share + partitions)
  {
    if limit >= 0 {
      Division(limit, partitions);
    } else {
      Division(-limit, partitions);
    }
  }

  // Integer division, as bounds the solver can use.
  lemma Division(a: nat, b: nat)
    requires b > 0
    ensures b * (a / b) <= a < b * (a / b) + b
    ensures a / b >= 0 && (a / b >= 1 <==> a >= b)
  {
  }

  lemma MulMonotone(a: int, b: int, c: nat)
    requires a <= b
    ensures a * c <= b * c
  {
  }

  // Exactly when a partition that is not empty is given a window, inside what its log
  // still holds, for every limit.
  lemma {:induction false} WindowNonEmptyIff(startPoint: StartPoint, limit: int, partitions: nat, o: Offsets, oldest: int)
    requires partitions > 0 && startPoint != Live && Reported(o, oldest) && o.start != o.end
    ensures var w := DetermineReadingOffsets(startPoint, limit, partitions, o);
            oldest <= w.start <= w.end <= o.Newest() <==> HasWindow(startPoint, limit, partitions, o, oldest)
  {
    ShareIff(limit, partitions);
  }

  // Exactly when the consumer takes the start offset. It refuses one that lies in the
  // part of the log that is no longer held.
  lemma StartIsTakenIff(startPoint: StartPoint, limit: int, partitions: nat, o: Offsets, oldest: int)
    requires partitions > 0 && Reported(o, oldest)
    ensures var w := DetermineReadingOffsets(startPoint, limit, partitions, o);
            var share := RecordsPerPartition(limit, partitions);
            ConsumerTakes(w.start, oldest, o.end) <==>
              || startPoint == Live || startPoint == Beginning
              || (share >= -1 && (o.start == -1 ==> share <= o.Newest() - oldest || share > o.Newest()))
  {
  }

  // Where that window lies and how many offsets it has.
  lemma WindowOfAPartition(startPoint: StartPoint, limit: int, partitions: nat, o: Offsets)
    requires partitions > 0 && startPoint != Live && 0 <= o.start < o.end
    requires HasWindow(startPoint, limit, partitions, o, o.start)
    ensures var w := DetermineReadingOffsets(startPoint, limit, partitions, o);
            var share := RecordsPerPartition(limit, partitions);
            && o.start <= w.start <= w.end <= o.Newest()
            && (startPoint == Beginning ==>
                  w.start == o.start &&
                  w.Size() == if o.start + share < o.Newest() then share else o.end - o.start)
            && (startPoint != Beginning ==>
                  w.end == o.Newest() && w.Size() == Min(share + 1, o.end - o.start))
  {
    ShareIff(limit, partitions);
  }

  // A start of -1 says that the partition holds nothing as recent as was asked for.
  // With at least share + 1 records in the log the newest of them are read all the
  // same. With less, the start is the -1 itself if the log ever held no more than the
  // share, and otherwise an offset that is no longer held, which the consumer refuses.
  lemma NothingFoundIsReadIff(startPoint: StartPoint, limit: int, partitions: nat, o: Offsets, oldest: int)
    requires partitions > 0 && startPoint != Live && startPoint != Beginning
    requires Reported(o, oldest) && o.start == -1 && limit + partitions > 0
    ensures var w := DetermineReadingOffsets(startPoint, limit, partitions, o);
            var share := RecordsPerPartition(limit, partitions);
            && w.end == o.Newest()
            && (oldest <= w.start <= w.end <==> share <= o.Newest() - oldest)
            && (share <= o.Newest() - oldest ==> w.start == o.Newest() - share && w.Size() == share + 1)
            && (w.start == -1 <==> share > o.Newest())
            && (!ConsumerTakes(w.start, oldest, o.end) <==> o.Newest() - oldest < share <= o.Newest())
  {
    ShareIff(limit, partitions);
  }

  lemma OneMore(n: int, k: int)
    ensures (n + 1) * k == n * k + k
  {
  }

  // The number of offsets a list of windows covers.
  function TotalSize(startPoint: StartPoint, limit: int, partitions: nat, os: seq<Offsets>): int
    requires partitions > 0
  {
    if os == [] then 0
    else TotalSize(startPoint, limit, partitions, os[..|os| - 1]) +
         DetermineReadingOffsets(startPoint, limit, partitions, os[|os| - 1]).Size()
  }

  // All windows of one read together: the limit plus one offset a partition.
  lemma WindowsTotal(startPoint: StartPoint, limit: int, partitions: nat, os: seq<Offsets>)
    requires partitions > 0 && startPoint != Live && |os| <= partitions
    requires forall i :: 0 <= i < |os| ==> 0 <= os[i].start < os[i].end && HasWindow(startPoint, limit, partitions, os[i], os[i].start)
    ensures |os| <= TotalSize(startPoint, limit, partitions, os) <= Max(limit, 0) + partitions
  {
    TotalAtMost(startPoint, limit, partitions, os);
    if os != [] {
      ShareIff(limit, partitions);
      SharesTotal(|os|, limit, partitions, RecordsPerPartition(limit, partitions));
    }
  }

  lemma SharesTotal(n: nat, limit: int, partitions: nat, share: nat)
    requires n <= partitions && partitions * share <= Max(limit, 0)
    ensures n * (share + 1) <= Max(limit, 0) + partitions
  {
    MulMonotone(n, partitions, share + 1);
    OneMore(share, partitions);
  }

  lemma {:induction false} TotalAtMost(startPoint: StartPoint, limit: int, partitions: nat, os: seq<Offsets>)
    requires partitions > 0 && startPoint != Live
    requires forall i :: 0 <= i < |os| ==> 0 <= os[i].start < os[i].end && HasWindow(startPoint, limit, partitions, os[i], os[i].start)
    ensures |os| <= TotalSize(startPoint, limit, partitions, os) <= |os| * (RecordsPerPartition(limit, partitions) + 1)
  {
    if os != [] {
      var n := |os| - 1;
      TotalAtMost(startPoint, limit, partitions, os[..n]);
      WindowOfAPartition(startPoint, limit, partitions, os[n]);
      ShareIff(limit, partitions);
      OneMore(n, RecordsPerPartition(limit, partitions) + 1);
    }
  }
}
