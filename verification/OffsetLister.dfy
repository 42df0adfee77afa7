// doListOffsets of kadmin/offset_lister.go: one goroutine a committed partition,
// appending to a shared slice under a mutex. The schedule is the order in which they
// get the mutex; any order may happen.
module OffsetLister {
  import opened Options
  import opened Sequences

  // math.MinInt64, shown where the high watermark could not be fetched.
  const ERROR_VALUE := -0x8000_0000_0000_0000

  const MAX_INT64 := 0x7fff_ffff_ffff_ffff

  datatype TopicPartitionOffset = TopicPartitionOffset(topic: string, partition: int, offset: int, highWaterMark: int, lag: int)

  datatype Key = Key(topic: string, partition: int)

  function KeyOf(e: TopicPartitionOffset): Key {
    Key(e.topic, e.partition)
  }

  function EntryFor(k: Key, committed: int, highWaterMark: Option<int>): TopicPartitionOffset {
    match highWaterMark
    case None => TopicPartitionOffset(k.topic, k.partition, committed, ERROR_VALUE, ERROR_VALUE)
    case Some(hwm) => TopicPartitionOffset(k.topic, k.partition, committed, hwm, hwm - committed)
  }

  // Exactly one entry for each committed partition, and nothing else.
  predicate ListsExactly(es: seq<TopicPartitionOffset>, committed: map<Key, int>, hwm: Key -> Option<int>) {
    && |es| == |committed|
    && (forall i, j :: 0 <= i < j < |es| ==> KeyOf(es[i]) != KeyOf(es[j]))
    && (forall e <- es :: KeyOf(e) in committed && e == EntryFor(KeyOf(e), committed[KeyOf(e)], hwm(KeyOf(e))))
    && (forall k <- committed :: EntryFor(k, committed[k], hwm(k)) in es)
  }

  // The committed offset and, with a watermark, how far behind it that is.
  predicate SaysWhatIsKnown(e: TopicPartitionOffset, committed: map<Key, int>, hwm: Key -> Option<int>) {
    var k := Key(e.topic, e.partition);
    && k in committed && e.offset == committed[k]
    && (hwm(k).Some? ==> e.highWaterMark == hwm(k).value && e.offset + e.lag == e.highWaterMark)
    && (hwm(k).None? ==> e.highWaterMark == ERROR_VALUE && e.lag == ERROR_VALUE)
  }

  method DoListOffsets(committed: Option<map<Key, int>>, hwm: Key -> Option<int>, schedule: seq<Key>)
    returns (r: Option<seq<TopicPartitionOffset>>)
    requires committed.Some? ==> Distinct(schedule) && forall k :: k in schedule <==> k in committed.value
    ensures r.Some? <==> committed.Some?
    ensures r.Some? ==> ListsExactly(r.value, committed.value, hwm)
    ensures r.Some? ==> forall e <- r.value :: SaysWhatIsKnown(e, committed.value, hwm)
    ensures r.Some? ==> forall k <- committed.value :: exists e <- r.value :: e.topic == k.topic && e.partition == k.partition
  {
    if committed.None? {
      return None;
    }
    var topicPartitionOffsets: seq<TopicPartitionOffset> := [];
    for i := 0 to |schedule|
      invariant |topicPartitionOffsets| == i
      invariant forall j :: 0 <= j < i ==>
                  schedule[j] in committed.value &&
                  topicPartitionOffsets[j] == EntryFor(schedule[j], committed.value[schedule[j]], hwm(schedule[j]))
    {
      var k := schedule[i];
      assert k in schedule;
      var fetched := hwm(k);
      var highWaterMark, lag;
      if fetched.None? {
        highWaterMark, lag := ERROR_VALUE, ERROR_VALUE;
      } else {
        highWaterMark := fetched.value;
        lag := fetched.value - committed.value[k];
      }
      topicPartitionOffsets := topicPartitionOffsets +
        [TopicPartitionOffset(k.topic, k.partition, committed.value[k], highWaterMark, lag)];
    }
    AllListed(schedule, topicPartitionOffsets, committed.value, hwm);
    ListedSayWhatIsKnown(topicPartitionOffsets, committed.value, hwm);
    return Some(topicPartitionOffsets);
  }

  lemma ListedSayWhatIsKnown(es: seq<TopicPartitionOffset>, committed: map<Key, int>, hwm: Key -> Option<int>)
    requires ListsExactly(es, committed, hwm)
    ensures forall e <- es :: SaysWhatIsKnown(e, committed, hwm)
    ensures forall k <- committed :: exists e <- es :: e.topic == k.topic && e.partition == k.partition
  {
    forall k <- committed
      ensures exists e <- es :: e.topic == k.topic && e.partition == k.partition
    {
      assert EntryFor(k, committed[k], hwm(k)) in es;
    }
  }

  lemma AllListed(ks: seq<Key>, es: seq<TopicPartitionOffset>, committed: map<Key, int>, hwm: Key -> Option<int>)
    requires Distinct(ks) && forall k :: k in ks <==> k in committed
    requires |es| == |ks| && forall j :: 0 <= j < |ks| ==> ks[j] in committed && es[j] == EntryFor(ks[j], committed[ks[j]], hwm(ks[j]))
    ensures ListsExactly(es, committed, hwm)
  {
    DistinctKeysCount(ks, committed);
    forall k <- committed
      ensures EntryFor(k, committed[k], hwm(k)) in es
    {
      assert k in ks;
      var j :| 0 <= j < |ks| && ks[j] == k;
      assert es[j] == EntryFor(k, committed[k], hwm(k));
    }
  }

  lemma DistinctKeysCount(ks: seq<Key>, committed: map<Key, int>)
    requires Distinct(ks) && forall k :: k in ks <==> k in committed
    ensures |ks| == |committed|
  {
    KeySetSize(ks);
    assert (set k | k in ks) == committed.Keys;
  }

  lemma {:induction false} KeySetSize(ks: seq<Key>)
    requires Distinct(ks)
    ensures |set k | k in ks| == |ks|
  {
    if ks != [] {
      var front, last := ks[..|ks| - 1], ks[|ks| - 1];
      KeySetSize(front);
      assert ks == front + [last];
      assert last !in front;
      assert (set k | k in ks) == (set k | k in front) + {last};
    }
  }

  // With committed offsets and watermarks in their ranges, the marker is unambiguous
  // and the difference needs no 64-bit wrap-around.
  lemma LagIsTheMarkerIff(k: Key, committed: int, hwm: Option<int>)
    requires -1 <= committed <= MAX_INT64 && (hwm.Some? ==> 0 <= hwm.value <= MAX_INT64 - 1)
    ensures var e := EntryFor(k, committed, hwm);
            && (e.lag == ERROR_VALUE <==> hwm.None?)
            && ERROR_VALUE <= e.lag <= MAX_INT64
  {
  }
}
