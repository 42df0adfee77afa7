// What the consumer-group page promises of the offsets it was given: none lost or
// duplicated, partitions in order, and a total lag that is the sum of the lags.
module GroupOffsets {
  import opened Options
  import opened Sequences
  import opened Sorting
  import opened Decimal
  import opened Strings
  import opened OffsetLister
  import opened OffsetsPage

  // Everything the page holds, topic by topic.
  function Held(topics: seq<string>, groups: map<string, seq<PartOffset>>): seq<(string, PartOffset)>
    requires forall t <- topics :: t in groups
  {
    if topics == [] then []
    else
      var last := topics[|topics| - 1];
      Held(topics[..|topics| - 1], groups) + Mapped(groups[last], (p: PartOffset) => (last, p))
  }

  function Tagged(e: Entry): (string, PartOffset) {
    (e.topic, PartOffsetOf(e))
  }

  lemma {:induction false} NoneLostOrDuplicated(topics: seq<string>, groups: map<string, seq<PartOffset>>, entries: seq<Entry>, term: string)
    requires ListsTopics(topics, entries, term) && GroupsExactly(groups, entries, term)
    ensures forall t <- topics :: t in groups
    ensures multiset(Held(topics, groups)) == multiset(Mapped(Filtered(entries, Shown(term)), Tagged))
  {
    TopicsAreDistinct(topics);
    HeldIsTheirEntries(topics, groups, entries, term);
    forall e <- entries
      ensures Shown(term)(e) == ShownAmong(term, topics)(e)
    {
      if Shown(term)(e) {
        assert e in Filtered(entries, ShownIn(term, e.topic));
        assert Bucket(entries, term, e.topic) != [];
      }
    }
    FilteredSame(entries, Shown(term), ShownAmong(term, topics));
  }

  function ShownAmong(term: string, topics: seq<string>): Entry -> bool {
    (e: Entry) => Shown(term)(e) && e.topic in topics
  }

  lemma TopicsAreDistinct(topics: seq<string>)
    requires forall i, j :: 0 <= i < j < |topics| ==> Less(topics[i], topics[j])
    ensures Distinct(topics)
  {
    forall i, j | 0 <= i < j < |topics|
      ensures topics[i] != topics[j]
    {
      LessIrreflexive(topics[i]);
    }
  }

  ghost predicate HoldsTheirEntries(topics: seq<string>, groups: map<string, seq<PartOffset>>, entries: seq<Entry>, term: string)
    requires forall t <- topics :: t in groups
  {
    multiset(Held(topics, groups)) == multiset(Mapped(Filtered(entries, ShownAmong(term, topics)), Tagged))
  }

  lemma {:induction false} HeldIsTheirEntries(topics: seq<string>, groups: map<string, seq<PartOffset>>, entries: seq<Entry>, term: string)
    requires Distinct(topics) && GroupsExactly(groups, entries, term) && forall t <- topics :: t in groups
    ensures HoldsTheirEntries(topics, groups, entries, term)
  {
    if topics == [] {
      NoneFiltered(entries, ShownAmong(term, topics));
    } else {
      var front, last := topics[..|topics| - 1], topics[|topics| - 1];
      assert topics == front + [last] && last !in front;
      HeldIsTheirEntries(front, groups, entries, term);
      HeldSnoc(front, last, groups, entries, term);
    }
  }

  lemma {:induction false} HeldSnoc(front: seq<string>, last: string, groups: map<string, seq<PartOffset>>, entries: seq<Entry>, term: string)
    requires GroupsExactly(groups, entries, term) && (forall t <- front :: t in groups) && last in groups && last !in front
    requires HoldsTheirEntries(front, groups, entries, term)
    ensures HoldsTheirEntries(front + [last], groups, entries, term)
  {
    assert (front + [last])[..|front|] == front;
    OneMoreTopic(front, last, entries, term);
    TaggedBucket(entries, term, last);
  }

  lemma {:induction false} OneMoreTopic(front: seq<string>, last: string, entries: seq<Entry>, term: string)
    requires last !in front
    ensures multiset(Mapped(Filtered(entries, ShownAmong(term, front + [last])), Tagged)) ==
            multiset(Mapped(Filtered(entries, ShownAmong(term, front)), Tagged)) +
            multiset(Mapped(Filtered(entries, ShownIn(term, last)), Tagged))
  {
    var all := Filtered(entries, ShownAmong(term, front + [last]));
    var before, here := Filtered(entries, ShownAmong(term, front)), Filtered(entries, ShownIn(term, last));
    FilteredSplits(entries, ShownAmong(term, front), ShownIn(term, last), ShownAmong(term, front + [last]));
    MappedMultiset(all, before + here, Tagged);
    MappedConcat(before, here, Tagged);
  }

  lemma TaggedBucket(entries: seq<Entry>, term: string, topic: string)
    ensures Mapped(Bucket(entries, term, topic), (p: PartOffset) => (topic, p)) ==
            Mapped(Filtered(entries, ShownIn(term, topic)), Tagged)
  {
  }

  // No two entries of the same partition, partitions that fit their type.
  ghost predicate Listed(entries: seq<Entry>) {
    && (forall i, j :: 0 <= i < j < |entries| ==> KeyOf(entries[i]) != KeyOf(entries[j]))
    && forall e <- entries :: Fits(e.partition, 64)
  }

  function Number(r: OffsetRow): int {
    ParseInt(r.partition, 64)
  }

  ghost predicate Ascend(rows: seq<OffsetRow>) {
    forall i, j :: 0 <= i < j < |rows| ==> Number(rows[i]) < Number(rows[j])
  }

  // The rows of a topic ascend by partition number, however the entries came in.
  lemma PartitionsAscend(rows: seq<OffsetRow>, entries: seq<Entry>, term: string, topic: string, comma: int -> string)
    requires Listed(entries) && ListsPartitions(rows, Bucket(entries, term, topic), comma)
    ensures Ascend(rows)
  {
    var unsorted := Mapped(Bucket(entries, term, topic), RowOf(comma));
    NumbersDiffer(entries, term, topic, comma);
    MappedMultiset(unsorted, rows, Number);
    DistinctInAnyOrder(Mapped(unsorted, Number), Mapped(rows, Number));
    SortedAndDistinct(rows);
  }

  lemma SortedAndDistinct(rows: seq<OffsetRow>)
    requires Sorted(rows, ByPartition) && Distinct(Mapped(rows, Number))
    ensures Ascend(rows)
  {
  }

  lemma {:induction false} NumbersDiffer(entries: seq<Entry>, term: string, topic: string, comma: int -> string)
    requires Listed(entries)
    ensures Distinct(Mapped(Mapped(Bucket(entries, term, topic), RowOf(comma)), Number))
  {
    var es := Filtered(entries, ShownIn(term, topic));
    var rows := Mapped(Bucket(entries, term, topic), RowOf(comma));
    PartitionsDiffer(entries, term, topic);
    forall i | 0 <= i < |es|
      ensures Number(rows[i]) == es[i].partition
    {
      NumberOfRow(es[i], comma);
    }
    assert Mapped(rows, Number) == Mapped(es, PartitionOf);
  }

  lemma NumberOfRow(e: Entry, comma: int -> string)
    requires Fits(e.partition, 64)
    ensures Number(RowOf(comma)(PartOffsetOf(e))) == e.partition
  {
    RoundTripIff(e.partition, 64);
  }

  function PartitionOf(e: Entry): int {
    e.partition
  }

  lemma {:induction false} PartitionsDiffer(entries: seq<Entry>, term: string, topic: string)
    requires Listed(entries)
    ensures var es := Filtered(entries, ShownIn(term, topic));
            Distinct(Mapped(es, PartitionOf)) && forall e <- es :: Fits(e.partition, 64)
  {
    if entries != [] {
      var front, last := entries[..|entries| - 1], entries[|entries| - 1];
      assert entries == front + [last];
      PartitionsDiffer(front, term, topic);
      FilteredSnoc(front, last, ShownIn(term, topic));
      var es := Filtered(front, ShownIn(term, topic));
      if ShownIn(term, topic)(last) {
        forall e <- es
          ensures e.partition != last.partition
        {
          assert KeyOf(e) != KeyOf(last);
        }
        PartitionsSnoc(es, last);
      }
    }
  }

  lemma PartitionsSnoc(es: seq<Entry>, e: Entry)
    requires Distinct(Mapped(es, PartitionOf)) && forall d <- es :: d.partition != e.partition
    ensures Distinct(Mapped(es + [e], PartitionOf))
  {
  }

  // The texts of a committed partition's row. Where the watermark is not known, or is
  // the marker itself, it reads N/A, and the lag likewise.
  ghost predicate IsRowFor(r: OffsetRow, committed: map<Key, int>, hwm: Key -> Option<int>, topic: string, p: int, comma: int -> string) {
    var k := Key(topic, p);
    && k in committed && r.partition == FormatInt(p) && r.offset == comma(committed[k])
    && (hwm(k).None? ==> r.hwm == "N/A" && r.lag == "N/A")
    && (hwm(k).Some? ==> r.hwm == if hwm(k).value == ERROR_VALUE then "N/A" else comma(hwm(k).value))
    && (hwm(k).Some? ==> r.lag == if hwm(k).value - committed[k] == ERROR_VALUE then "N/A" else comma(hwm(k).value - committed[k]))
  }

  // The rows of a group's topic: one for each committed partition, and no other.
  ghost predicate ShowsExactly(rows: seq<OffsetRow>, committed: map<Key, int>, hwm: Key -> Option<int>, topic: string, comma: int -> string) {
    && (forall r <- rows :: ComesFromSome(r, committed, hwm, topic, comma))
    && (forall p :: Key(topic, p) in committed ==> HasRow(rows, committed, hwm, topic, p, comma))
  }

  ghost predicate ComesFromSome(r: OffsetRow, committed: map<Key, int>, hwm: Key -> Option<int>, topic: string, comma: int -> string) {
    exists p :: IsRowFor(r, committed, hwm, topic, p, comma)
  }

  ghost predicate HasRow(rows: seq<OffsetRow>, committed: map<Key, int>, hwm: Key -> Option<int>, topic: string, p: int, comma: int -> string) {
    exists r <- rows :: IsRowFor(r, committed, hwm, topic, p, comma)
  }

  ghost predicate PartitionsFit(ks: set<Key>) {
    forall k <- ks :: Fits(k.partition, 64)
  }

  // From the group's committed offsets to a topic's rows: whatever order the lister's
  // goroutines published in, one row a committed partition, ascending if the partitions
  // are 64-bit numbers.
  lemma {:induction false} PageShowsTheGroup(committed: map<Key, int>, hwm: Key -> Option<int>, entries: seq<Entry>, term: string,
                                             topic: string, comma: int -> string)
    requires ListsExactly(entries, committed, hwm) && Bucket(entries, term, topic) != []
    ensures forall rows :: ListsPartitions(rows, Bucket(entries, term, topic), comma) ==>
              ShowsExactly(rows, committed, hwm, topic, comma) && (PartitionsFit(committed.Keys) ==> Ascend(rows))
  {
    var unsorted := Mapped(Bucket(entries, term, topic), RowOf(comma));
    BucketShowsTheGroup(committed, hwm, entries, term, topic, comma);
    forall rows | ListsPartitions(rows, Bucket(entries, term, topic), comma)
      ensures ShowsExactly(rows, committed, hwm, topic, comma) && (PartitionsFit(committed.Keys) ==> Ascend(rows))
    {
      if PartitionsFit(committed.Keys) {
        PartitionsAscend(rows, entries, term, topic, comma);
      }
      SameMembers(unsorted, rows);
      ShowsInAnyOrder(unsorted, rows, committed, hwm, topic, comma);
    }
  }

  lemma ShowsInAnyOrder(rows: seq<OffsetRow>, rows': seq<OffsetRow>, committed: map<Key, int>, hwm: Key -> Option<int>,
                        topic: string, comma: int -> string)
    requires ShowsExactly(rows, committed, hwm, topic, comma)
    requires (forall r <- rows :: r in rows') && forall r <- rows' :: r in rows
    ensures ShowsExactly(rows', committed, hwm, topic, comma)
  {
    forall p | Key(topic, p) in committed
      ensures HasRow(rows', committed, hwm, topic, p, comma)
    {
      assert HasRow(rows, committed, hwm, topic, p, comma);
      var r :| r in rows && IsRowFor(r, committed, hwm, topic, p, comma);
      assert r in rows';
    }
  }

  lemma {:induction false} BucketShowsTheGroup(committed: map<Key, int>, hwm: Key -> Option<int>, entries: seq<Entry>, term: string,
                            topic: string, comma: int -> string)
    requires ListsExactly(entries, committed, hwm) && Bucket(entries, term, topic) != []
    ensures ShowsExactly(Mapped(Bucket(entries, term, topic), RowOf(comma)), committed, hwm, topic, comma)
  {
    var es := Filtered(entries, ShownIn(term, topic));
    var rows := Mapped(Bucket(entries, term, topic), RowOf(comma));
    assert es[0] in es;
    forall r <- rows
      ensures ComesFromSome(r, committed, hwm, topic, comma)
    {
      var i :| 0 <= i < |rows| && rows[i] == r;
      assert es[i] in es;
      RowComesFrom(es[i], committed, hwm, comma);
    }
    forall p | Key(topic, p) in committed
      ensures HasRow(rows, committed, hwm, topic, p, comma)
    {
      PartitionHasRow(p, committed, hwm, entries, term, topic, comma);
    }
  }

  lemma RowComesFrom(e: Entry, committed: map<Key, int>, hwm: Key -> Option<int>, comma: int -> string)
    requires KeyOf(e) in committed && e == EntryFor(KeyOf(e), committed[KeyOf(e)], hwm(KeyOf(e)))
    ensures IsRowFor(RowOf(comma)(PartOffsetOf(e)), committed, hwm, e.topic, e.partition, comma)
  {
  }

  lemma PartitionHasRow(p: int, committed: map<Key, int>, hwm: Key -> Option<int>, entries: seq<Entry>, term: string,
                        topic: string, comma: int -> string)
    requires ListsExactly(entries, committed, hwm) && Key(topic, p) in committed
    requires Shown(term)(EntryFor(Key(topic, p), committed[Key(topic, p)], hwm(Key(topic, p))))
    ensures HasRow(Mapped(Bucket(entries, term, topic), RowOf(comma)), committed, hwm, topic, p, comma)
  {
    var e := EntryFor(Key(topic, p), committed[Key(topic, p)], hwm(Key(topic, p)));
    var es := Filtered(entries, ShownIn(term, topic));
    assert e in entries && e in es;
    var i :| 0 <= i < |es| && es[i] == e;
    var rows := Mapped(Bucket(entries, term, topic), RowOf(comma));
    RowComesFrom(e, committed, hwm, comma);
    assert rows[i] in rows;
  }

  // A topic is listed if and only if some entry is of that topic and the topic's name
  // contains the search term.
  lemma TopicIsListedIff(topics: seq<string>, entries: seq<Entry>, term: string, topic: string)
    requires ListsTopics(topics, entries, term)
    ensures topic in topics <==>
              && (exists e <- entries :: e.topic == topic)
              && (term == "" || exists before: string, after: string :: topic == before + term + after)
  {
    ContainsIff(topic, term);
    var es := Filtered(entries, ShownIn(term, topic));
    assert topic in topics <==> |es| > 0;
    if |es| > 0 {
      assert es[0] in es;
      ShownByItsTopic(es[0], term, topic);
    } else if e :| e in entries && e.topic == topic {
      ShownByItsTopic(e, term, topic);
      assert !ShownIn(term, topic)(e);
    }
  }

  lemma ShownByItsTopic(e: Entry, term: string, topic: string)
    requires e.topic == topic
    ensures ShownIn(term, topic)(e) <==> term == "" || Contains(topic, term)
  {
    assert ShownIn(term, topic)(e) == Shown(term)(e);
    assert Shown(term)(e) == (term == "" || Contains(e.topic, term));
  }

  // The group's lag on a topic, partition by partition in any order: watermark less
  // committed offset.
  function KnownLag(committed: map<Key, int>, hwm: Key -> Option<int>): Key -> int {
    (k: Key) => if k in committed && hwm(k).Some? then hwm(k).value - committed[k] else 0
  }

  // With all its watermarks known the total lag of a topic is the sum, wrapped to
  // 64 bits, of how far each committed partition lags behind its watermark.
  lemma TotalIsTheLag(committed: map<Key, int>, hwm: Key -> Option<int>, entries: seq<Entry>, term: string, topic: string, ks: seq<Key>)
    requires ListsExactly(entries, committed, hwm) && Bucket(entries, term, topic) != []
    requires Distinct(ks) && forall k :: k in ks <==> k in committed && k.topic == topic
    requires forall k <- ks :: hwm(k).Some?
    ensures Sum(Lags(Bucket(entries, term, topic))) == Sum(Mapped(ks, KnownLag(committed, hwm)))
    ensures forall k <- ks :: committed[k] + KnownLag(committed, hwm)(k) == hwm(k).value
  {
    var keys := Mapped(Filtered(entries, ShownIn(term, topic)), KeyOf);
    BucketKeys(committed, hwm, entries, term, topic);
    SameElementsOnce(keys, ks);
    MappedMultiset(keys, ks, KnownLag(committed, hwm));
    SumInAnyOrder(Mapped(keys, KnownLag(committed, hwm)), Mapped(ks, KnownLag(committed, hwm)));
    BucketLags(committed, hwm, entries, term, topic);
  }

  lemma BucketLags(committed: map<Key, int>, hwm: Key -> Option<int>, entries: seq<Entry>, term: string, topic: string)
    requires ListsExactly(entries, committed, hwm)
    requires forall k <- committed :: k.topic == topic ==> hwm(k).Some?
    ensures Lags(Bucket(entries, term, topic)) ==
            Mapped(Mapped(Filtered(entries, ShownIn(term, topic)), KeyOf), KnownLag(committed, hwm))
  {
    var es := Filtered(entries, ShownIn(term, topic));
    forall i | 0 <= i < |es|
      ensures es[i].lag == KnownLag(committed, hwm)(KeyOf(es[i]))
    {
      assert es[i] in es;
      LagIsKnown(committed, hwm, entries, es[i]);
    }
  }

  lemma LagIsKnown(committed: map<Key, int>, hwm: Key -> Option<int>, entries: seq<Entry>, e: Entry)
    requires ListsExactly(entries, committed, hwm) && e in entries && hwm(KeyOf(e)).Some?
    ensures e.lag == KnownLag(committed, hwm)(KeyOf(e))
  {
  }

  // The keys of a shown topic's entries are its committed partitions, each once.
  lemma {:induction false} BucketKeys(committed: map<Key, int>, hwm: Key -> Option<int>, entries: seq<Entry>, term: string, topic: string)
    requires ListsExactly(entries, committed, hwm) && Bucket(entries, term, topic) != []
    ensures var keys := Mapped(Filtered(entries, ShownIn(term, topic)), KeyOf);
            && Distinct(keys)
            && (forall k <- keys :: k in committed && k.topic == topic)
            && (forall k <- committed :: k.topic == topic ==> k in keys)
  {
    var es := Filtered(entries, ShownIn(term, topic));
    var keys := Mapped(es, KeyOf);
    assert es[0] in es;
    FilteredKeysDiffer(entries, ShownIn(term, topic));
    forall k <- keys
      ensures k in committed && k.topic == topic
    {
      var i :| 0 <= i < |keys| && keys[i] == k;
      assert es[i] in es;
    }
    forall k <- committed | k.topic == topic
      ensures k in keys
    {
      var e := EntryFor(k, committed[k], hwm(k));
      ShownByItsTopic(es[0], term, topic);
      ShownByItsTopic(e, term, topic);
      assert e in entries && e in es;
      var i :| 0 <= i < |es| && es[i] == e;
      assert keys[i] in keys;
    }
  }

  lemma {:induction false} FilteredKeysDiffer(entries: seq<Entry>, p: Entry -> bool)
    requires forall i, j :: 0 <= i < j < |entries| ==> KeyOf(entries[i]) != KeyOf(entries[j])
    ensures Distinct(Mapped(Filtered(entries, p), KeyOf))
  {
    if entries != [] {
      var front, last := entries[..|entries| - 1], entries[|entries| - 1];
      assert entries == front + [last];
      FilteredKeysDiffer(front, p);
      FilteredSnoc(front, last, p);
      if p(last) {
        OneMoreKey(Filtered(front, p), front, last);
      }
    }
  }

  lemma OneMoreKey(es: seq<Entry>, front: seq<Entry>, last: Entry)
    requires Distinct(Mapped(es, KeyOf))
    requires forall e <- es :: e in front
    requires forall e <- front :: KeyOf(e) != KeyOf(last)
    ensures Distinct(Mapped(es + [last], KeyOf))
  {
    MappedSnoc(es, last, KeyOf);
    forall i | 0 <= i < |es|
      ensures Mapped(es, KeyOf)[i] != KeyOf(last)
    {
      assert es[i] in es;
    }
  }

  // What a sum is: nothing for no numbers, the number for one, and additive.
  lemma {:induction false} SumIsAdditive(xs: seq<int>, ys: seq<int>, x: int)
    ensures Sum([]) == 0 && Sum([x]) == x && Sum(xs + ys) == Sum(xs) + Sum(ys)
  {
    assert [x][..0] == [];
    if ys == [] {
      assert xs + ys == xs;
    } else {
      var front, last := ys[..|ys| - 1], ys[|ys| - 1];
      SumIsAdditive(xs, front, x);
      assert xs + ys == (xs + front) + [last];
      SumSnoc(xs + front, last);
    }
  }

  lemma {:induction false} SumInAnyOrder(xs: seq<int>, ys: seq<int>)
    requires multiset(xs) == multiset(ys)
    ensures Sum(xs) == Sum(ys)
  {
    if xs == [] {
      assert |multiset(ys)| == 0;
    } else {
      var front, last := xs[..|xs| - 1], xs[|xs| - 1];
      assert xs == front + [last];
      assert last in multiset(xs);
      var i :| 0 <= i < |ys| && ys[i] == last;
      var before, after := ys[..i], ys[i + 1..];
      assert ys == before + [last] + after;
      MultisetAround(before, last, after);
      WithoutOne(multiset(front), multiset(before + after), last);
      SumInAnyOrder(front, before + after);
      SumIsAdditive(before + [last], after, last);
      SumIsAdditive(before, [last], last);
      SumIsAdditive(before, after, last);
    }
  }

  // The lags that are not the error marker.
  function Known(lags: seq<int>): seq<int> {
    Filtered(lags, IsKnown)
  }

  predicate IsKnown(lag: int) {
    lag != ERROR_VALUE
  }

  // Modulo the word size two markers cancel: the total is the sum of the known lags
  // exactly when an even number of partitions, in particular none, has the marker.
  lemma TotalLagIff(lags: seq<int>)
    ensures Wrap64(Sum(lags)) == Wrap64(Sum(Known(lags))) <==> (|lags| - |Known(lags)|) % 2 == 0
    ensures Wrap64(Sum(lags)) == Sum(lags) <==> -WORD / 2 <= Sum(lags) < WORD / 2
    ensures -WORD / 2 <= Wrap64(Sum(lags)) < WORD / 2 && (Wrap64(Sum(lags)) - Sum(lags)) % WORD == 0
  {
    MarkersSum(lags);
    HalfWords(Sum(Known(lags)), |lags| - |Known(lags)|);
  }

  predicate Differ(total: int, known: int, markers: int) {
    total == known - markers * 0x8000_0000_0000_0000
  }

  lemma {:induction false} MarkersSum(lags: seq<int>)
    ensures Differ(Sum(lags), Sum(Known(lags)), |lags| - |Known(lags)|)
  {
    if lags != [] {
      var front, last := lags[..|lags| - 1], lags[|lags| - 1];
      var known := Known(front);
      MarkersSum(front);
      MarkersSnoc(front, known, last);
      assert lags == front + [last];
      FilteredSnoc(front, last, IsKnown);
    }
  }

  lemma MarkersSnoc(front: seq<int>, known: seq<int>, last: int)
    requires Differ(Sum(front), Sum(known), |front| - |known|)
    ensures var known' := if IsKnown(last) then known + [last] else known;
            Differ(Sum(front + [last]), Sum(known'), |front + [last]| - |known'|)
  {
    SumSnoc(front, last);
    SumSnoc(known, last);
    OneMoreMarker(|front| - |known|);
  }

  lemma OneMoreMarker(n: int)
    ensures (n + 1) * 0x8000_0000_0000_0000 == n * 0x8000_0000_0000_0000 - ERROR_VALUE
  {
  }

  lemma HalfWords(x: int, n: int)
    ensures Wrap64(x - n * 0x8000_0000_0000_0000) == Wrap64(x) <==> n % 2 == 0
  {
    var m := n / 2;
    assert n == 2 * m + n % 2;
    assert x - n * 0x8000_0000_0000_0000 == x - (n % 2) * 0x8000_0000_0000_0000 - m * WORD;
  }
}
