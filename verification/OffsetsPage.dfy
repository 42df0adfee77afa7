// recreateTopicRows and recreateOffsetRows of
// ui/pages/cgroups_topics_page/cgroups_parts_offsets_page.go: the listed offsets of a
// consumer group, grouped by topic, and the selected topic's partitions with their lag.
module OffsetsPage {
  import opened Options
  import opened Sequences
  import opened Sorting
  import opened Decimal
  import opened Strings
  import opened OffsetLister

  datatype PartOffset = PartOffset(partition: string, offset: int, hwm: int, lag: int)

  datatype OffsetRow = OffsetRow(partition: string, offset: string, hwm: string, lag: string)

  type Entry = TopicPartitionOffset

  function Shown(term: string): Entry -> bool {
    (e: Entry) => term == "" || Contains(e.topic, term)
  }

  function ShownIn(term: string, topic: string): Entry -> bool {
    (e: Entry) => Shown(term)(e) && e.topic == topic
  }

  function PartOffsetOf(e: Entry): PartOffset {
    PartOffset(FormatInt(e.partition), e.offset, e.highWaterMark, e.lag)
  }

  // What belongs under a topic: its entries that match the search, in their order.
  function Bucket(entries: seq<Entry>, term: string, topic: string): seq<PartOffset> {
    Mapped(Filtered(entries, ShownIn(term, topic)), PartOffsetOf)
  }

  ghost predicate GroupsExactly(groups: map<string, seq<PartOffset>>, entries: seq<Entry>, term: string) {
    && (forall t :: t in groups <==> Bucket(entries, term, t) != [])
    && (forall t <- groups :: groups[t] == Bucket(entries, term, t))
  }

  // Every topic with a bucket, once, in alphabetical order.
  ghost predicate ListsTopics(topics: seq<string>, entries: seq<Entry>, term: string) {
    && (forall i, j :: 0 <= i < j < |topics| ==> Less(topics[i], topics[j]))
    && (forall t :: t in topics <==> Bucket(entries, term, t) != [])
  }

  // append to a map's slice, starting it where there was none.
  function WithEntry(groups: map<string, seq<PartOffset>>, e: Entry): map<string, seq<PartOffset>> {
    groups[e.topic := (if e.topic in groups then groups[e.topic] else []) + [PartOffsetOf(e)]]
  }

  const WORD := 0x1_0000_0000_0000_0000

  // Two's complement wrap-around of int64.
  function Wrap64(x: int): int {
    (x + WORD / 2) % WORD - WORD / 2
  }

  function Sum(xs: seq<int>): int {
    if xs == [] then 0 else Sum(xs[..|xs| - 1]) + xs[|xs| - 1]
  }

  function Lags(bucket: seq<PartOffset>): seq<int> {
    Mapped(bucket, (p: PartOffset) => p.lag)
  }

  function OrNotAvailable(x: int, comma: int -> string): string {
    if x == ERROR_VALUE then "N/A" else comma(x)
  }

  function RowOf(comma: int -> string): PartOffset -> OffsetRow {
    (p: PartOffset) => OffsetRow(p.partition, comma(p.offset), OrNotAvailable(p.hwm, comma), OrNotAvailable(p.lag, comma))
  }

  function ByPartition(a: OffsetRow, b: OffsetRow): bool {
    ParseInt(a.partition, 64) < ParseInt(b.partition, 64)
  }

  ghost predicate ListsPartitions(rows: seq<OffsetRow>, bucket: seq<PartOffset>, comma: int -> string) {
    Sorted(rows, ByPartition) && StablyPermutes(Mapped(bucket, RowOf(comma)), rows, ByPartition)
  }

  class Model {
    var offsets: seq<Entry>
    var topicsRows: Option<seq<string>> // nil until the first listing
    var topicByPartOffset: map<string, seq<PartOffset>>
    var offsetRows: seq<OffsetRow>
    var totalLag: int

    constructor ()
      ensures offsets == [] && topicsRows == None && topicByPartOffset == map[] && offsetRows == [] && totalLag == 0
    {
      offsets, topicsRows, topicByPartOffset, offsetRows, totalLag := [], None, map[], [], 0;
    }

    method RecreateTopicRows(term: string)
      modifies this
      ensures unchanged(`offsets) && unchanged(`offsetRows) && unchanged(`totalLag)
      ensures offsets == [] ==> unchanged(this)
      ensures offsets != [] ==>
                && topicsRows.Some? && ListsTopics(topicsRows.value, offsets, term)
                && GroupsExactly(topicByPartOffset, offsets, term)
    {
      if |offsets| == 0 {
        return;
      }
      var topics, groups := Group(offsets, term);
      topicByPartOffset := groups;
      SortingTopics(topics, offsets, term);
      topicsRows := Some(StableSort(topics, Less));
    }

    static method Group(offsets: seq<Entry>, term: string) returns (topics: seq<string>, groups: map<string, seq<PartOffset>>)
      ensures Distinct(topics) && forall t :: t in topics <==> t in groups
      ensures GroupsExactly(groups, offsets, term)
    {
      topics, groups := [], map[];
      for i := 0 to |offsets|
        invariant Distinct(topics) && forall t :: t in topics <==> t in groups
        invariant GroupsExactly(groups, offsets[..i], term) == true
      {
        var e := offsets[i];
        assert offsets[..i + 1] == offsets[..i] + [e];
        GroupsSnoc(groups, offsets[..i], e, term);
        if term != "" {
          if !Contains(e.topic, term) {
            continue;
          }
        }
        topics, groups := Add(topics, groups, e);
      }
      assert offsets[..|offsets|] == offsets;
    }

    // The end of the loop's body: the entry goes under its topic.
    static method Add(topics: seq<string>, groups: map<string, seq<PartOffset>>, e: Entry)
      returns (topics': seq<string>, groups': map<string, seq<PartOffset>>)
      requires Distinct(topics) && forall t :: t in topics <==> t in groups
      ensures Distinct(topics') && forall t :: t in topics' <==> t in groups'
      ensures groups' == WithEntry(groups, e)
    {
      topics' := topics;
      if e.topic !in topics {
        topics' := topics + [e.topic];
      }
      groups' := WithEntry(groups, e);
    }

    // Panics where the source takes the first row of an empty table.
    method RecreateOffsetRows(selectedRow: Option<string>, comma: int -> string) returns (panicked: bool)
      modifies this
      ensures unchanged(`offsets) && unchanged(`topicsRows) && unchanged(`topicByPartOffset)
      ensures panicked <==> topicsRows == Some([]) && selectedRow.None?
      ensures panicked || topicsRows.None? || Selected(selectedRow) == "" ==> unchanged(this)
      ensures !panicked && topicsRows.Some? && Selected(selectedRow) != "" ==>
                && ListsPartitions(offsetRows, BucketOf(Selected(selectedRow)), comma)
                && totalLag == Wrap64(Sum(Lags(BucketOf(Selected(selectedRow)))))
    {
      panicked := false;
      if topicsRows.None? {
        return;
      }
      if selectedRow.None? && topicsRows.value == [] {
        return true;
      }
      var selectedTopic := Selected(selectedRow);
      if selectedTopic != "" {
        var rows, total := OffsetRows(BucketOf(selectedTopic), comma);
        totalLag := total;
        offsetRows := rows;
      }
    }

    function Selected(selectedRow: Option<string>): string
      requires topicsRows.Some? && !(selectedRow.None? && topicsRows.value == [])
      reads this
    {
      if selectedRow.Some? then selectedRow.value else topicsRows.value[0]
    }

    // Go's map read: no bucket reads as the empty one.
    function BucketOf(topic: string): seq<PartOffset>
      reads this
    {
      if topic in topicByPartOffset then topicByPartOffset[topic] else []
    }

    static method OffsetRows(bucket: seq<PartOffset>, comma: int -> string) returns (rows: seq<OffsetRow>, totalLag: int)
      ensures ListsPartitions(rows, bucket, comma)
      ensures totalLag == Wrap64(Sum(Lags(bucket)))
    {
      totalLag, rows := 0, [];
      for i := 0 to |bucket|
        invariant rows == Mapped(bucket[..i], RowOf(comma))
        invariant totalLag == Wrap64(Sum(Lags(bucket[..i])))
      {
        var p := bucket[i];
        assert bucket[..i + 1] == bucket[..i] + [p];
        MappedSnoc(bucket[..i], p, RowOf(comma));
        LagsSnoc(bucket[..i], p);
        totalLag := Wrap64(totalLag + p.lag);
        rows := rows + [OffsetRow(p.partition, comma(p.offset), OrNotAvailable(p.hwm, comma), OrNotAvailable(p.lag, comma))];
      }
      assert bucket[..|bucket|] == bucket;
      SortIsStable(rows, ByPartition);
      rows := StableSort(rows, ByPartition);
    }
  }

  lemma LagsSnoc(bucket: seq<PartOffset>, p: PartOffset)
    ensures Wrap64(Wrap64(Sum(Lags(bucket))) + p.lag) == Wrap64(Sum(Lags(bucket + [p])))
  {
    MappedSnoc(bucket, p, (p: PartOffset) => p.lag);
    SumSnoc(Lags(bucket), p.lag);
  }

  lemma SumSnoc(xs: seq<int>, x: int)
    ensures Sum(xs + [x]) == Sum(xs) + x
  {
    assert (xs + [x])[..|xs|] == xs;
  }

  lemma BucketsSnoc(entries: seq<Entry>, e: Entry, term: string)
    ensures forall t :: Bucket(entries + [e], term, t) ==
              Bucket(entries, term, t) + if ShownIn(term, t)(e) then [PartOffsetOf(e)] else []
  {
  }

  lemma GroupsSnoc(groups: map<string, seq<PartOffset>>, entries: seq<Entry>, e: Entry, term: string)
    requires GroupsExactly(groups, entries, term)
    ensures GroupsExactly(if Shown(term)(e) then WithEntry(groups, e) else groups, entries + [e], term)
  {
    BucketsSnoc(entries, e, term);
  }

  lemma {:induction false} SortingTopics(topics: seq<string>, entries: seq<Entry>, term: string)
    requires Distinct(topics) && forall t :: t in topics <==> Bucket(entries, term, t) != []
    ensures ListsTopics(StableSort(topics, Less), entries, term)
  {
    LessIsAnOrder();
    SortIsStable(topics, Less);
    var sorted := StableSort(topics, Less);
    DistinctInAnyOrder(topics, sorted);
    forall i, j | 0 <= i < j < |sorted|
      ensures Less(sorted[i], sorted[j])
    {
      LessTotal(sorted[i], sorted[j]);
    }
    forall t
      ensures t in topics <==> t in sorted
    {
      assert t in multiset(topics) <==> t in multiset(sorted);
    }
  }

  lemma {:induction false} LessIsAnOrder()
    ensures StrictWeakOrder(Less)
  {
    forall a, b | Less(a, b)
      ensures !Less(b, a)
    {
      LessIsAsymmetric(a, b);
    }
    forall a, b, c | Less(a, c)
      ensures Less(a, b) || Less(b, c)
    {
      LessSplits(a, b, c);
    }
  }
}
