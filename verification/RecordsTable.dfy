// createRows, recordForRow and recordIndexForRow of ui/pages/consume_page/consume_page.go:
// the table shows text only, and the record behind a row is found again by parsing
// the row's partition and offset.
module RecordsTable {
  import opened Options
  import opened Sequences
  import opened Sorting
  import opened Decimal
  import opened Strings

  datatype Record = Record(key: string, value: string, timestamp: int, partition: int, offset: int)

  datatype Row = Row(key: string, timestamp: string, partition: string, offset: string)

  // The sort bar of this page offers exactly these four labels.
  datatype Column = ByKey | ByTimestamp | ByPartition | ByOffset

  datatype View = View(term: string, column: Column, ascending: bool)

  // Time.Format and strings.ToLower.
  datatype Text = Text(format: int -> string, lower: string -> string)

  function Cell(r: Row, c: Column): string {
    match c
    case ByKey => r.key
    case ByTimestamp => r.timestamp
    case ByPartition => r.partition
    case ByOffset => r.offset
  }

  function Before(v: View): (Row, Row) -> bool {
    (a, b) => if v.ascending then Less(Cell(a, v.column), Cell(b, v.column)) else Less(Cell(b, v.column), Cell(a, v.column))
  }

  function RowOf(text: Text): Record -> Row {
    (r: Record) => Row(if r.key == "" then "<null>" else r.key, text.format(r.timestamp), FormatInt(r.partition), FormatInt(r.offset))
  }

  function Matching(v: View, text: Text): Record -> bool {
    (r: Record) =>
      v.term == "" || Contains(text.lower(r.key), text.lower(v.term)) || Contains(text.lower(r.value), text.lower(v.term))
  }

  function MatchingRows(records: seq<Record>, v: View, text: Text): seq<Row> {
    Mapped(Filtered(records, Matching(v, text)), RowOf(text))
  }

  // Sorted by the text of the chosen column, and holding the rows of the matching
  // records, rows with equal cells in the records' order.
  ghost predicate IsTable(rows: seq<Row>, records: seq<Record>, v: View, text: Text) {
    Sorted(rows, Before(v)) && StablyPermutes(MatchingRows(records, v, text), rows, Before(v))
  }

  method CreateRows(records: seq<Record>, v: View, text: Text) returns (rows: seq<Row>)
    ensures IsTable(rows, records, v, text)
    ensures forall i, j :: 0 <= i < j < |rows| ==>
              && (v.column == ByKey ==> if v.ascending then !Less(rows[j].key, rows[i].key) else !Less(rows[i].key, rows[j].key))
              && (v.column == ByTimestamp ==>
                    if v.ascending then !Less(rows[j].timestamp, rows[i].timestamp) else !Less(rows[i].timestamp, rows[j].timestamp))
              && (v.column == ByPartition ==>
                    if v.ascending then !Less(rows[j].partition, rows[i].partition) else !Less(rows[i].partition, rows[j].partition))
              && (v.column == ByOffset ==>
                    if v.ascending then !Less(rows[j].offset, rows[i].offset) else !Less(rows[i].offset, rows[j].offset))
    ensures forall row <- rows :: exists rec <- records :: Shows(row, rec, text) && IsFound(rec, v, text)
    ensures forall rec <- records :: IsFound(rec, v, text) ==> exists row <- rows :: Shows(row, rec, text)
  {
    rows := [];
    for i := 0 to |records|
      invariant rows == MatchingRows(records[..i], v, text)
    {
      var rec := records[i];
      assert records[..i + 1] == records[..i] + [rec];
      var key := if rec.key == "" then "<null>" else rec.key;
      if v.term != "" {
        if Contains(text.lower(rec.key), text.lower(v.term)) || Contains(text.lower(rec.value), text.lower(v.term)) {
          rows := rows + [Row(key, text.format(rec.timestamp), FormatInt(rec.partition), FormatInt(rec.offset))];
        }
      } else {
        rows := rows + [Row(key, text.format(rec.timestamp), FormatInt(rec.partition), FormatInt(rec.offset))];
      }
      FilteredSnoc(records[..i], rec, v, text);
    }
    assert records[..|records|] == records;
    SortingMakesTheTable(records, v, text);
    rows := StableSort(rows, Before(v));
    ColumnInOrder(rows, v);
    RowsShowWhatIsFound(rows, records, v, text);
  }

  // The texts of a record's row.
  ghost predicate Shows(row: Row, rec: Record, text: Text) {
    && (rec.key == "" ==> row.key == "<null>") && (rec.key != "" ==> row.key == rec.key)
    && row.timestamp == text.format(rec.timestamp)
    && row.partition == FormatInt(rec.partition) && row.offset == FormatInt(rec.offset)
  }

  // The search finds a record by a part of its key or of its value, in lower case.
  ghost predicate IsFound(rec: Record, v: View, text: Text) {
    || v.term == ""
    || (exists before: string, after: string :: text.lower(rec.key) == before + text.lower(v.term) + after)
    || (exists before: string, after: string :: text.lower(rec.value) == before + text.lower(v.term) + after)
  }

  lemma ColumnInOrder(rows: seq<Row>, v: View)
    requires Sorted(rows, Before(v))
    ensures forall i, j :: 0 <= i < j < |rows| ==>
              && (v.column == ByKey ==> if v.ascending then !Less(rows[j].key, rows[i].key) else !Less(rows[i].key, rows[j].key))
              && (v.column == ByTimestamp ==>
                    if v.ascending then !Less(rows[j].timestamp, rows[i].timestamp) else !Less(rows[i].timestamp, rows[j].timestamp))
              && (v.column == ByPartition ==>
                    if v.ascending then !Less(rows[j].partition, rows[i].partition) else !Less(rows[i].partition, rows[j].partition))
              && (v.column == ByOffset ==>
                    if v.ascending then !Less(rows[j].offset, rows[i].offset) else !Less(rows[i].offset, rows[j].offset))
  {
    forall i, j | 0 <= i < j < |rows|
      ensures if v.ascending then !Less(Cell(rows[j], v.column), Cell(rows[i], v.column))
              else !Less(Cell(rows[i], v.column), Cell(rows[j], v.column))
    {
      assert !Before(v)(rows[j], rows[i]);
    }
  }

  lemma MatchingIff(rec: Record, v: View, text: Text)
    ensures Matching(v, text)(rec) <==> IsFound(rec, v, text)
    ensures Shows(RowOf(text)(rec), rec, text)
  {
    ContainsIff(text.lower(rec.key), text.lower(v.term));
    ContainsIff(text.lower(rec.value), text.lower(v.term));
  }

  lemma RowsShowWhatIsFound(rows: seq<Row>, records: seq<Record>, v: View, text: Text)
    requires IsTable(rows, records, v, text)
    ensures forall row <- rows :: exists rec <- records :: Shows(row, rec, text) && IsFound(rec, v, text)
    ensures forall rec <- records :: IsFound(rec, v, text) ==> exists row <- rows :: Shows(row, rec, text)
  {
    var matching := Filtered(records, Matching(v, text));
    var unsorted := MatchingRows(records, v, text);
    SameMembers(unsorted, rows);
    forall row | row in rows
      ensures exists rec <- records :: Shows(row, rec, text) && IsFound(rec, v, text)
    {
      var i :| 0 <= i < |unsorted| && unsorted[i] == row;
      assert matching[i] in matching;
      MatchingIff(matching[i], v, text);
    }
    forall rec | rec in records && IsFound(rec, v, text)
      ensures exists row <- rows :: Shows(row, rec, text)
    {
      MatchingIff(rec, v, text);
      var i :| 0 <= i < |matching| && matching[i] == rec;
      assert unsorted[i] in unsorted;
    }
  }

  lemma SortingMakesTheTable(records: seq<Record>, v: View, text: Text)
    ensures IsTable(StableSort(MatchingRows(records, v, text), Before(v)), records, v, text)
  {
    BeforeIsAnOrder(v);
    SortIsStable(MatchingRows(records, v, text), Before(v));
  }

  lemma FilteredSnoc(records: seq<Record>, rec: Record, v: View, text: Text)
    ensures MatchingRows(records + [rec], v, text) ==
            MatchingRows(records, v, text) + if Matching(v, text)(rec) then [RowOf(text)(rec)] else []
  {
  }

  lemma BeforeIsAnOrder(v: View)
    ensures StrictWeakOrder(Before(v))
  {
    forall a, b | Before(v)(a, b)
      ensures !Before(v)(b, a)
    {
      if v.ascending {
        LessIsAsymmetric(Cell(a, v.column), Cell(b, v.column));
      } else {
        LessIsAsymmetric(Cell(b, v.column), Cell(a, v.column));
      }
    }
    forall a, b, c | Before(v)(a, c)
      ensures Before(v)(a, b) || Before(v)(b, c)
    {
      if v.ascending {
        LessSplits(Cell(a, v.column), Cell(b, v.column), Cell(c, v.column));
      } else {
        LessSplits(Cell(c, v.column), Cell(b, v.column), Cell(a, v.column));
      }
    }
  }

  // The first record with this partition and offset, as both lookups search it.
  function Find(records: seq<Record>, partition: int, offset: int): (r: Option<nat>)
    ensures r.Some? ==>
              && r.value < |records| && records[r.value].partition == partition && records[r.value].offset == offset
              && forall i :: 0 <= i < r.value ==> !(records[i].partition == partition && records[i].offset == offset)
    ensures r.None? ==> forall rec <- records :: !(rec.partition == partition && rec.offset == offset)
  {
    if records == [] then None
    else if records[0].partition == partition && records[0].offset == offset then Some(0)
    else
      match Find(records[1..], partition, offset)
      case None => None
      case Some(i) => Some(i + 1)
  }

  function IndexBehind(records: seq<Record>, row: Row): Option<nat> {
    Find(records, ParseInt(row.partition, 32), ParseInt(row.offset, 64))
  }

  function RecordBehind(records: seq<Record>): Row -> Option<Record> {
    (row: Row) =>
      match IndexBehind(records, row)
      case None => None
      case Some(i) => Some(records[i])
  }

  // None where the source panics.
  method RecordForRow(records: seq<Record>, row: Row) returns (r: Option<Record>)
    ensures r == RecordBehind(records)(row)
  {
    var offset := ParseInt(row.offset, 64);
    var partition := ParseInt(row.partition, 32);
    for i := 0 to |records|
      invariant forall j :: 0 <= j < i ==> !(records[j].partition == partition && records[j].offset == offset)
    {
      if records[i].partition == partition && records[i].offset == offset {
        assert Find(records, partition, offset) == Some(i);
        return Some(records[i]);
      }
    }
    return None;
  }

  method RecordIndexForRow(records: seq<Record>, row: Row) returns (r: Option<nat>)
    ensures r == IndexBehind(records, row)
  {
    var offset := ParseInt(row.offset, 64);
    var partition := ParseInt(row.partition, 32);
    for i := 0 to |records|
      invariant forall j :: 0 <= j < i ==> !(records[j].partition == partition && records[j].offset == offset)
    {
      if records[i].partition == partition && records[i].offset == offset {
        return Some(i);
      }
    }
    return None;
  }

  // What a read delivers: every (partition, offset) once (see the reader's
  // NoDuplicates), offsets that fit int64 by their type.
  ghost predicate Delivered(records: seq<Record>) {
    && (forall i, j :: 0 <= i < j < |records| ==>
          records[i].partition != records[j].partition || records[i].offset != records[j].offset)
    && forall rec <- records :: Fits(rec.offset, 64)
  }

  // The row of a record leads back to it exactly when its partition fits the 32 bits
  // it is parsed with.
  lemma RowLeadsBackIff(records: seq<Record>, i: nat, text: Text)
    requires Delivered(records) && i < |records|
    ensures IndexBehind(records, RowOf(text)(records[i])) == Some(i) <==> Fits(records[i].partition, 32)
  {
    var rec := records[i];
    ParseOfFormat(rec.partition, 32);
    ParseOfFormat(rec.offset, 64);
    var found := Find(records, rec.partition, rec.offset);
    assert rec in records;
    assert found.Some? && found.value == i;
  }

  lemma MatchLeadsBack(rec: Record, records: seq<Record>, text: Text)
    requires Delivered(records) && rec in records && Fits(rec.partition, 32)
    ensures var i := IndexBehind(records, RowOf(text)(rec)); i.Some? && records[i.value] == rec
  {
    var i :| 0 <= i < |records| && records[i] == rec;
    RowLeadsBackIff(records, i, text);
  }

  ghost predicate LeadsBack(row: Row, records: seq<Record>, v: View, text: Text) {
    var i := IndexBehind(records, row);
    && i.Some? && RecordBehind(records)(row) == Some(records[i.value])
    && RowOf(text)(records[i.value]) == row && Matching(v, text)(records[i.value])
  }

  // With such partitions no row ever panics; both lookups agree, and the looked-up
  // records are the matching ones, each of them once.
  lemma TableLeadsBack(rows: seq<Row>, records: seq<Record>, v: View, text: Text)
    requires IsTable(rows, records, v, text) && Delivered(records)
    requires forall rec <- records :: Fits(rec.partition, 32)
    ensures forall row <- rows :: LeadsBack(row, records, v, text)
    ensures multiset(Mapped(rows, RecordBehind(records))) == multiset(Mapped(Filtered(records, Matching(v, text)), (r: Record) => Some(r)))
  {
    var unsorted := MatchingRows(records, v, text);
    MatchingRowsLeadBack(records, v, text);
    forall row | row in rows
      ensures LeadsBack(row, records, v, text)
    {
      assert row in multiset(rows) && row in multiset(unsorted);
    }
    MappedMultiset(rows, unsorted, RecordBehind(records));
  }

  lemma {:induction false} MatchingRowsLeadBack(records: seq<Record>, v: View, text: Text)
    requires Delivered(records) && forall rec <- records :: Fits(rec.partition, 32)
    ensures forall row <- MatchingRows(records, v, text) :: LeadsBack(row, records, v, text)
    ensures Mapped(MatchingRows(records, v, text), RecordBehind(records)) ==
            Mapped(Filtered(records, Matching(v, text)), (r: Record) => Some(r))
  {
    var matching := Filtered(records, Matching(v, text));
    var unsorted := MatchingRows(records, v, text);
    forall k: nat | k < |matching|
      ensures LeadsBack(unsorted[k], records, v, text) && RecordBehind(records)(unsorted[k]) == Some(matching[k])
    {
      assert matching[k] in matching;
      MatchLeadsBack(matching[k], records, text);
    }
  }

  datatype Opened = Ignored | Panicked | Details(record: Record, index: nat)

  class Model {
    var records: seq<Record>
    var rows: seq<Row>

    constructor ()
      ensures records == [] && rows == []
    {
      records, rows := [], [];
    }

    // Update on ConsumerRecordReceived.
    method Receive(received: seq<Record>, v: View, text: Text)
      modifies this
      ensures records == old(records) + received
      ensures IsTable(rows, records, v, text)
    {
      records := records + received;
      rows := CreateRows(records, v, text);
    }

    // Update on enter, with the table focussed.
    method Enter(cursor: int, v: View, text: Text) returns (r: Opened)
      requires IsTable(rows, records, v, text) && Delivered(records) && forall rec <- records :: Fits(rec.partition, 32)
      ensures r.Ignored? <==> records == []
      ensures r.Panicked? <==> records != [] && !(0 <= cursor < |rows|)
      ensures r.Details? ==>
                r.index < |records| && records[r.index] == r.record && RowOf(text)(r.record) == rows[cursor]
    {
      if |records| == 0 {
        return Ignored;
      }
      if !(0 <= cursor < |rows|) {
        return Panicked;
      }
      var selectedRow := rows[cursor];
      assert selectedRow in rows;
      TableLeadsBack(rows, records, v, text);
      assert LeadsBack(selectedRow, records, v, text);
      var selectedRecord := RecordForRow(records, selectedRow);
      var recordIndex := RecordIndexForRow(records, selectedRow);
      return Details(selectedRecord.value, recordIndex.value);
    }
  }
}
