// The sequential part of doReadRecords and the shutdown it shares with the closer:
// kadmin/record_reader.go, before and after the workers run.
module ReaderSetup {
  import opened Options
  import opened ReadingWindows
  import opened ReaderDelivery

  // -1 stands for "no record for the requested start"; an empty map has none either.
  predicate NoRecordsFound(offsets: map<int, Offsets>) {
    forall p <- offsets :: offsets[p].start == -1
  }

  // The channels handed to the receiver. Sending on a closed channel or closing it
  // again panics; after a panic the program is gone and nothing else matters.
  class ReadingStarted {
    var recordsClosed: bool
    var errorsClosed: bool
    var emptyTopicClosed: bool
    var noRecordsClosed: bool
    var cancelled: bool
    var errors: nat
    var emptyTopics: nat
    var noRecords: nat
    var panicked: bool

    constructor ()
      ensures !recordsClosed && !errorsClosed && !emptyTopicClosed && !noRecordsClosed
      ensures !cancelled && !panicked && errors == emptyTopics == noRecords == 0
    {
      recordsClosed, errorsClosed, emptyTopicClosed, noRecordsClosed := false, false, false, false;
      cancelled, panicked := false, false;
      errors, emptyTopics, noRecords := 0, 0, 0;
    }

    predicate AllOpen()
      reads this
    {
      !recordsClosed && !errorsClosed && !emptyTopicClosed && !noRecordsClosed
    }

    predicate AllClosed()
      reads this
    {
      recordsClosed && errorsClosed && emptyTopicClosed && noRecordsClosed
    }

    method Shutdown()
      modifies this
      ensures cancelled && AllClosed()
      ensures panicked == (old(panicked) || !old(AllOpen()))
      ensures errors == old(errors) && emptyTopics == old(emptyTopics) && noRecords == old(noRecords)
    {
      cancelled := true;
      panicked := panicked || recordsClosed;
      recordsClosed := true;
      panicked := panicked || errorsClosed;
      errorsClosed := true;
      panicked := panicked || emptyTopicClosed;
      emptyTopicClosed := true;
      panicked := panicked || noRecordsClosed;
      noRecordsClosed := true;
    }

    // Everything doReadRecords does itself. It returns the partitions it started a
    // worker for and whether it went on to start the closer. A worker of a read
    // without a consumer dereferences nil.
    method Prepare(consumerCreated: bool, fetched: Option<map<int, Offsets>>, partitions: seq<int>, startPoint: StartPoint)
      returns (started: seq<int>, closerStarted: bool)
      requires AllOpen() && !cancelled && !panicked && errors == emptyTopics == noRecords == 0
      requires fetched.Some? ==> forall p <- partitions :: p in fetched.value
      modifies this
      // no setup survives a consumer that could not be created
      ensures panicked <==> !consumerCreated
      ensures consumerCreated ==>
                && errors == (if fetched.None? then 1 else 0)
                && noRecords == (if fetched.None? || NoRecordsFound(fetched.value) then 1 else 0)
                && closerStarted == (fetched.Some? && !NoRecordsFound(fetched.value))
                && started == (if closerStarted then Selected(startPoint, partitions, fetched.value) else [])
                && emptyTopics == (if closerStarted && started == [] then 1 else 0)
                && cancelled == !closerStarted
                && recordsClosed == errorsClosed == fetched.None?
                && !emptyTopicClosed && !noRecordsClosed
                && (closerStarted ==> AllOpen())
                && (closerStarted <==> fetched.Some? && exists p <- fetched.value :: fetched.value[p].start != -1)
    {
      started, closerStarted := [], false;
      if !consumerCreated {
        Shutdown();
      }
      var offsets: map<int, Offsets> := map[];
      if fetched.None? {
        panicked := panicked || errorsClosed;
        errors := errors + 1;
        panicked := panicked || recordsClosed;
        recordsClosed := true;
        panicked := panicked || errorsClosed;
        errorsClosed := true;
        cancelled := true;
      } else {
        offsets := fetched.value;
      }
      if NoRecordsFound(offsets) {
        cancelled := true;
        panicked := panicked || noRecordsClosed;
        noRecords := noRecords + 1;
        return;
      }
      var emptyTopic := true;
      for i := 0 to |partitions|
        invariant started == Selected(startPoint, partitions[..i], offsets)
        invariant emptyTopic == (started == [])
        invariant panicked == (old(panicked) || (!consumerCreated && started != []))
        invariant errors == emptyTopics == noRecords == 0
        invariant cancelled == !consumerCreated
        invariant if consumerCreated then AllOpen() else AllClosed()
      {
        var p := partitions[i];
        assert partitions[..i + 1][..i] == partitions[..i];
        if offsets[p].end != offsets[p].start || startPoint == Live {
          emptyTopic := false;
          panicked := panicked || !consumerCreated;
          started := started + [p];
        }
      }
      assert partitions[..|partitions|] == partitions;
      if emptyTopic {
        panicked := panicked || emptyTopicClosed;
        emptyTopics := emptyTopics + 1;
      }
      closerStarted := true;
    }
  }
}
