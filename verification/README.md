# ktea, verified parts

ktea is a terminal user interface for Apache Kafka, Schema Registry and Kafka Connect. This
Dafny project models the parts of it that carry state, concurrency or a round trip, and proves
what they keep. `dafny verify dfyconfig.toml` checks all of it.

## What is modelled

**The concurrent record reader** (`kadmin/record_reader.go`). `RecordReader` is a labelled step
system: one worker a partition with its program counter, the launching loop, the atomic counter,
the bounded record channel, the error channel of capacity one, the cancel context, the wait group
and the closing goroutine. The environment may take a record or an error, cancel, and make a
broker call fail at any point. A run is any sequence of enabled steps (`After`), so every lemma
about `After(r, actions)` is about every interleaving. Sending on a closed channel and closing one
twice are transitions to a panicked state, and the safety proof shows no run gets there.
`ReadingWindows` is the window arithmetic underneath, `RecordFilters` the filter, `ReaderSetup`
the sequential part of `doReadRecords`. `ReaderSafety` holds the inductive invariant and the
safety results, `ReaderTermination` the measure and the absence of deadlocks, `ReaderDelivery`
composes protocol and windows into what a read delivers and when it ends, `ReaderRefusals` follows a
read one of whose consumers is refused, `ReaderFailures` says how far any other failure reaches, and
`ReaderOverruns` says exactly which messages a read can
deliver, hence when it leaves a window, and that the bound on its limit is attained. What the broker
sends a worker is its `feed`, any finite list of messages; the lemmas about windows ask for a dense
log.

**The fan-outs** (`OffsetFetcher`, `OffsetLister`, `SubjectLister`, `VersionsLister`). A goroutine
of the first three has one shared effect (a map write under the mutex, an append under the mutex, a
slot of its own or a send into the buffered error channel), so an interleaving is the order of
these effects: the `schedule` parameter, which may be any order. `VersionsLister` has a live
receiver and a closer besides the senders and is a step system like the reader.

**The cluster registry and its forms** (`ClusterRegistry`, `ConnectForm`, `ClusterForm`). The
class `Config` is proved against functions on the cluster list, these refine an abstract map of
settings by name plus one active name, and `Allowed` is the exact condition under which a command
keeps the configuration valid. The forms go from a stored cluster to the form fields, to a
registration, and back through the registry; credentials that are pointers into a form are kept as
such.

**The consumption table** (`RecordsTable`, with `Decimal` and `Sorting`) shows records as text and
finds the record behind a row by parsing that text again.

**The consumer-group page** (`OffsetsPage`, `GroupOffsets`) groups the listed offsets by topic.

**The command bars** (`CommandBars`, `CommandBarRuns`, `SubjectsBars`): the search, delete and sort
bar, the table bar that gives one of them the keys, and the subjects page's fourth bar on top.
`CommandBarKeys` says key by key what each of them does.

**Deleting while ranging** (`InPlaceRemoval`): the loop that shifts a slice in its own backing
array while the range still runs over the original length.

**The schema-id frame** (`SchemaFrame`): the "Wire format" section of the Confluent Schema
Registry documentation.

Foreign calls are parameters: each broker or registry answer is an arbitrary function, and so are
`strings.ToLower`, `Time.Format`, `humanize.Comma`, what a text input makes of a key, what a
confirm widget makes of a key and whether it is then done with it, and a delete bar's validation. As
an offset to start from, -1 is Sarama's `OffsetNewest`; otherwise its consumer takes the offsets the
log holds and the next one, and refuses the rest (`ConsumerTakes`). `sort.SliceStable` stands for the function
`StableSort`; `IsTheStableSort` says that nothing else is sorted and stable.

## Where the code does not do what one might expect

These are results, each with the exact condition, or a concrete run, that shows it.

- The limit is not strict: a read with `W` workers and limit `L` can deliver `max(L-1, 0) + W`
  records, and that is attained for every `L` and `W` (`SentAtMost`, `LimitBoundIsTight`).
- A read of one partition for the most recent records starts one record early: it misses the newest
  one exactly when more than `L` are available, without a filter and with one that drops nothing
  (`OnePartitionRead`).
- The end check is an equality that filtered-out records skip: a filtered read from another start
  point than the most recent records does not end by itself exactly when some window's last record
  does not pass the filter, and it leaves that window when a later record does
  (`EveryWorkerEndsAtItsWindow`, `ReadEndsIff`, `StaysInWindowIff`).
- From the beginning with a limit below the number of partitions, no partition of two records or
  more ever stops (`ShareOfNothingNeverStops`).
- A start offset of -1 does not keep a partition from being read, next to one where something was
  found. If its log holds more than the share, its newest records are read. If it never had more, the
  -1 goes to the consumer, for which it is the end of the log, and the read does not close by itself.
  In between, on a log that was shortened, the start is no longer held: the consumer refuses it and
  the whole read is cancelled (`NothingFoundIsReadIff`, `NothingFoundWaits`, `RefusedReadsEnd`).
- After a consumer that could not be created the setup goes on, and always panics (`Prepare`).
- A value search next to any key filter other than "none" has no effect (`ValueSearchIsDeadIff`).
- Renaming a cluster to a used name, or switching to an unknown one, breaks the configuration
  (`StaysValidIff`). Saving a renamed cluster twice adds a second one under the old name, because
  the confirmation carries the name it was registered by (`SaveAgainIff`). On the cluster tab the
  validation of the name stops that second save; the registry and connect tabs do not look at it
  (`NameAcceptedAgainIff`). A rename of a cluster that was deleted meanwhile registers it under its old
  name (`AcceptedSavesAreSafe`).
- Creating a connect cluster after an edit overwrites the edited one. Registering twice adds a
  created cluster twice, and a renamed one a second time, and a deleted one comes back with the next
  save: the form keeps its values and the previous name (`CreateAppendsIff`, `CreateAfterEdit`,
  `RegisterAgainIff`, `DeletedComesBackIff`).
- A registered connect cluster's user name and password are pointers into the connect form, on the
  page and in the configuration: opening, creating or typing another entry changes them
  (`FormChangeKeepsIff`, `EditUnchangedIff`, `EditOneThenAnother`, `ConfigOutlivesTheFormIff`).
- Deleting while ranging skips the second of two neighbours of the name and can slice out of range
  when names repeat (`RemovesExactlyTheNamedIff`, `DuplicatesCanPanic`).
- The total lag adds the marker of partitions whose watermark is unknown; modulo 2^64 two markers
  cancel, so the total is right exactly when their number is even (`TotalLagIff`). A search that
  matches no topic leaves no first row to select (`RecreateOffsetRows`).
- A row of the consumption table leads back to its record exactly when the partition fits 32 bits
  (`RowLeadsBackIff`).
- `TableCmdsBar` opens the delete bar on F2, whatever key that bar was made with; at most one bar
  is open after every run exactly when that key is F2 (`AlwaysExclusiveIff`). Every page makes its
  table bar with F2; another key can only come through the constructor.
- Only enter resets a delete bar's confirmation: accept, escape, open the bar on another element and
  press enter, and that one is deleted (`DeletesUnaskedIff`, `ConfirmationOutlivesItsBar`).

The comment on `RegisterCluster` (`config/config.go:153`) speaks of an "active param"; the code has
none, and the model follows the code.

## Model

| member | source | states |
|---|---|---|
| `ReadingWindows.WindowOfAPartition` | kadmin/record_reader.go:518-581 | with 0 <= start < end and a window at all, it lies inside [start, end-1]; otherwise than from the beginning: exactly min(share+1, end-start) offsets ending at end-1; beginning: from start, share offsets or all of them |
| `ReadingWindows.WindowNonEmptyIff` | kadmin/record_reader.go:532-580 | for any limit, any start, -1 included, and any oldest offset the log still holds, exactly when the window is not empty and lies inside what is held |
| `ReadingWindows.StartIsTakenIff` | kadmin/record_reader.go:382-392 | for the same inputs, exactly when the consumer takes the start offset |
| `ReadingWindows.NothingFoundIsReadIff` | kadmin/record_reader.go:552-564 | a start of -1: the newest share+1 records are the window if and only if the log holds that many; the -1 itself is the start if and only if the share exceeds the newest offset; in between, and only there, the consumer refuses the start |
| `ReadingWindows.WindowsTotal` | kadmin/record_reader.go:518-581 | any list of at most P such windows covers at least one offset each and at most max(L,0)+P offsets in all |
| `ReadingWindows.ShareIff` | kadmin/record_reader.go:530-532 | the share of a limit of zero or more is the largest number whose multiple by the partitions is within the limit; when it is not negative, and when it is at least one |
| `RecordFilters.ValueSearchIsDeadIff` | kadmin/record_reader.go:490-504 | the value never matters to the filter if and only if the key filter is not "none" or no value is searched for |
| `RecordFilters.AcceptsEverythingIff` | kadmin/record_reader.go:490-504 | which filters let every message through: none, an unfilled one, and those that search for the empty string |
| `RecordFilters.StartsWithIff` | kadmin/record_reader.go:25-34 | "starts with" lets a decoded message through if and only if its key is the term followed by anything |
| `RecordFilters.ContainsIff` | kadmin/record_reader.go:25-34 | "contains" lets it through if and only if its key is the term with anything before and after it |
| `RecordFilters.ValueSearchIff` | kadmin/record_reader.go:490-504 | without a key filter the value search lets it through if and only if the value is the term with anything before and after it |
| `RecordFilters.FailuresPass` | kadmin/record_reader.go:416-426 | a message that could not be deserialised passes every filter, and the offset never matters |
| `RecordFilters.UnsetFilterAcceptsAll` | kadmin/record_reader.go:25-34 | a key filter of the empty string lets every message through, whatever the value search says |
| `ReaderSetup.ReadingStarted.Shutdown` | kadmin/record_reader.go:124-130 | afterwards the read is cancelled and all four channels are closed; it panics if and only if one was closed before |
| `ReaderSetup.ReadingStarted.Prepare` | kadmin/record_reader.go:331-478 | the setup panics if and only if the consumer could not be created; otherwise which message is sent, which channels are closed, which partitions get a worker and whether a closer is started, for each outcome of the offset fetch |
| `ReaderSafety.StepKeepsInvariant` | kadmin/record_reader.go:368-477 | every step of workers, launcher, closer and environment keeps the reader's invariant |
| `ReaderSafety.ChannelsCloseOnceAndLast` | kadmin/record_reader.go:473-477 | in every run nothing is sent on a closed channel and no channel is closed twice; they close only after every worker was started and returned, records before errors |
| `ReaderSafety.SentAtMost` | kadmin/record_reader.go:438-451 | over every interleaving at most max(L-1,0)+W records enter the channel, and at most L for one worker and L >= 1 |
| `ReaderSafety.HistoryInterleavesPrefixes` | kadmin/record_reader.go:398-464 | the channel's history, split by worker, is exactly each partition's accepted messages below that worker's position, in order |
| `ReaderSafety.NoDuplicates` | kadmin/record_reader.go:368-465 | with distinct partitions no (partition, offset) is delivered twice, in any run |
| `ReaderTermination.StepDecreasesMeasure` | kadmin/record_reader.go:368-477 | every step strictly decreases a measure of program counters, messages left, buffered records, errors and the closer's progress |
| `ReaderTermination.RunsAreFinite` | kadmin/record_reader.go:398-477 | no run is longer than the measure of its start |
| `ReaderTermination.StuckRunsHaveEnded` | kadmin/record_reader.go:453-477 | a run that cannot go on by itself has ended: all workers returned, both channels closed, everything sent was received |
| `ReaderTermination.WithoutStopNeverCloses` | kadmin/record_reader.go:418-462 | a worker whose feed holds no message its end check stops at keeps the channels open unless the read is cancelled, fails or hits its limit |
| `ReaderDelivery.SelectedOnes` | kadmin/record_reader.go:368-373 | a worker is started for exactly the requested partitions that hold records, all of them when live, and for none twice if none is requested twice |
| `ReaderDelivery.StopsAtWindowEndIff` | kadmin/record_reader.go:418-462 | on a dense log nothing stops the worker before its window's last offset, and that one does if and only if the read is for the most recent records or accepts it |
| `ReaderDelivery.StaysInWindow` | kadmin/record_reader.go:453-462 | workers that end at their windows never deliver an offset outside them, in any state of any run |
| `ReaderDelivery.FullReadDelivers` | kadmin/record_reader.go:398-464 | an undisturbed read that ended below its limit delivered from every worker exactly the accepted messages up to the first one its end check stops at |
| `ReaderDelivery.DistinctRequestsAreDistinctJobs` | kadmin/record_reader.go:368-371 | distinct requested partitions give workers of distinct partitions |
| `ReaderDelivery.EveryWorkerHasAWindowIff` | kadmin/record_reader.go:368-387 | in terms of the request, the reported offsets and what the logs hold, exactly when every worker's window is not empty and held by its log |
| `ReaderDelivery.EveryWorkerEndsAtItsWindow` | kadmin/record_reader.go:375-465 | for any filter and any start point but live: a worker with a window, on a dense log, ends at it, and stops at all, if and only if the read is for the most recent records or the window's last record passes the filter |
| `ReaderDelivery.AcceptingReadsSeeTheirEnds` | kadmin/record_reader.go:418-426 | that holds for every worker when nothing is filtered out: without a filter, with an unfilled one, or with one all messages match |
| `ReaderDelivery.ReadDeliversTheWindows` | kadmin/record_reader.go:331-478 | a read whose workers all see their window's end, left alone, ends with its channels closed; undisturbed and below the limit the receiver got exactly the accepted records of every window |
| `ReaderDelivery.ReadEndsIff` | kadmin/record_reader.go:398-477 | for every limit, windows empty or not: undisturbed and below the limit, a read that took all its steps has ended if and only if every worker stops by itself: it sees its window's end or, without a window, drops a message of a read for the most recent records |
| `ReaderDelivery.ShareOfNothingNeverStops` | kadmin/record_reader.go:566-581 | from the beginning with a limit below the number of partitions, a partition of two records or more gets an empty window and its worker never stops by itself |
| `ReaderDelivery.BeyondTheWindowStopsIff` | kadmin/record_reader.go:418-462 | a worker that only gets messages from beyond its window stops if and only if the read is for the most recent records and drops one of them |
| `ReaderDelivery.NothingFoundWaits` | kadmin/record_reader.go:382-386 | a partition read from the -1 itself keeps the channels open, whatever is written to it, unless the read is cancelled, fails or reaches its limit; for the most recent records as long as nothing written is filtered out |
| `ReaderDelivery.LiveStartsAtTheEnd` | kadmin/record_reader.go:518-528 | a live read starts a worker for every requested partition, empty or not, and each starts at the end its log had |
| `ReaderDelivery.LiveDeliversOnlyNewRecords` | kadmin/record_reader.go:368-465 | on a log dense from there, no run of a live read delivers a record that was there before it |
| `ReaderDelivery.LiveNeverStops` | kadmin/record_reader.go:453-462 | with any filter nothing stops a live worker, so its channels close only after a cancellation, a failure or at the limit |
| `ReaderDelivery.OnePartitionRead` | kadmin/record_reader.go:438-580 | a read of one partition that filters nothing out delivers exactly min(L, end-start) consecutive offsets from start, or from max(end-1-L, start); the newest is among them if and only if there are no more than L |
| `ReaderDelivery.SoleReadIsReadOf` | kadmin/record_reader.go:368-387 | the read of one partition is what the launching loop starts for it |
| `ReaderRefusals.RefusalAborts` | kadmin/record_reader.go:389-393 | in every run in which a worker's consumer is never opened, its partition delivers nothing, and the channels only close on a read that reported an error and was cancelled |
| `ReaderRefusals.RefusedReadsEnd` | kadmin/record_reader.go:389-477 | such a read, left alone, always comes to its end, as a cancelled one, whatever the other partitions hold |
| `ReaderRefusals.RefusesItsStartIff` | kadmin/record_reader.go:376-388 | a worker whose partition held nothing for the requested start is refused if and only if its log had more than the share but holds no more than it |
| `ReaderFailures.StepsAreTheirOwn` | kadmin/record_reader.go:398-465 | no step of a worker moves another one, and only the abort after a failed start touches the context |
| `ReaderFailures.ConsumerErrorIsFinal` | kadmin/record_reader.go:400-403 | in every run a worker that saw a consumer error takes no other step than reporting it |
| `ReaderFailures.OthersGoOn` | kadmin/record_reader.go:398-465 | whatever errors other consumers report: undisturbed by a cancellation or a failed start, a read that ended below its limit delivered from every worker without an error of its own exactly the accepted messages up to the one it stops at |
| `ReaderFailures.AbortedOnlyBy` | kadmin/record_reader.go:389-393 | in every run, a read is only ever cancelled by the user or by a consumer that could not be opened |
| `ReaderFailures.CancelledReadsEnd` | kadmin/record_reader.go:404-477 | once cancelled, a read left alone comes to its end, whatever the logs hold and whether or not anything would have stopped its workers |
| `ReaderFailures.ChannelsNeverOverflow` | kadmin/record_reader.go:319-324 | in every run at most one record a requested partition and one error wait in the channels |
| `ReaderFailures.SendWaitsIff` | kadmin/record_reader.go:438-451 | in every run a worker about to send waits if and only if as many records wait as partitions were requested, and one about to report if and only if an error does |
| `ReaderOverruns.CanBeDeliveredIff` | kadmin/record_reader.go:398-464 | for any logs, filter, limit and number of partitions: some run delivers a message if and only if it is accepted, nothing before it stops its worker, and fewer accepted messages than the limit, or than one, precede it in its partition |
| `ReaderOverruns.OwnStaysWithinLimit` | kadmin/record_reader.go:438-451 | in every run no worker alone counts past the limit, or past one |
| `ReaderOverruns.StaysInWindowIff` | kadmin/record_reader.go:418-462 | the exact guard, worker by worker, under which a read of any number of partitions never delivers past a window, filters included |
| `ReaderOverruns.LimitBoundIsTight` | kadmin/record_reader.go:438-451 | for every limit and number of partitions some run puts max(L-1,0)+W records on the channel |
| `OffsetFetcher.FetchOffsets` | kadmin/record_reader.go:583-647 | in every order: no goroutine finds the error channel full, an error if and only if some fetch failed, and then of one that did; otherwise exactly the requested partitions with their own offsets |
| `OffsetLister.DoListOffsets` | kadmin/offset_lister.go:61-108 | in every order exactly one entry a committed (topic, partition), with its committed offset; with a watermark that watermark, and offset + lag is the watermark; without one the error marker for both |
| `OffsetLister.LagIsTheMarkerIff` | kadmin/offset_lister.go:83-90 | the lag equals the marker if and only if the watermark could not be fetched, and never overflows int64 |
| `SubjectLister.DefaultSrClient.Fetch` | sradmin/subject_lister.go:93-110 | one goroutine writes its own slot only, or reports its own failure |
| `SubjectLister.DefaultSrClient.DoListSubject` | sradmin/subject_lister.go:58-134 | in every order: it succeeds if and only if everything was answered, with each name's own versions and compatibility in the order of the names; a reported error is a real one; no goroutine blocks; the cache changes only on success |
| `SubjectLister.GoroutineCount` | sradmin/subject_lister.go:86-110 | at most two goroutines a subject, the size of the error buffer |
| `VersionsLister.StepKeepsInvariant` | sradmin/versions_lister.go:26-76 | every step keeps the bookkeeping of sent and unsent versions and decreases a measure |
| `VersionsLister.NobodyBlocks` | sradmin/versions_lister.go:26-76 | in every run no sender ever waits or finds the channel closed, the receiver never sees it closed, and until it has returned some step is possible |
| `VersionsLister.OneSchemaAVersion` | sradmin/versions_lister.go:26-76 | the returned listing holds exactly one schema, or error, a requested version, as a multiset |
| `ClusterRegistry.Config.RegisterCluster` | config/config.go:157-189 | replaces the first cluster of that name, keeping its active flag and applying the new name, or appends; the first cluster ever becomes active |
| `ClusterRegistry.Config.SwitchCluster` | config/config.go:254-270 | exactly the clusters of that name are active afterwards; it returns one if there is one |
| `ClusterRegistry.Config.DeleteCluster` | config/config.go:272-301 | removes the first cluster of that name and activates the new first one if the removed one was active |
| `ClusterRegistry.Config.DeleteKafkaConnectCluster` | config/config.go:126-139 | from the first cluster of that name that has such a connect cluster all those of the name go, every other one stays as often and in the order it was, and nothing else changes; says whether there was one |
| `ClusterRegistry.Config.DeleteConnect` | config/config.go:141-149 | no entry of that name is left; every other one is, as often and in the order it was |
| `ClusterRegistry.DeletesTheNamedOne` | config/config.go:141-149 | the only entry of a name goes from between the others, and those before and after it stay |
| `ClusterRegistry.Config.ActiveCluster` | config/config.go:234-244 | the first active cluster, else the first one |
| `ClusterRegistry.Config.FindClusterByName` | config/config.go:303-310 | the first cluster of that name |
| `ClusterRegistry.StaysValidIff` | config/config.go:157-301 | a command keeps names unique and exactly one cluster active if and only if it renames to no used name and switches to an existing one |
| `ClusterRegistry.RunsStayValid` | config/config.go:126-301 | that holds after every run of allowed commands |
| `ClusterRegistry.LookupsReadTheRegistry` | config/config.go:234-310 | both lookups are reads of the abstract map and active name |
| `ClusterRegistry.CommandsRefine` | config/config.go:126-301 | every allowed command acts on the abstract map and active name as it should; deleting a connect cluster takes exactly the entries of its name out of one cluster |
| `ClusterRegistry.RegisteringReplaces` | config/config.go:157-189 | a registration of a known name replaces the first cluster of it, in its place and with its active flag, by one with the registered settings and the new name if there is one |
| `ClusterRegistry.RegisteringAppends` | config/config.go:157-189 | one of an unknown name appends a cluster with the registered settings, active if and only if it is the first |
| `ClusterRegistry.DeletingLeavesTheOthers` | config/config.go:272-301 | a deletion leaves the clusters before and after in their places, unchanged but that the first of them becomes active if the deleted one was |
| `ClusterRegistry.DeletingNobody` | config/config.go:272-301 | deleting an unknown name changes nothing |
| `ClusterRegistry.AddThenDeleteConnect` | config/config.go:126-149 | adding a fresh connect cluster and deleting it by name restores the configuration |
| `ConnectForm.UpsertKcModel.NewEntry` | ui/pages/create_cluster_page/upsert_kcon.go:107-110 | clears the form but for the previous name; the list reads as before if and only if no entry points to a credential that was filled in |
| `ConnectForm.UpsertKcModel.EditEntry` | ui/pages/create_cluster_page/upsert_kcon.go:111-139 | fills the form from the first cluster of that name, or finds none and leaves it; the list reads as before if and only if no entry points to a credential that changed |
| `ConnectForm.UpsertKcModel.Fill` | ui/pages/create_cluster_page/upsert_kcon.go:264-276 | typing changes the form, and the entries that point into it, by the same condition |
| `ConnectForm.FormChangeKeepsIff` | ui/pages/create_cluster_page/upsert_kcon.go:47-61 | a change of the form leaves a list alone if and only if no entry points to a user name or password that changes |
| `ConnectForm.OneCallAgrees` | ui/pages/create_cluster_page/upsert_kcon.go:207-239 | while the form stays, pointers into it and texts give the same registration |
| `ConnectForm.UpsertKcModel.ClusterRegistered` | ui/pages/create_cluster_page/upsert_kcon.go:145-149 | takes over the registered list and keeps the form |
| `ConnectForm.UpsertKcModel.ClusterDetails` | ui/pages/create_cluster_page/upsert_kcon.go:207-239 | the loop with its updated flag computes the list with the entry, credentials as pointers into the form, replaced or appended |
| `ConnectForm.EditReplacesInPlace` | ui/pages/create_cluster_page/upsert_kcon.go:207-227 | with distinct names an edit replaces exactly the entry it was opened on; the others read as before it was opened if and only if none points to a credential that changed since |
| `ConnectForm.EditUnchangedIff` | ui/pages/create_cluster_page/upsert_kcon.go:117-137 | an unchanged edit changes nothing if and only if neither credential of the entry is an empty text and no other entry points to one that opening it has changed |
| `ConnectForm.RegisterUnchanged` | ui/pages/create_cluster_page/upsert_kcon.go:111-239 | the same of the two calls that do it |
| `ConnectForm.EditOneThenAnother` | ui/pages/create_cluster_page/upsert_kcon.go:111-239 | giving one cluster a user name and then registering another one unchanged gives the first the user name of the second |
| `ConnectForm.CreateAppendsIff` | ui/pages/create_cluster_page/upsert_kcon.go:229-236 | one call appends exactly one entry if and only if it has a name and no cluster still has the name last opened for edit |
| `ConnectForm.CreateKeepsTheOthersIff` | ui/pages/create_cluster_page/upsert_kcon.go:229-236 | and the list before it reads as it did before the form was filled in if and only if no entry points to a credential that changed |
| `ConnectForm.CreateAfterEdit` | ui/pages/create_cluster_page/upsert_kcon.go:200-239 | with distinct names an edit followed by a create of anything overwrites the edited cluster; the others read as before if and only if none points to a credential that changed |
| `ConnectForm.RegisterAgainIff` | ui/pages/create_cluster_page/upsert_kcon.go:145-149 | for any list and a form left as it is, registering again leaves the list alone if and only if no name is entered or it is the one last opened for edit |
| `ClusterForm.Model.NewEdit` | ui/pages/create_cluster_page/upsert_cluster_page.go:859-923 | the field by field prefill |
| `ClusterForm.FormShowsTheCluster` | ui/pages/create_cluster_page/upsert_cluster_page.go:859-923 | for any cluster the form opened on it shows each of its settings, as far as they are enabled, and the next save starts from its name |
| `ClusterForm.ClusterIsAsEntered` | ui/pages/create_cluster_page/upsert_cluster_page.go:459-509 | for any page the registered cluster has each setting as entered, none of a kind that is switched off, and a rename if and only if the name entered differs from the one the page was opened on |
| `ClusterForm.CreatingAppends` | ui/pages/create_cluster_page/upsert_cluster_page.go:459-464 | a page that was not opened for edit, with a name that is new, appends the cluster it describes |
| `ClusterForm.Model.GetRegistrationDetails` | ui/pages/create_cluster_page/upsert_cluster_page.go:459-509 | the registration a page stands for, and the pointers its connect clusters are made of |
| `ClusterForm.Model.ClusterRegistered` | ui/pages/create_cluster_page/upsert_cluster_page.go:236-258 | the name the next save starts from changes and, on the connect tab, the page's connect clusters |
| `ClusterForm.Model.Save` | ui/pages/create_cluster_page/upsert_cluster_page.go:236-258 | a save through the registry, from the page's registration to the page after the confirmation |
| `ClusterForm.TlsRoundTripIff` | ui/pages/create_cluster_page/upsert_cluster_page.go:112-130 | a TLS configuration survives the form if and only if it has no fields when off and no CA path when verification is skipped |
| `ClusterForm.NormalisationIff` | ui/pages/create_cluster_page/upsert_cluster_page.go:459-509 | open and register unchanged is an idempotent normalisation whose fixed points are exactly the normal clusters |
| `ClusterForm.SaveUnchangedIff` | ui/pages/create_cluster_page/upsert_cluster_page.go:848-930 | through the registry it leaves the whole configuration identical if and only if the cluster is normal |
| `ClusterForm.AddConnectThenDelete` | ui/pages/create_cluster_page/upsert_cluster_page.go:506-508 | registering a fresh connect cluster through the page and deleting it by name restores the configuration |
| `ClusterForm.SaveAgainIff` | ui/pages/create_cluster_page/upsert_cluster_page.go:236-258 | for any page contents, a second save changes nothing if and only if the first was no rename and, from the connect tab, the connect form registers no name or the one it was opened on; after a rename it adds a cluster of the old name |
| `ClusterForm.NameAcceptedAgainIff` | ui/pages/create_cluster_page/upsert_cluster_page.go:543-559 | after a save the name field passes its validation again if and only if the save was no rename, so the cluster tab never gets to that second save |
| `ClusterForm.AcceptedSavesAreSafe` | ui/pages/create_cluster_page/upsert_cluster_page.go:543-559 | a save whose name passes the validation keeps the configuration valid and every cluster but the one the page was opened on; the name is registered afterwards if and only if it is no rename of a cluster that is gone |
| `ClusterForm.ConfigOutlivesTheFormIff` | config/config.go:220-229 | the registered cluster keeps the pointers: once the connect form changes, the configuration reads as it was registered if and only if no connect cluster points to a credential that changed |
| `ClusterForm.DeletedComesBackIff` | ui/pages/create_cluster_page/upsert_kcon.go:150-161 | after a connect cluster was deleted the next save, from any tab, brings it back if and only if the connect form still holds its name |
| `Decimal.ParseOfFormat` | ui/pages/consume_page/consume_page.go:143-144 | printing any integer and parsing it with a bit size gives the nearest value of that size |
| `Decimal.RoundTripIff` | ui/pages/consume_page/consume_page.go:155-156 | the round trip is exact if and only if the integer fits the bit size |
| `Decimal.DecimalText` | ui/pages/consume_page/consume_page.go:184-185 | a number's text is decimal digits without a leading zero, the last one the remainder by ten and those before it the text of the quotient, after a minus sign if it is negative |
| `Sorting.SortIsStable` | ui/pages/consume_page/consume_page.go:203-222 | the sort yields a sorted permutation that keeps the order of equal elements |
| `Sorting.IsTheStableSort` | ui/pages/consume_page/consume_page.go:203-222 | any sorted, stable permutation is that one |
| `RecordsTable.CreateRows` | ui/pages/consume_page/consume_page.go:166-225 | for any records, search term and sort choice: the rows are exactly the matching records' texts, a missing key as "<null>", in the order of the text of the chosen column, ascending or descending as chosen, stably |
| `RecordsTable.MatchingIff` | ui/pages/consume_page/consume_page.go:166-201 | a record is shown if and only if nothing is searched for or its key or value, lowered, is the lowered term with anything before and after it |
| `Sequences.FilteredConcat` | ui/pages/consume_page/consume_page.go:166-201 | picking out the matching elements keeps their order: it can be done piece by piece |
| `RecordsTable.BeforeIsAnOrder` | ui/pages/consume_page/consume_page.go:203-222 | the comparison is a strict weak order for every column and direction, so a sort by it is determined |
| `RecordsTable.RecordForRow` | ui/pages/consume_page/consume_page.go:142-152 | the first record of the row's parsed partition and offset, a panic if and only if there is none |
| `RecordsTable.RecordIndexForRow` | ui/pages/consume_page/consume_page.go:154-164 | the index of that same record |
| `RecordsTable.RowLeadsBackIff` | ui/pages/consume_page/consume_page.go:142-164 | with distinct (partition, offset) and int64 offsets a record's row leads back to it if and only if its partition fits 32 bits |
| `RecordsTable.TableLeadsBack` | ui/pages/consume_page/consume_page.go:142-225 | then for every row of every table both lookups succeed and agree, and the records found are the matching ones, each once |
| `RecordsTable.Model.Receive` | ui/pages/consume_page/consume_page.go:122-130 | received records are appended and the rows become the table of all of them |
| `RecordsTable.Model.Enter` | ui/pages/consume_page/consume_page.go:94-111 | opens the record of the selected row with its index; panics if and only if there are records but no such row |
| `OffsetsPage.Model.RecreateTopicRows` | ui/pages/cgroups_topics_page/cgroups_parts_offsets_page.go:236-267 | sorted topics without repetition, and every topic's bucket is its matching entries in order; nothing changes without offsets |
| `OffsetsPage.Model.Group` | ui/pages/cgroups_topics_page/cgroups_parts_offsets_page.go:241-259 | the grouping loop: topics in the map are exactly those listed, each with its own entries |
| `OffsetsPage.Model.RecreateOffsetRows` | ui/pages/cgroups_topics_page/cgroups_parts_offsets_page.go:208-234 | the selected bucket's rows sorted by partition, total lag the wrapped sum of its lags; panics if and only if no row is selected and there is no topic |
| `OffsetsPage.Model.OffsetRows` | ui/pages/cgroups_topics_page/cgroups_parts_offsets_page.go:215-232 | the row and lag loop, with its int64 wrap-around, and the sort by parsed partition |
| `GroupOffsets.NoneLostOrDuplicated` | ui/pages/cgroups_topics_page/cgroups_parts_offsets_page.go:236-267 | all buckets together hold exactly the matching entries, as a multiset |
| `GroupOffsets.PartitionsAscend` | ui/pages/cgroups_topics_page/cgroups_parts_offsets_page.go:228-232 | the rows ascend strictly by partition number, through print and parse |
| `GroupOffsets.PageShowsTheGroup` | ui/pages/cgroups_topics_page/cgroups_parts_offsets_page.go:208-267 | with the lister's result, in whatever order its goroutines published: exactly the committed partitions of the topic, ascending, each with its offset, watermark and watermark - offset as text, "N/A" where there is no watermark |
| `GroupOffsets.TotalIsTheLag` | ui/pages/cgroups_topics_page/cgroups_parts_offsets_page.go:217-227 | with all watermarks known the lags add up to the sum of watermark - committed offset over the topic's committed partitions, each once |
| `GroupOffsets.TopicIsListedIff` | ui/pages/cgroups_topics_page/cgroups_parts_offsets_page.go:236-267 | a topic is listed if and only if it has an entry and its name is the search term with anything before and after it |
| `GroupOffsets.TotalLagIff` | ui/pages/cgroups_topics_page/cgroups_parts_offsets_page.go:217-227 | the total, which is the sum modulo 2^64 as an int64, is the sum of the known lags if and only if the number of error markers is even |
| `CommandBars.SearchCmdBar.Update` | ui/components/cmdbar/search_cmdbar.go:54-118 | the search bar's reaction to a key, and whether it is visible |
| `CommandBars.DeleteCmdBar.Update` | ui/components/cmdbar/delete_cmdbar.go:75-111 | the delete bar's reaction to a key, and the command it issues |
| `CommandBars.SortByCmdBar.Update` | ui/components/cmdbar/sort_by_cmdbar.go:99-149 | the sort bar's reaction to a key; its indexes stay in range |
| `CommandBars.TableCmdsBar.constructor` | ui/components/cmdbar/table_cmdsbar.go:159-173 | the notifier is the active bar at first |
| `CommandBars.TableCmdsBar.Update` | ui/components/cmdbar/table_cmdsbar.go:29-86 | one key on the table bar moves all bars as the step function on values says |
| `CommandBars.TableCmdsBar.HandleSlash` | ui/components/cmdbar/table_cmdsbar.go:88-100 | opening the search closes the two other bars |
| `CommandBars.TableCmdsBar.HandleF2` | ui/components/cmdbar/table_cmdsbar.go:114-127 | opening the delete bar takes the selection and closes the two other bars |
| `CommandBars.TableCmdsBar.HandleF3` | ui/components/cmdbar/table_cmdsbar.go:102-112 | opening the sort bar closes the two other bars |
| `CommandBars.TableCmdsBar.Delegate` | ui/components/cmdbar/table_cmdsbar.go:71-83 | the active bar gets the key; going inactive it gives way to the search bar if that was active before |
| `CommandBarRuns.AlwaysExclusive` | ui/components/cmdbar/table_cmdsbar.go:29-127 | after any sequence of keys, with the delete key F2: an open delete or sort bar is the active bar and the other way round, a visible search is the active bar, so at most one is open |
| `CommandBarRuns.AlwaysExclusiveIff` | ui/components/cmdbar/table_cmdsbar.go:54-58 | this holds on every run if and only if the delete key the bar was constructed with is F2 |
| `CommandBarRuns.OpenedBy` | ui/components/cmdbar/table_cmdsbar.go:114-127 | the open delete bar aims at the element selected when it was opened |
| `CommandBarRuns.DeletesWhatWasSelected` | ui/components/cmdbar/delete_cmdbar.go:84-99 | a delete is only ever issued by enter, confirmed, for the element selected when the still open bar was opened |
| `CommandBarRuns.ConfirmedSinceIff` | ui/components/cmdbar/delete_cmdbar.go:101-108 | a standing confirmation was made since a given press, such as the opening one, if and only if it did not stand all along since then |
| `CommandBarRuns.DeletesUnaskedIff` | ui/components/cmdbar/delete_cmdbar.go:79-99 | opening the bar and pressing enter at once deletes if and only if an earlier confirmation still stands and the element is not refused |
| `CommandBarRuns.ConfirmationOutlivesItsBar` | ui/components/cmdbar/delete_cmdbar.go:81-83 | accepting for one element and escaping leaves such a confirmation |
| `CommandBarRuns.DeletesOnce` | ui/components/cmdbar/delete_cmdbar.go:92-94 | no key right after a delete deletes again |
| `CommandBarRuns.SortingChangesOnlyBy` | ui/components/cmdbar/sort_by_cmdbar.go:112-120 | the chosen column and direction change only by enter in the open sort bar |
| `CommandBarRuns.ColumnsNeverChange` | ui/components/cmdbar/sort_by_cmdbar.go:99-153 | after any keys the bar offers the columns it was made with, and its indexes are in range |
| `CommandBarKeys.SearchKeys` | ui/components/cmdbar/search_cmdbar.go:63-126 | in each state of the search bar, which keys type, keep the term, drop it, open it and close it |
| `CommandBarKeys.TypingSearches` | ui/components/cmdbar/search_cmdbar.go:63-92 | on new bars a slash and any text leave the search open with all of that text |
| `CommandBarKeys.EnterSearches` | ui/components/cmdbar/search_cmdbar.go:94-107 | enter after that keeps the term, hides the bar if it is empty, and gives the focus back |
| `CommandBarKeys.SortKeys` | ui/components/cmdbar/sort_by_cmdbar.go:99-149 | which keys move the selection to the left and right, stopping at the ends; enter chooses the selected column and turns the direction of one already chosen, of that one only |
| `CommandBarKeys.ChooseColumn` | ui/components/cmdbar/sort_by_cmdbar.go:99-149 | from any state any column can be chosen, by as many steps as it is away and enter |
| `CommandBarKeys.DeleteKeys` | ui/components/cmdbar/delete_cmdbar.go:75-111 | when the delete bar closes, keeps and resets its confirmation, deletes and refuses; its element never changes by a key |
| `CommandBarKeys.SlashOpensTheSearch` | ui/components/cmdbar/table_cmdsbar.go:88-100 | slash opens the search with its old term and closes the others, or closes it and drops the term while typing |
| `CommandBarKeys.F2OpensTheDeletion` | ui/components/cmdbar/table_cmdsbar.go:114-127 | F2 opens the delete bar on the selected element, with the confirmation it had, and hides the others without losing the term |
| `CommandBarKeys.F2NeedsASelection` | ui/components/cmdbar/table_cmdsbar.go:59-63 | without a selection F2 opens and closes nothing |
| `CommandBarKeys.F3OpensTheSorting` | ui/components/cmdbar/table_cmdsbar.go:102-112 | F3 does the same for a sort bar, if there is one |
| `CommandBarKeys.KeysReachTheActiveBar` | ui/components/cmdbar/table_cmdsbar.go:71-83 | any other key changes the open bar alone; when that closes the search bar is the active one again if it was before |
| `CommandBarKeys.DeletesIff` | ui/components/cmdbar/table_cmdsbar.go:29-127 | a key deletes an element if and only if it is enter in the open, confirmed delete bar on that element, and that is not refused |
| `CommandBarKeys.PriorityTakesEveryKey` | ui/components/cmdbar/table_cmdsbar.go:30-40 | a notifier with priority takes every key while it is shown |
| `CommandBarKeys.NothingIsTyped` | ui/components/cmdbar/table_cmdsbar.go:29-86 | a message used up elsewhere changes no bar; a notifier that is shown becomes the active one, a closed bar gives way |
| `CommandBarKeys.FocussedIff` | ui/components/cmdbar/table_cmdsbar.go:133-135 | the bars have the focus if and only if a deletion or the sorting is open or a term is being typed |
| `CommandBarKeys.HidingClosesAll` | ui/components/cmdbar/table_cmdsbar.go:152-157 | hiding closes every bar and keeps the term, the confirmation and the chosen column |
| `CommandBars.TableCmdsBar.UpdateNil` | ui/components/cmdbar/table_cmdsbar.go:29-86 | a message used up elsewhere moves the bars as the function on values says |
| `CommandBars.TableCmdsBar.IsFocussed` | ui/components/cmdbar/table_cmdsbar.go:133-135 | whether the active bar has the focus |
| `CommandBars.TableCmdsBar.Hide` | ui/components/cmdbar/table_cmdsbar.go:152-157 | closes all three bars and leaves none active |
| `SubjectsBars.SubjectsCmdsBar.Update` | ui/pages/subjects_page/table_cmdbar.go:19-53 | one key on the four bars moves them as the step function on values says, and which deletion it sets off |
| `SubjectsBars.AtMostOneOfFour` | ui/pages/subjects_page/table_cmdbar.go:19-53 | after any sequence of keys at most one of the four bars is open |
| `CommandBarKeys.F4OpensTheFourth` | ui/pages/subjects_page/table_cmdbar.go:36-49 | F4 opens the fourth bar on the selected subject and hides the others without losing the term |
| `CommandBarKeys.FourthStaysIff` | ui/pages/subjects_page/table_cmdbar.go:19-34 | it stays open if and only if the key is not F4, escape or an unconfirmed enter, and not one that it leaves alone and that opens another bar |
| `CommandBarKeys.FourthKeepsItsKeys` | ui/pages/subjects_page/table_cmdbar.go:19-34 | a key the fourth bar uses up changes no other bar; any other key moves them as if it were not there |
| `CommandBarKeys.DeletesForGoodIff` | ui/pages/subjects_page/table_cmdbar.go:19-53 | a key deletes a subject for good if and only if it is enter in the open, confirmed fourth bar on that subject, and that is not refused |
| `SubjectsBars.HardOpenedBy` | ui/pages/subjects_page/table_cmdbar.go:39-48 | the open fourth bar aims at the subject selected when F4 opened it |
| `SubjectsBars.HardDeletesWhatWasSelected` | ui/pages/subjects_page/table_cmdbar.go:19-53 | a permanent deletion is only ever issued by enter, confirmed, with no other bar open, for the subject selected when the still open bar was opened |
| `InPlaceRemoval.RemoveWhileRanging` | ui/pages/subjects_page/subjects_page.go:199-208 | exactly when the loop slices out of range, otherwise what it leaves in the backing array, and `deletedLast` set if and only if the last element had the name |
| `InPlaceRemoval.RemovesExactlyTheNamedIff` | ui/pages/subjects_page/subjects_page.go:199-208 | it removes exactly the named elements if and only if no two neighbours have the name and the last does not repeat an earlier one |
| `InPlaceRemoval.DistinctNamesAreRemovedExactly` | ui/pages/create_cluster_page/upsert_kcon.go:150-155 | with distinct names it never panics and leaves the old list minus the named element, in order |
| `InPlaceRemoval.RemovesTheNamedOne` | ui/pages/subjects_page/subjects_page.go:199-208 | an only element of the name goes from between the others, and those before and after it stay |
| `InPlaceRemoval.DuplicatesCanPanic` | ui/pages/subjects_page/subjects_page.go:200-206 | two elements of one name make it slice out of range |
| `SchemaFrame.EncodeRecord` | cmd/generate/main.go:420-426 | a zero byte, the low 32 bits of the id with the most significant byte first, the payload |
| `SchemaFrame.RoundTripIff` | serdes/avro.go:91-109 | decoding an encoded frame leaves the payload and returns the id if and only if it is a signed 32-bit number |
| `SchemaFrame.AcceptedIsAFrame` | serdes/avro.go:91-109 | the decoder accepts exactly five or more bytes starting with zero; the id is the signed number of the next four, the first most significant, and the bytes are the frame of that id and the tail |
| `SchemaFrame.FramesAreInjective` | cmd/generate/main.go:420-426 | no two ids or payloads share a frame |

## Left out

- The Sarama, Schema Registry and Kafka Connect clients, HTTP, TLS handshakes and certificates: foreign calls, arbitrary answers here.
- `AwaitNextRecord`'s batching by a timer and the pause before the shutdown: they depend on the clock; the receiver here takes one record at a time.
- What workers do after a failed consumer creation, beyond that the program is gone: `Prepare` stops at the panic.
- A partition consumer that closes its message or error channel by itself: the worker would receive nil, and dereference a nil message.
- The receiver of the empty-topic and no-records channels: only what is sent on them is modelled.
- An endless supply of messages: a worker's feed is finite in one run, of any length.
- Goavro, JSON and XML decoding and the text of header values: library code; a message either failed to deserialise or has a value.
- The wall-clock start points: the offsets the broker reports for them are inputs.
- ReadingWindows.WindowOfAPartition: does not model float64 rounding of the share for limits from 2^53 on, nor int64 overflow of offsets.
- Reading and writing the configuration file, and the exit when that fails: `flush` has no effect here.
- The difference between a nil and an empty list of connect clusters, which only the YAML shows.
- Slices of clusters that share a backing array, outside the loop of `InPlaceRemoval`: every list has one owner here.
- ConnectForm.UpsertKcModel.EditEntry: does not model the table the row is selected in, only the selected name.
- Notifications, which can take over the table bar, and their hiding after a while: the runs are of keys only, with the notifier idle.
- The messages a command bar passes on to the page, and the page's own reaction to keys.
- The initial sort column option of a sort bar: the lemmas about runs start from any sort bar that is not open.
- OffsetsPage.Model.RecreateOffsetRows: takes the table's selected row, if any, as a parameter.
- Views, styles, borders, tabs, navigation and the program's entry point: rendering and routing.
- The start and await wrappers of topics, groups, configurations and schemas: one-shot channels with only easy facts.
