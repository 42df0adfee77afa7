// doListSubject of sradmin/subject_lister.go: up to two goroutines a subject write
// into result slots of their own, failures go to a buffered channel, and the cached
// subjects are replaced at the end. The schedule is the order in which the
// goroutines publish; any order may happen.
module SubjectLister {
  import opened Options
  import opened Sequences

  datatype Subject = Subject(name: string, versions: seq<int>, compatibility: string, deleted: bool)

  datatype ListError = NamesUnavailable | VersionsUnavailable(name: string) | CompatibilityUnavailable(name: string)

  datatype Listing = Listed(subjects: seq<Subject>) | ListingFailed(error: ListError)

  // What the schema registry answers.
  datatype Answers = Answers(
    all: Option<seq<string>>,
    active: Option<seq<string>>,
    versionsOf: string -> Option<seq<int>>,
    compatibilityOf: string -> Option<string>)
  {
    // A subject missing from the active ones counts as deleted; if those could not
    // be fetched, all of them do.
    predicate Deleted(name: string) {
      active.None? || name !in active.value
    }
  }

  // A goroutine, by the index of its subject.
  datatype Goroutine = Versions(i: nat) | Compatibility(i: nat)

  predicate Succeeds(a: Answers, names: seq<string>, t: Goroutine)
    requires t.i < |names|
  {
    if t.Versions? then a.versionsOf(names[t.i]).Some? else a.compatibilityOf(names[t.i]).Some?
  }

  predicate EverythingAnswered(a: Answers, names: seq<string>) {
    forall i :: 0 <= i < |names| ==>
      (!a.Deleted(names[i]) ==> a.versionsOf(names[i]).Some?) && a.compatibilityOf(names[i]).Some?
  }

  // The entry of a subject: its own versions and compatibility.
  function EntryFor(a: Answers, name: string): Subject
    requires (!a.Deleted(name) ==> a.versionsOf(name).Some?) && a.compatibilityOf(name).Some?
  {
    Subject(name, if a.Deleted(name) then [] else a.versionsOf(name).value, a.compatibilityOf(name).value, a.Deleted(name))
  }

  // A name with its own versions and compatibility; a name that is not known to be
  // active counts as deleted and has no versions.
  predicate Pairs(s: Subject, name: string, a: Answers) {
    && s.name == name && a.compatibilityOf(name) == Some(s.compatibility)
    && (a.active.Some? && name in a.active.value ==> !s.deleted && a.versionsOf(name) == Some(s.versions))
    && (a.active.None? || name !in a.active.value ==> s.deleted && s.versions == [])
  }

  predicate Genuine(a: Answers, names: seq<string>, e: ListError) {
    match e
    case NamesUnavailable => false
    case VersionsUnavailable(name) => name in names && !a.Deleted(name) && a.versionsOf(name).None?
    case CompatibilityUnavailable(name) => name in names && a.compatibilityOf(name).None?
  }

  // The result slots once the goroutines in done have published.
  ghost predicate Slots(a: Answers, names: seq<string>, done: set<Goroutine>, versions: seq<seq<int>>, compatibilities: seq<string>) {
    && |versions| == |compatibilities| == |names|
    && (forall i: nat :: i < |names| ==>
          versions[i] == if Versions(i) in done && a.versionsOf(names[i]).Some? then a.versionsOf(names[i]).value else [])
    && (forall i: nat :: i < |names| ==>
          compatibilities[i] ==
            if Compatibility(i) in done && a.compatibilityOf(names[i]).Some? then a.compatibilityOf(names[i]).value else "")
  }

  // The error channel once they have: empty as long as all succeeded.
  ghost predicate Errors(a: Answers, names: seq<string>, done: set<Goroutine>, errors: seq<ListError>) {
    && |errors| <= |done|
    && (forall t <- done :: t.i < |names|)
    && (errors == [] <==> forall t <- done :: Succeeds(a, names, t))
    && (errors != [] ==> Genuine(a, names, errors[0]))
  }

  // One goroutine: fetch, then write its slot or report.
  method Fetch(a: Answers, names: seq<string>, t: Goroutine, ghost done: set<Goroutine>,
               versionResults: array<seq<int>>, compResults: array<string>, errors: seq<ListError>)
    returns (errors': seq<ListError>)
    requires t.i < |names| && (t.Versions? ==> !a.Deleted(names[t.i])) && t !in done
    requires Slots(a, names, done, versionResults[..], compResults[..]) && Errors(a, names, done, errors)
    modifies versionResults, compResults
    ensures Slots(a, names, done + {t}, versionResults[..], compResults[..])
    ensures Errors(a, names, done + {t}, errors')
  {
    var name := names[t.i];
    errors' := errors;
    match t {
      case Versions(idx) =>
        var versions := a.versionsOf(name);
        if versions.None? {
          errors' := errors + [VersionsUnavailable(name)];
        } else {
          versionResults[idx] := versions.value;
        }
      case Compatibility(idx) =>
        var comp := a.compatibilityOf(name);
        if comp.None? {
          errors' := errors + [CompatibilityUnavailable(name)];
        } else {
          compResults[idx] := comp.value;
        }
    }
  }

  // An order in which every goroutine publishes once.
  ghost predicate IsSchedule(a: Answers, names: seq<string>, schedule: seq<Goroutine>) {
    && Distinct(schedule)
    && forall t :: t in schedule <==> t.i < |names| && (t.Versions? ==> !a.Deleted(names[t.i]))
  }

  // The goroutines that have published after k steps.
  ghost function Published(schedule: seq<Goroutine>, k: nat): set<Goroutine>
    requires k <= |schedule|
  {
    set j | 0 <= j < k :: schedule[j]
  }

  lemma PublishedStep(schedule: seq<Goroutine>, k: nat)
    requires Distinct(schedule) && k < |schedule|
    ensures schedule[k] !in Published(schedule, k)
    ensures Published(schedule, k + 1) == Published(schedule, k) + {schedule[k]}
  {
  }

  class DefaultSrClient {
    var subjects: seq<Subject>

    constructor ()
      ensures subjects == []
    {
      subjects := [];
    }

    // blocked would say that a goroutine found the error channel full.
    method DoListSubject(a: Answers, schedule: seq<Goroutine>) returns (r: Listing, blocked: bool)
      requires a.all.Some? ==> IsSchedule(a, a.all.value, schedule)
      modifies this
      ensures !blocked
      ensures a.all.None? ==> r == ListingFailed(NamesUnavailable)
      ensures a.all.Some? ==> (r.Listed? <==> EverythingAnswered(a, a.all.value))
      ensures a.all.Some? && r.ListingFailed? ==> Genuine(a, a.all.value, r.error)
      ensures r.Listed? ==>
                && |r.subjects| == |a.all.value|
                && forall i :: 0 <= i < |r.subjects| ==> r.subjects[i] == EntryFor(a, a.all.value[i])
      ensures subjects == if r.Listed? then r.subjects else old(subjects)
      ensures r.Listed? ==> forall i :: 0 <= i < |r.subjects| ==> Pairs(r.subjects[i], a.all.value[i], a)
      ensures a.all.Some? ==>
                (r.Listed? <==> forall name <- a.all.value ::
                   && a.compatibilityOf(name).Some?
                   && (a.active.Some? && name in a.active.value ==> a.versionsOf(name).Some?))
    {
      blocked := false;
      if a.all.None? {
        return ListingFailed(NamesUnavailable), blocked;
      }
      var names := a.all.value;
      var n := |names|;
      var listed := seq(n, i requires 0 <= i < n => Subject(names[i], [], "", a.Deleted(names[i])));
      var versions, compatibilities, errors;
      ghost var done;
      versions, compatibilities, errors, blocked, done := FetchAll(a, names, schedule);
      AllDone(a, names, schedule, done);
      if |errors| > 0 {
        return ListingFailed(errors[0]), blocked;
      }
      listed := Collect(a, names, listed, versions, compatibilities, done);
      subjects := listed;
      return Listed(listed), blocked;
    }

    // The goroutines, in the order of the schedule.
    static method FetchAll(a: Answers, names: seq<string>, schedule: seq<Goroutine>)
      returns (versions: seq<seq<int>>, compatibilities: seq<string>, errors: seq<ListError>, blocked: bool, ghost done: set<Goroutine>)
      requires IsSchedule(a, names, schedule)
      ensures !blocked && done == Published(schedule, |schedule|)
      ensures Slots(a, names, done, versions, compatibilities) && Errors(a, names, done, errors)
    {
      var versionResults := new seq<int>[|names|](_ => []);
      var compResults := new string[|names|](_ => "");
      errors, blocked, done := [], false, {};
      for k := 0 to |schedule|
        invariant !blocked && done == Published(schedule, k)
        invariant Slots(a, names, done, versionResults[..], compResults[..]) == true
        invariant Errors(a, names, done, errors) == true
      {
        var t := schedule[k];
        PublishedStep(schedule, k);
        assert t in schedule;
        var reported := Fetch(a, names, t, done, versionResults, compResults, errors);
        blocked := reported != errors && |errors| >= 2 * |names|;
        GoroutineCount(names, done + {t});
        errors := reported;
        done := done + {t};
      }
      return versionResults[..], compResults[..], errors, blocked, done;
    }

    // The loop that fills in the slots' results.
    static method Collect(a: Answers, names: seq<string>, listed: seq<Subject>, versions: seq<seq<int>>, compatibilities: seq<string>, ghost done: set<Goroutine>)
      returns (subjects: seq<Subject>)
      requires Slots(a, names, done, versions, compatibilities) && EverythingAnswered(a, names)
      requires forall i: nat :: i < |names| ==> Compatibility(i) in done && (Versions(i) in done <==> !a.Deleted(names[i]))
      requires |listed| == |names| && forall i :: 0 <= i < |names| ==> listed[i] == Subject(names[i], [], "", a.Deleted(names[i]))
      ensures |subjects| == |names| && forall i :: 0 <= i < |names| ==> subjects[i] == EntryFor(a, names[i])
    {
      subjects := listed;
      for i := 0 to |subjects|
        invariant |subjects| == |names|
        invariant forall j :: 0 <= j < i ==> subjects[j] == EntryFor(a, names[j])
        invariant forall j :: i <= j < |names| ==> subjects[j] == listed[j]
      {
        subjects := subjects[i := subjects[i].(versions := versions[i])];
        subjects := subjects[i := subjects[i].(compatibility := compatibilities[i])];
      }
    }
  }

  // There are at most two goroutines a subject.
  lemma GoroutineCount(names: seq<string>, done: set<Goroutine>)
    requires forall t <- done :: t.i < |names|
    ensures |done| <= 2 * |names|
  {
    var vs := set t | t in done && t.Versions?;
    var cs := set t | t in done && t.Compatibility?;
    assert done == vs + cs && vs !! cs;
    IndexCount(vs, |names|);
    IndexCount(cs, |names|);
  }

  lemma {:induction false} IndexCount(ts: set<Goroutine>, n: nat)
    requires forall t <- ts :: t.i < n
    requires (forall t <- ts :: t.Versions?) || (forall t <- ts :: t.Compatibility?)
    ensures |ts| <= n
  {
    if n == 0 {
      assert ts == {};
    } else if t :| t in ts && t.i == n - 1 {
      IndexCount(ts - {t}, n - 1);
    } else {
      IndexCount(ts, n - 1);
    }
  }

  // Once all goroutines are done, they all succeeded exactly if everything was answered.
  lemma AllDone(a: Answers, names: seq<string>, schedule: seq<Goroutine>, done: set<Goroutine>)
    requires IsSchedule(a, names, schedule) && done == Published(schedule, |schedule|)
    ensures forall i: nat :: i < |names| ==> Compatibility(i) in done && (Versions(i) in done <==> !a.Deleted(names[i]))
    ensures forall t <- done :: t.i < |names|
    ensures EverythingAnswered(a, names) <==> forall t <- done :: Succeeds(a, names, t)
  {
  }
}
