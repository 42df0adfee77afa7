// ListVersions and AwaitCompletion of sradmin/versions_lister.go as a labelled step
// system: a goroutine a version sends into a channel with one slot a version, another
// one closes the channel after all of them, and the receiver counts what it takes.
module VersionsLister {
  import opened Options
  import opened Sequences

  // The versions already sent in sending order, how many of them were received, the
  // versions whose goroutine has not sent yet, and whether the channel is closed and
  // the receiver has returned.
  datatype State = State(sent: seq<int>, taken: nat, unsent: multiset<int>, closed: bool, returned: bool)

  datatype Action = Send(version: int) | Close | Take | FindClosed | Return

  function Init(versions: seq<int>): State {
    State([], 0, multiset(versions), false, false)
  }

  predicate Enabled(versions: seq<int>, s: State, a: Action) {
    && s.taken <= |s.sent|
    && match a
       case Send(v) => v in s.unsent && |s.sent| - s.taken < |versions|
       case Close => s.unsent == multiset{} && !s.closed
       case Take => !s.returned && s.taken < |versions| && s.taken < |s.sent|
       case FindClosed => !s.returned && s.taken < |versions| && s.taken == |s.sent| && s.closed
       case Return => !s.returned && s.taken >= |versions|
  }

  function Next(versions: seq<int>, s: State, a: Action): State
    requires Enabled(versions, s, a)
  {
    match a
    case Send(v) => s.(sent := s.sent + [v], unsent := s.unsent - multiset{v})
    case Close => s.(closed := true)
    case Take => s.(taken := s.taken + 1)
    case FindClosed => s.(returned := true)
    case Return => s.(returned := true)
  }

  function After(versions: seq<int>, actions: seq<Action>): Option<State> {
    if actions == [] then Some(Init(versions))
    else
      match After(versions, actions[..|actions| - 1])
      case None => None
      case Some(s) =>
        var a := actions[|actions| - 1];
        if Enabled(versions, s, a) then Some(Next(versions, s, a)) else None
  }

  predicate Invariant(versions: seq<int>, s: State) {
    && s.taken <= |s.sent|
    && multiset(s.sent) + s.unsent == multiset(versions)
    && (s.closed ==> s.unsent == multiset{})
    && (s.returned ==> s.taken == |versions|)
  }

  function Measure(versions: seq<int>, s: State): nat
    requires s.taken <= |s.sent|
  {
    2 * |s.unsent| + (|s.sent| - s.taken) + (if s.closed then 0 else 1) + (if s.returned then 0 else 1)
  }

  lemma StepKeepsInvariant(versions: seq<int>, s: State, a: Action)
    requires Invariant(versions, s) && Enabled(versions, s, a)
    ensures Invariant(versions, Next(versions, s, a))
    ensures Measure(versions, Next(versions, s, a)) < Measure(versions, s)
  {
  }

  lemma SizesAdd(versions: seq<int>, s: State)
    requires Invariant(versions, s)
    ensures |s.sent| + |s.unsent| == |versions|
  {
    assert |multiset(s.sent)| == |s.sent| && |multiset(versions)| == |versions|;
  }

  lemma EmptyIff(m: multiset<int>)
    ensures m == multiset{} <==> forall v :: v !in m
  {
    if forall v :: v !in m {
      assert m == multiset{};
    }
  }

  lemma {:induction false} ReachableIsInvariant(versions: seq<int>, actions: seq<Action>)
    requires After(versions, actions).Some?
    ensures Invariant(versions, After(versions, actions).value)
    ensures |actions| + Measure(versions, After(versions, actions).value) <= Measure(versions, Init(versions))
  {
    if actions != [] {
      var before := actions[..|actions| - 1];
      ReachableIsInvariant(versions, before);
      StepKeepsInvariant(versions, After(versions, before).value, actions[|actions| - 1]);
    }
  }

  // No goroutine ever waits for a slot or finds the channel closed, and until the
  // receiver has returned something can happen; the channel is never closed early
  // enough for the receiver to notice.
  lemma {:induction false} NobodyBlocks(versions: seq<int>, actions: seq<Action>)
    requires After(versions, actions).Some?
    ensures var s := After(versions, actions).value;
            && (forall v :: v in s.unsent ==> !s.closed && Enabled(versions, s, Send(v)))
            && !Enabled(versions, s, FindClosed)
            && (!s.returned ==> exists a :: Enabled(versions, s, a))
            && |actions| <= 2 * |versions| + 2
  {
    ReachableIsInvariant(versions, actions);
    var s := After(versions, actions).value;
    SizesAdd(versions, s);
    if !s.returned {
      if s.taken >= |versions| {
        assert Enabled(versions, s, Return);
      } else if s.taken < |s.sent| {
        assert Enabled(versions, s, Take);
      } else {
        EmptyIff(s.unsent);
        var v :| v in s.unsent;
        assert Enabled(versions, s, Send(v));
      }
    }
  }

  function Received<Schema>(s: State, schemaOf: int -> Schema): (r: seq<Schema>)
    requires s.taken <= |s.sent|
    ensures |r| == s.taken
  {
    Mapped(s.sent[..s.taken], schemaOf)
  }

  // Whatever the interleaving, the listing holds one schema a requested version: the
  // fetched one, or the error in its place.
  lemma {:induction false} OneSchemaAVersion<Schema>(versions: seq<int>, actions: seq<Action>, schemaOf: int -> Schema)
    requires After(versions, actions).Some? && After(versions, actions).value.returned
    ensures var s := After(versions, actions).value;
            s.taken <= |s.sent| && multiset(Received(s, schemaOf)) == multiset(Mapped(versions, schemaOf))
  {
    ReachableIsInvariant(versions, actions);
    var s := After(versions, actions).value;
    SizesAdd(versions, s);
    assert s.sent[..s.taken] == s.sent;
    MappedMultiset(s.sent, versions, schemaOf);
  }
}
