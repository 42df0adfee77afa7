// Deleting from a slice while ranging over it: removeDeletedSubjectFromModel of
// ui/pages/subjects_page/subjects_page.go and the ConnectClusterDeleted handler of
// ui/pages/create_cluster_page/upsert_kcon.go. The range keeps the original length
// and reads the backing array, which every deletion shifts to the left.
module InPlaceRemoval {

  // A subject or a connect cluster: its name, and everything else about it. Names are
  // only ever compared.
  datatype Item<N, T> = Item(name: N, value: T)

  // What the loop leaves of the elements from p on: after a deletion the next
  // element has moved under the index just visited and is never looked at.
  function Survivors<N(==), T>(s: seq<Item<N, T>>, name: N, p: nat): seq<Item<N, T>>
    decreases |s| - p
  {
    if p >= |s| then []
    else if s[p].name != name then [s[p]] + Survivors(s, name, p + 1)
    else if p + 1 == |s| then []
    else [s[p + 1]] + Survivors(s, name, p + 2)
  }

  // What it is meant to leave.
  function Unnamed<N(==), T>(s: seq<Item<N, T>>, name: N, p: nat): seq<Item<N, T>>
    decreases |s| - p
  {
    if p >= |s| then []
    else (if s[p].name != name then [s[p]] else []) + Unnamed(s, name, p + 1)
  }

  predicate NamedBelow<N(==), T>(s: seq<Item<N, T>>, name: N, k: int) {
    exists i :: 0 <= i < |s| && i < k && s[i].name == name
  }

  predicate LastNamed<N(==), T>(s: seq<Item<N, T>>, name: N) {
    s != [] && s[|s| - 1].name == name
  }

  // Slicing past the end: the tail left behind by a shift still shows the last
  // element, and finding the name there slices beyond the shortened slice.
  predicate SlicesOutOfRange<N(==), T>(s: seq<Item<N, T>>, name: N) {
    LastNamed(s, name) && NamedBelow(s, name, |s| - 1)
  }

  // Two neighbours of that name: the second one is skipped.
  predicate NeighboursNamed<N(==), T>(s: seq<Item<N, T>>, name: N) {
    exists i :: 0 < i < |s| && s[i - 1].name == name && s[i].name == name
  }

  // The backing array after append(slice[:i], slice[i+1:]...) on its first len elements.
  function Shifted<T>(b: seq<T>, i: nat, len: nat): (c: seq<T>)
    requires i < len <= |b|
    ensures |c| == |b|
    ensures forall k :: 0 <= k < |b| ==> c[k] == if i <= k < len - 1 then b[k + 1] else b[k]
  {
    b[..i] + b[i + 1..len] + b[len - 1..]
  }

  method ShiftLeft<T>(backing: array<T>, i: nat, len: nat)
    requires i < len <= backing.Length
    modifies backing
    ensures backing[..] == Shifted(old(backing[..]), i, len)
  {
    forall k | i <= k < len - 1 {
      backing[k] := backing[k + 1];
    }
  }

  function Copies<T>(x: T, k: nat): seq<T> {
    seq(k, _ => x)
  }

  // The backing array while old elements from p on are still to come: the survivors
  // so far, those elements, and copies of the last one where the slice got shorter.
  ghost predicate InPlace<N, T>(s: seq<Item<N, T>>, b: seq<Item<N, T>>, head: seq<Item<N, T>>, p: nat, name: N) {
    && p <= |s| && |head| <= p
    && b == head + s[p..] + (if s == [] then [] else Copies(s[|s| - 1], p - |head|))
    && Survivors(s, name, 0) == head + Survivors(s, name, p)
  }

  // What the loop, about to look at index i, knows about the names: without a
  // deletion no earlier one matched, with one some element but the last did. Past the
  // end of the slice the last element was deleted just now or is not of that name.
  predicate NamesSeen<N(==), T>(s: seq<Item<N, T>>, i: nat, head: nat, p: nat, name: N) {
    && (i == head ==> if p == head then !NamedBelow(s, name, p) else NamedBelow(s, name, |s| - 1))
    && (i != head ==> p == |s| && head < i)
    && (i != head && LastNamed(s, name) ==> i == head + 1 && (p == head + 1 <==> !NamedBelow(s, name, |s| - 1)))
  }

  // The scan so far: what it left, and where it is in the old slice.
  datatype Scan<N, T> = Scan(head: seq<Item<N, T>>, p: nat)

  // Where looking at index i leads.
  function Looked<N(==), T>(s: seq<Item<N, T>>, at: Scan<N, T>, i: nat, name: N): Scan<N, T> {
    if i != |at.head| || at.p >= |s| then at
    else if s[at.p].name != name then Scan(at.head + [s[at.p]], at.p + 1)
    else if at.p + 1 < |s| then Scan(at.head + [s[at.p + 1]], at.p + 2)
    else Scan(at.head, at.p + 1)
  }

  ghost predicate Scanning<N, T>(s: seq<Item<N, T>>, b: seq<Item<N, T>>, i: nat, at: Scan<N, T>, name: N) {
    InPlace(s, b, at.head, at.p, name) && NamesSeen(s, i, |at.head|, at.p, name)
  }

  function Len<N, T>(s: seq<Item<N, T>>, at: Scan<N, T>): int {
    |at.head| + |s| - at.p
  }

  lemma Starts<N, T>(s: seq<Item<N, T>>, name: N)
    ensures Scanning(s, s, 0, Scan([], 0), name)
  {
  }

  // Looking at an element of another name, or at the stale tail.
  lemma {:induction false} Keeps<N, T>(s: seq<Item<N, T>>, b: seq<Item<N, T>>, i: nat, at: Scan<N, T>, name: N)
    requires Scanning(s, b, i, at, name) && i < |s| == |b| && b[i].name != name
    ensures Scanning(s, b, i + 1, Looked(s, at, i, name), name) && Len(s, Looked(s, at, i, name)) == Len(s, at)
  {
    ReadsAt(s, b, i, at);
    KeepsSeen(s, i, at, name);
    if i == |at.head| && at.p < |s| {
      KeepsInPlace(s, b, i, at, name);
      assert Looked(s, at, i, name) == Scan(at.head + [s[at.p]], at.p + 1);
    } else {
      assert Looked(s, at, i, name) == at;
    }
  }

  // What the loop reads at index i: the next old element, or the stale last one.
  lemma ReadsAt<N, T>(s: seq<Item<N, T>>, b: seq<Item<N, T>>, i: nat, at: Scan<N, T>)
    requires at.p <= |s| && |at.head| <= at.p && |at.head| <= i < |s| == |b| && (i == |at.head| || at.p == |s|)
    requires b == at.head + s[at.p..] + Copies(s[|s| - 1], at.p - |at.head|)
    ensures b[i] == if i == |at.head| && at.p < |s| then s[at.p] else s[|s| - 1]
  {
  }

  lemma KeepsSeen<N, T>(s: seq<Item<N, T>>, i: nat, at: Scan<N, T>, name: N)
    requires NamesSeen(s, i, |at.head|, at.p, name) && |at.head| <= at.p <= |s| && |at.head| <= i < |s|
    requires (if i == |at.head| && at.p < |s| then s[at.p] else s[|s| - 1]).name != name
    ensures var next := Looked(s, at, i, name); NamesSeen(s, i + 1, |next.head|, next.p, name)
  {
  }

  lemma KeepsInPlace<N, T>(s: seq<Item<N, T>>, b: seq<Item<N, T>>, i: nat, at: Scan<N, T>, name: N)
    requires InPlace(s, b, at.head, at.p, name) && i == |at.head| && at.p < |s| && s[at.p].name != name
    ensures InPlace(s, b, at.head + [s[at.p]], at.p + 1, name)
  {
    assert s[at.p..] == [s[at.p]] + s[at.p + 1..];
    SurvivorsMove(at.head, s[at.p], s[at.p + 1..]);
    SurvivorsMove(at.head, s[at.p], Survivors(s, name, at.p + 1));
  }

  // Deleting the element at i moves its neighbour under i, unless it was the last one.
  lemma {:induction false} Deletes<N, T>(s: seq<Item<N, T>>, b: seq<Item<N, T>>, i: nat, at: Scan<N, T>, name: N)
    requires Scanning(s, b, i, at, name) && |s| == |b| && i < Len(s, at) && b[i].name == name
    ensures Len(s, at) <= |b| && Len(s, Looked(s, at, i, name)) == Len(s, at) - 1
    ensures Scanning(s, Shifted(b, i, Len(s, at)), i + 1, Looked(s, at, i, name), name)
    ensures i == Len(s, at) - 1 ==> LastNamed(s, name)
  {
    ReadsAt(s, b, i, at);
    ShiftedLayout(s, b, i, at);
    DeletesInPlace(s, b, i, at, name);
    DeletesSeen(s, i, at, name);
  }

  lemma DeletesInPlace<N, T>(s: seq<Item<N, T>>, b: seq<Item<N, T>>, i: nat, at: Scan<N, T>, name: N)
    requires InPlace(s, b, at.head, at.p, name) && i == |at.head| && at.p < |s| && s[at.p].name == name
    ensures var next := Looked(s, at, i, name); InPlace(s, Shifted(b, i, Len(s, at)), next.head, next.p, name)
  {
    DeletedLayout(s, b, i, at, name);
    DeletesSurvivors(s, i, at, name);
  }

  lemma DeletedLayout<N, T>(s: seq<Item<N, T>>, b: seq<Item<N, T>>, i: nat, at: Scan<N, T>, name: N)
    requires at.p < |s| == |b| && |at.head| <= at.p && i == |at.head| && s[at.p].name == name
    requires b == at.head + s[at.p..] + Copies(s[|s| - 1], at.p - |at.head|)
    ensures var next := Looked(s, at, i, name);
            && |next.head| <= next.p <= |s|
            && Shifted(b, i, Len(s, at)) == next.head + s[next.p..] + Copies(s[|s| - 1], next.p - |next.head|)
  {
    ShiftedLayout(s, b, i, at);
    var next := Looked(s, at, i, name);
    assert next.p - |next.head| == at.p + 1 - |at.head|;
    assert next.head + s[next.p..] == at.head + s[at.p + 1..];
  }

  lemma DeletesSurvivors<N, T>(s: seq<Item<N, T>>, i: nat, at: Scan<N, T>, name: N)
    requires i == |at.head| && at.p < |s| && s[at.p].name == name
    ensures var next := Looked(s, at, i, name);
            at.head + Survivors(s, name, at.p) == next.head + Survivors(s, name, next.p)
  {
    if at.p + 1 < |s| {
      SurvivorsMove(at.head, s[at.p + 1], Survivors(s, name, at.p + 2));
    }
  }

  lemma SurvivorsMove<T>(head: seq<T>, x: T, rest: seq<T>)
    ensures head + ([x] + rest) == (head + [x]) + rest
  {
  }

  lemma DeletesSeen<N, T>(s: seq<Item<N, T>>, i: nat, at: Scan<N, T>, name: N)
    requires NamesSeen(s, i, |at.head|, at.p, name) && |at.head| <= at.p
    requires i == |at.head| && at.p < |s| && s[at.p].name == name
    ensures var next := Looked(s, at, i, name); NamesSeen(s, i + 1, |next.head|, next.p, name)
  {
  }

  lemma ShiftedLayout<N, T>(s: seq<Item<N, T>>, b: seq<Item<N, T>>, i: nat, at: Scan<N, T>)
    requires at.p < |s| == |b| && |at.head| <= at.p && i == |at.head|
    requires b == at.head + s[at.p..] + Copies(s[|s| - 1], at.p - |at.head|)
    ensures Shifted(b, i, Len(s, at)) == at.head + s[at.p + 1..] + Copies(s[|s| - 1], at.p + 1 - |at.head|)
    ensures at.p + 1 < |s| ==>
              at.head + s[at.p + 1..] == (at.head + [s[at.p + 1]]) + s[at.p + 2..]
  {
  }

  lemma SlicesOut<N, T>(s: seq<Item<N, T>>, b: seq<Item<N, T>>, i: nat, at: Scan<N, T>, name: N)
    requires Scanning(s, b, i, at, name) && Len(s, at) <= i < |s| == |b| && b[i].name == name
    ensures SlicesOutOfRange(s, name)
  {
  }

  lemma Ends<N, T>(s: seq<Item<N, T>>, b: seq<Item<N, T>>, at: Scan<N, T>, name: N)
    requires Scanning(s, b, |s|, at, name)
    ensures !SlicesOutOfRange(s, name) && 0 <= Len(s, at) <= |b| && b[..Len(s, at)] == Survivors(s, name, 0)
    ensures LastNamed(s, name) ==> |s| != |at.head|
  {
  }

  // The slice is backing[..len]; it starts out as the whole backing array.
  method RemoveWhileRanging<N(==), T>(backing: array<Item<N, T>>, name: N, wasDeletedLast: bool)
    returns (len: nat, deletedLast: bool, panicked: bool)
    modifies backing
    ensures panicked <==> SlicesOutOfRange(old(backing[..]), name)
    ensures !panicked ==>
              && len <= backing.Length
              && backing[..len] == Survivors(old(backing[..]), name, 0)
              && deletedLast == (wasDeletedLast || LastNamed(old(backing[..]), name))
  {
    ghost var s := backing[..];
    var n := backing.Length;
    len, deletedLast, panicked := n, wasDeletedLast, false;
    var i := 0;
    ghost var b, at := s, Scan([], 0);
    Starts(s, name);
    while i < n
      invariant i <= n && len == Len(s, at) <= n && !panicked && b == backing[..]
      invariant Scanning(s, b, i, at, name) == true
      invariant deletedLast == (wasDeletedLast || (i != |at.head| && LastNamed(s, name)))
    {
      if backing[i].name == name {
        if i == len - 1 {
          deletedLast := true;
        }
        if i + 1 > len {
          SlicesOut(s, b, i, at, name);
          panicked := true;
          return;
        }
        Deletes(s, b, i, at, name);
        ShiftLeft(backing, i, len);
        b := Shifted(b, i, len);
        len := len - 1;
      } else {
        Keeps(s, b, i, at, name);
      }
      at := Looked(s, at, i, name);
      i := i + 1;
    }
    Ends(s, b, at, name);
  }

  // The loop does what it is meant to do exactly when no two neighbours carry the
  // name and, if the last element does, no other one does. The registry and the
  // configuration keep names distinct, so there it always does.
  lemma {:induction false} RemovesExactlyTheNamedIff<N, T>(s: seq<Item<N, T>>, name: N)
    ensures !SlicesOutOfRange(s, name) && Survivors(s, name, 0) == Unnamed(s, name, 0)
       <==> !NeighboursNamed(s, name) && !SlicesOutOfRange(s, name)
  {
    SurvivorsIff(s, name, 0);
  }

  predicate NeighboursFrom<N(==), T>(s: seq<Item<N, T>>, name: N, p: nat) {
    exists i :: p < i < |s| && s[i - 1].name == name && s[i].name == name
  }

  lemma {:induction false} SurvivorsIff<N, T>(s: seq<Item<N, T>>, name: N, p: nat)
    ensures Survivors(s, name, p) == Unnamed(s, name, p) <==> !NeighboursFrom(s, name, p)
    ensures |Survivors(s, name, p)| >= |Unnamed(s, name, p)|
    ensures NeighboursFrom(s, name, p) ==> |Survivors(s, name, p)| > |Unnamed(s, name, p)|
    decreases |s| - p
  {
    if p < |s| {
      NeighboursSplit(s, name, p);
      SurvivorsIff(s, name, p + 1);
      if p + 1 < |s| && s[p].name == name {
        NeighboursSplit(s, name, p + 1);
        SurvivorsIff(s, name, p + 2);
        if s[p + 1].name != name {
          assert Unnamed(s, name, p) == [s[p + 1]] + Unnamed(s, name, p + 2);
        } else {
          assert Unnamed(s, name, p) == Unnamed(s, name, p + 2);
        }
      }
    }
  }

  lemma NeighboursSplit<N, T>(s: seq<Item<N, T>>, name: N, p: nat)
    requires p < |s|
    ensures NeighboursFrom(s, name, p) <==>
              (p + 1 < |s| && s[p].name == name && s[p + 1].name == name) || NeighboursFrom(s, name, p + 1)
  {
    if p + 1 < |s| && s[p].name == name && s[p + 1].name == name {
      assert s[p + 1 - 1].name == name;
    }
  }

  predicate DistinctNames<N(==), T>(s: seq<Item<N, T>>) {
    forall i, j :: 0 <= i < j < |s| ==> s[i].name != s[j].name
  }

  // With distinct names the loop neither panics nor leaves or loses anything else.
  lemma DistinctNamesAreRemovedExactly<N, T>(s: seq<Item<N, T>>, name: N)
    requires DistinctNames(s)
    ensures !SlicesOutOfRange(s, name) && Survivors(s, name, 0) == Unnamed(s, name, 0)
  {
    RemovesExactlyTheNamedIff(s, name);
  }

  // Two subjects of one name at the end make it slice out of range.
  lemma DuplicatesCanPanic()
    ensures var s := [Item("a", 1), Item("a", 2)];
            SlicesOutOfRange(s, "a")
  {
    var s := [Item("a", 1), Item("a", 2)];
    assert s[0].name == "a";
  }

  // One element of the name between others: the others are left, in their order.
  lemma {:induction false} RemovesTheNamedOne<N, T>(before: seq<Item<N, T>>, x: Item<N, T>, after: seq<Item<N, T>>)
    requires (forall o <- before :: o.name != x.name) && forall o <- after :: o.name != x.name
    ensures Survivors(before + [x] + after, x.name, 0) == before + after
    ensures !SlicesOutOfRange(before + [x] + after, x.name)
  {
    var s := before + [x] + after;
    assert forall i :: 0 <= i < |before| ==> s[i] == before[i] && before[i] in before;
    assert forall i :: |before| < i < |s| ==> s[i] == after[i - |before| - 1] && after[i - |before| - 1] in after;
    SurvivorsAfter(s, x.name, |before| + 1);
    SurvivorsAt(s, x.name, |before|, |before|);
    assert s[..|before|] == before && s[|before| + 1..] == after;
  }

  // From p on nothing has the name.
  lemma {:induction false} SurvivorsAfter<N, T>(s: seq<Item<N, T>>, name: N, p: nat)
    requires p <= |s| && forall i :: p <= i < |s| ==> s[i].name != name
    ensures Survivors(s, name, p) == s[p..]
    decreases |s| - p
  {
    if p < |s| {
      SurvivorsAfter(s, name, p + 1);
    }
  }

  // The only element of the name is at k, n places on.
  lemma {:induction false} SurvivorsAt<N, T>(s: seq<Item<N, T>>, name: N, k: nat, n: nat)
    requires n <= k < |s| && s[k].name == name
    requires forall i :: 0 <= i < |s| && i != k ==> s[i].name != name
    ensures Survivors(s, name, k - n) == s[k - n..k] + s[k + 1..]
    decreases n
  {
    if n > 0 {
      SurvivorsAt(s, name, k, n - 1);
    } else if k + 1 < |s| {
      SurvivorsAfter(s, name, k + 2);
      assert [] + s[k + 1..] == [s[k + 1]] + s[k + 2..];
    }
  }
}
