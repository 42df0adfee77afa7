// What holds after any sequence of key presses on a table's command bars.
module CommandBarRuns {
  import opened Options
  import opened CommandBars

  datatype Press<T> = Press(key: Key, selection: Option<T>)

  // NewTableCmdsBar with new bars: nothing is open, and the idle notifier is the active bar.
  predicate Fresh<T>(b: Bars<T>) {
    && b.Valid() && b.active == NotifierBar && !b.searchPrevActive && b.notifier == Notifier(false, false)
    && !b.delete.active && b.search.state == Hidden && !b.SortActive()
  }

  function After<T>(b: Bars<T>, presses: seq<Press<T>>, u: Setup<T>): (c: Bars<T>)
    requires b.Valid()
    ensures c.Valid()
  {
    if presses == [] then b
    else
      var last := presses[|presses| - 1];
      Pressed(After(b, presses[..|presses| - 1], u), last.key, last.selection, u)
  }

  // An open delete or sort bar is the active bar and the other way round, and a
  // visible search bar is the active bar; so at most one of the three is open.
  predicate Exclusive<T>(b: Bars<T>) {
    && (b.delete.active <==> b.active == DeleteBar)
    && (b.SortActive() <==> b.active == SortBar)
    && (b.search.Active() ==> b.active == SearchBar)
  }

  lemma StepKeepsExclusive<T>(b: Bars<T>, k: Key, selection: Option<T>, u: Setup<T>)
    requires b.Valid() && Exclusive(b) && u.deletion.deleteKey == F2
    ensures Exclusive(Pressed(b, k, selection, u))
  {
    var c := b.(searchPrevActive := b.searchPrevActive || b.active == SearchBar);
    if k != Slash && k != F2 && k != F3 {
      DelegatingKeepsExclusive(c, k, u);
    }
  }

  lemma DelegatingKeepsExclusive<T>(b: Bars<T>, k: Key, u: Setup<T>)
    requires b.Valid() && Exclusive(b) && u.deletion.deleteKey == F2 && k != Slash && k != F2 && k != F3
    ensures Exclusive(Delegated(b, k, u))
  {
    var c := ActivePressed(b, k, u);
    assert !StillActive(c) ==> !c.delete.active && !c.SortActive() && !c.search.Active();
    assert StillActive(c) ==> Exclusive(c);
  }

  lemma {:induction false} AlwaysExclusive<T>(b: Bars<T>, presses: seq<Press<T>>, u: Setup<T>)
    requires b.Valid() && Exclusive(b) && u.deletion.deleteKey == F2
    ensures Exclusive(After(b, presses, u))
  {
    if presses != [] {
      var last := presses[|presses| - 1];
      AlwaysExclusive(b, presses[..|presses| - 1], u);
      StepKeepsExclusive(After(b, presses[..|presses| - 1], u), last.key, last.selection, u);
    }
  }

  // F2 is wired to the delete bar whatever key that bar was made with. Were it
  // another one, F2 over an open search would take the focus and leave it visible.
  lemma AlwaysExclusiveIff<T(!new)>(b: Bars<T>, selected: T, u: Setup<T>)
    requires Fresh(b)
    ensures (forall presses :: Exclusive(After(b, presses, u))) <==> u.deletion.deleteKey == F2
  {
    if u.deletion.deleteKey == F2 {
      forall presses
        ensures Exclusive(After(b, presses, u))
      {
        AlwaysExclusive(b, presses, u);
      }
    } else {
      var presses := SlashThenF2(b, selected, u);
      assert !Exclusive(After(b, presses, u));
    }
  }

  lemma SlashThenF2<T>(b: Bars<T>, selected: T, u: Setup<T>) returns (presses: seq<Press<T>>)
    requires Fresh(b) && u.deletion.deleteKey != F2
    ensures !Exclusive(After(b, presses, u))
  {
    var slash := [] + [Press(Slash, None)];
    presses := slash + [Press(F2, Some(selected))];
    AfterSnoc(b, [], Press(Slash, None), u);
    AfterSnoc(b, slash, Press(F2, Some(selected)), u);
    var c := After(b, slash, u);
    assert c.search.state == Searching && c.active == SearchBar && !c.delete.active;
  }

  lemma AfterSnoc<T>(b: Bars<T>, presses: seq<Press<T>>, p: Press<T>, u: Setup<T>)
    requires b.Valid()
    ensures After(b, presses + [p], u) == Pressed(After(b, presses, u), p.key, p.selection, u)
  {
  }

  lemma DeleteStep<T>(b: Bars<T>, k: Key, selection: Option<T>, u: Setup<T>)
    requires b.Valid() && Exclusive(b) && u.deletion.deleteKey == F2 && Pressed(b, k, selection, u).delete.active
    ensures var c := Pressed(b, k, selection, u);
            if b.delete.active then c.delete.value == b.delete.value else k == F2 && selection == Some(c.delete.value)
  {
  }

  // While the delete bar is open it aims at the element that was selected when it was
  // opened: j is that press, and the bar has been open ever since.
  lemma {:induction false} OpenedBy<T>(b: Bars<T>, presses: seq<Press<T>>, u: Setup<T>) returns (j: nat)
    requires Fresh(b) && u.deletion.deleteKey == F2 && After(b, presses, u).delete.active
    ensures j < |presses| && presses[j].key == F2 && presses[j].selection == Some(After(b, presses, u).delete.value)
    ensures !After(b, presses[..j], u).delete.active
    ensures forall i :: j < i <= |presses| ==> After(b, presses[..i], u).delete.active
  {
    var front, last := presses[..|presses| - 1], presses[|presses| - 1];
    var c := After(b, front, u);
    AlwaysExclusive(b, front, u);
    DeleteStep(c, last.key, last.selection, u);
    assert presses[..|presses|] == presses;
    if c.delete.active {
      j := OpenedBy(b, front, u);
      assert presses[..j] == front[..j];
      forall i | j < i <= |front|
        ensures After(b, presses[..i], u).delete.active
      {
        assert presses[..i] == front[..i];
      }
    } else {
      j := |front|;
    }
  }

  // A delete command is always for an element that was selected when the open bar
  // was opened, and never for one selected since.
  lemma DeletesWhatWasSelected<T>(b: Bars<T>, presses: seq<Press<T>>, k: Key, selection: Option<T>, u: Setup<T>) returns (j: nat)
    requires Fresh(b) && u.deletion.deleteKey == F2 && Issued(After(b, presses, u), k, selection, u).DeleteOf?
    ensures k == Enter && After(b, presses, u).delete.confirmed
    ensures j < |presses| && presses[j] == Press(F2, Some(Issued(After(b, presses, u), k, selection, u).value))
    ensures forall i :: j < i <= |presses| ==> After(b, presses[..i], u).delete.active
  {
    AlwaysExclusive(b, presses, u);
    j := OpenedBy(b, presses, u);
  }

  // The press at i turned the confirmation from cancel to delete.
  predicate AcceptedAt<T>(b: Bars<T>, presses: seq<Press<T>>, u: Setup<T>, i: nat)
    requires b.Valid() && i < |presses|
  {
    !After(b, presses[..i], u).delete.confirmed && After(b, presses[..i + 1], u).delete.confirmed
  }

  // Opening the bar does not take the confirmation back. One that stands was made
  // since some press j, say the opening one, if and only if it did not stand all along.
  lemma {:induction false} ConfirmedSinceIff<T>(b: Bars<T>, presses: seq<Press<T>>, u: Setup<T>, j: nat)
    requires b.Valid() && j <= |presses| && After(b, presses, u).delete.confirmed
    ensures (exists i: nat :: j <= i < |presses| && AcceptedAt(b, presses, u, i)) <==>
            (exists i: nat :: j <= i <= |presses| && !After(b, presses[..i], u).delete.confirmed)
  {
    if i: nat :| j <= i <= |presses| && !After(b, presses[..i], u).delete.confirmed {
      var k := NextAccepted(b, presses, u, i);
    }
  }

  lemma {:induction false} NextAccepted<T>(b: Bars<T>, presses: seq<Press<T>>, u: Setup<T>, i: nat) returns (k: nat)
    requires b.Valid() && i <= |presses| && After(b, presses, u).delete.confirmed && !After(b, presses[..i], u).delete.confirmed
    ensures i <= k < |presses| && AcceptedAt(b, presses, u, k)
    decreases |presses| - i
  {
    assert presses[..|presses|] == presses;
    if After(b, presses[..i + 1], u).delete.confirmed {
      k := i;
    } else {
      k := NextAccepted(b, presses, u, i + 1);
    }
  }

  lemma {:induction false} NotifierStays<T>(b: Bars<T>, presses: seq<Press<T>>, u: Setup<T>)
    requires b.Valid()
    ensures After(b, presses, u).notifier == b.notifier
  {
    if presses != [] {
      var front, last := presses[..|presses| - 1], presses[|presses| - 1];
      NotifierStays(b, front, u);
      StepKeepsNotifier(After(b, front, u), last.key, last.selection, u);
    }
  }

  lemma StepKeepsNotifier<T>(b: Bars<T>, k: Key, selection: Option<T>, u: Setup<T>)
    requires b.Valid()
    ensures Pressed(b, k, selection, u).notifier == b.notifier
  {
  }

  // Opening the bar on an element and pressing enter at once deletes that element if
  // and only if an earlier confirmation is still standing.
  lemma DeletesUnaskedIff<T>(b: Bars<T>, presses: seq<Press<T>>, v: T, u: Setup<T>)
    requires Fresh(b) && u.deletion.deleteKey == F2 && !After(b, presses, u).delete.active
    ensures Issued(After(b, presses + [Press(F2, Some(v))], u), Enter, None, u) == DeleteOf(v) <==>
              After(b, presses, u).delete.confirmed && !Refuses(u.deletion, v)
  {
    NotifierStays(b, presses, u);
    AfterSnoc(b, presses, Press(F2, Some(v)), u);
  }

  // And it can be: any key that accepts, pressed for a, then escape.
  lemma ConfirmationOutlivesItsBar<T>(b: Bars<T>, a: T, k: Key, u: Setup<T>) returns (presses: seq<Press<T>>)
    requires Fresh(b) && u.deletion.deleteKey == F2 && !b.delete.confirmed
    requires k !in {Slash, F2, F3, Enter, Esc} && u.deletion.toggled(false, k)
    ensures presses == [Press(F2, Some(a)), Press(k, None), Press(Esc, None)]
    ensures !After(b, presses, u).delete.active && After(b, presses, u).delete.confirmed
  {
    var first := [Press(F2, Some(a))];
    var accepted := first + [Press(k, None)];
    presses := accepted + [Press(Esc, None)];
    AfterSnoc(b, [], Press(F2, Some(a)), u);
    assert [] + [Press(F2, Some(a))] == first;
    AfterSnoc(b, first, Press(k, None), u);
    AfterSnoc(b, accepted, Press(Esc, None), u);
    var c := After(b, first, u);
    assert c.active == DeleteBar && c.delete == Delete(true, false, a);
    assert After(b, accepted, u).active == DeleteBar && After(b, accepted, u).delete == Delete(true, true, a);
  }

  // One confirmation, one delete: the next key never deletes again.
  lemma DeletesOnce<T>(b: Bars<T>, k: Key, selection: Option<T>, k': Key, selection': Option<T>, u: Setup<T>)
    requires b.Valid() && Issued(b, k, selection, u).DeleteOf?
    ensures !Issued(Pressed(b, k, selection, u), k', selection', u).DeleteOf?
  {
  }

  // The order of a table changes only by Enter in the open sort bar.
  lemma SortingChangesOnlyBy<T>(b: Bars<T>, k: Key, selection: Option<T>, u: Setup<T>)
    requires b.Valid() && b.sort.Some? && Exclusive(b) && u.deletion.deleteKey == F2
    ensures Pressed(b, k, selection, u).sort.Some?
    ensures Pressed(b, k, selection, u).sort.value.SortedBy() != b.sort.value.SortedBy() ==>
              k == Enter && b.active == SortBar && b.SortActive()
  {
  }

  predicate SameColumns(s: Option<Sort>, t: Option<Sort>) {
    && s.Some? && t.Some? && |s.value.sorts| == |t.value.sorts|
    && forall i :: 0 <= i < |s.value.sorts| ==> s.value.sorts[i].title == t.value.sorts[i].title
  }

  lemma StepKeepsColumns<T>(b: Bars<T>, k: Key, selection: Option<T>, u: Setup<T>)
    requires b.Valid() && b.sort.Some?
    ensures SameColumns(b.sort, Pressed(b, k, selection, u).sort)
  {
    if k != Slash && k != F2 && k != F3 {
      DelegatingKeepsColumns(b.(searchPrevActive := b.searchPrevActive || b.active == SearchBar), k, u);
    }
  }

  lemma DelegatingKeepsColumns<T>(b: Bars<T>, k: Key, u: Setup<T>)
    requires b.Valid() && b.sort.Some?
    ensures SameColumns(b.sort, Delegated(b, k, u).sort)
  {
    assert Delegated(b, k, u).sort == ActivePressed(b, k, u).sort;
  }

  // The columns to sort by are the ones the bar was made with, in their order, and
  // the chosen one is among them.
  lemma {:induction false} ColumnsNeverChange<T>(b: Bars<T>, presses: seq<Press<T>>, u: Setup<T>)
    requires b.Valid() && b.sort.Some?
    ensures SameColumns(b.sort, After(b, presses, u).sort)
  {
    if presses != [] {
      var front, last := presses[..|presses| - 1], presses[|presses| - 1];
      ColumnsNeverChange(b, front, u);
      StepKeepsColumns(After(b, front, u), last.key, last.selection, u);
    }
  }
}
