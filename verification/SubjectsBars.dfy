// The command bars of the subjects page, ui/pages/subjects_page/table_cmdbar.go: a
// table bar, and a fourth bar on F4 that deletes a subject permanently.
module SubjectsBars {
  import opened Options
  import opened CommandBars
  import opened CommandBarRuns

  datatype Bars4<T> = Bars4(main: Bars<T>, hard: Delete<T>) {
    predicate Valid() {
      main.Valid() && main.sort.Some?
    }
  }

  // main is how the table bar's children were made, hard how the fourth bar was.
  datatype Setup4<!T> = Setup4(main: Setup<T>, hard: DeleteSetup<T>)

  function Pressed4<T>(b: Bars4<T>, k: Key, selection: Option<T>, u: Setup4<T>): (c: Bars4<T>)
    requires b.Valid()
    ensures c.main.Valid()
  {
    if b.hard.active then
      var hard := DeletePressed(b.hard, k, u.hard);
      var passedOn := PassesOn(b.hard, k, u.hard);
      if !hard.active || passedOn then
        var main := if passedOn then Pressed(b.main, k, selection, u.main) else NothingPressed(b.main);
        Bars4(main, if Focussed(main) then hard.(active := false) else hard)
      else b.(hard := hard)
    else if k == F4 && selection.Some? then
      var hard := DeletePressed(b.hard, F4, u.hard);
      if hard.active then Bars4(AllHidden(b.main), hard.(value := selection.value)) else b.(hard := hard)
    else b.(main := Pressed(b.main, k, selection, u.main))
  }

  // Which of the two kinds of deletion a key sets off, if any.
  datatype Command4<T> = Soft(command: Command<T>) | Hard(command: Command<T>)

  function Issued4<T>(b: Bars4<T>, k: Key, selection: Option<T>, u: Setup4<T>): Command4<T> {
    if b.hard.active then
      if PassesOn(b.hard, k, u.hard) then Soft(Issued(b.main, k, selection, u.main))
      else if !DeletePressed(b.hard, k, u.hard).active then Soft(NoCommand)
      else Hard(DeleteCommand(b.hard, k, u.hard))
    else if k == F4 && selection.Some? then Hard(DeleteCommand(b.hard, F4, u.hard))
    else Soft(Issued(b.main, k, selection, u.main))
  }

  class SubjectsCmdsBar<T> {
    const mainCBar: TableCmdsBar<T>
    const hardDeleteCBar: DeleteCmdBar<T>

    constructor (mainCBar: TableCmdsBar<T>, hardDeleteCBar: DeleteCmdBar<T>)
      ensures this.mainCBar == mainCBar && this.hardDeleteCBar == hardDeleteCBar
    {
      this.mainCBar, this.hardDeleteCBar := mainCBar, hardDeleteCBar;
    }

    predicate Valid()
      reads this, mainCBar, mainCBar.deleteCBar, mainCBar.searchCBar, mainCBar.sortByCBar, hardDeleteCBar
    {
      mainCBar.deleteCBar != hardDeleteCBar && mainCBar.sortByCBar != null && Value().Valid()
    }

    function Value(): Bars4<T>
      reads this, mainCBar, mainCBar.deleteCBar, mainCBar.searchCBar, mainCBar.sortByCBar, hardDeleteCBar
    {
      Bars4(mainCBar.Value(), hardDeleteCBar.Value())
    }

    function Setting(): Setup4<T> {
      Setup4(mainCBar.Setting(), hardDeleteCBar.setup)
    }

    method Update(k: Key, selection: Option<T>) returns (c: Command4<T>)
      requires Valid()
      modifies mainCBar, mainCBar.deleteCBar, mainCBar.searchCBar, mainCBar.sortByCBar, hardDeleteCBar
      ensures Value() == Pressed4(old(Value()), k, selection, Setting())
      ensures c == Issued4(old(Value()), k, selection, Setting())
    {
      if hardDeleteCBar.active {
        c := UpdateHard(k, selection);
        return;
      }
      if k == F4 && selection.Some? {
        var active, passedOn, command := hardDeleteCBar.Update(k);
        if active {
          hardDeleteCBar.Target(selection.value);
          mainCBar.Hide();
        }
        return Hard(command);
      }
      var command := mainCBar.Update(k, selection);
      return Soft(command);
    }

    // Update while the fourth bar is open: it comes first, and the table bar gets what
    // it hands on, or nil when it just closed.
    method UpdateHard(k: Key, selection: Option<T>) returns (c: Command4<T>)
      requires Valid() && hardDeleteCBar.active
      modifies mainCBar, mainCBar.deleteCBar, mainCBar.searchCBar, mainCBar.sortByCBar, hardDeleteCBar
      ensures Value() == Pressed4(old(Value()), k, selection, Setting())
      ensures c == Issued4(old(Value()), k, selection, Setting())
    {
      var active, passedOn, command := hardDeleteCBar.Update(k);
      if !active || passedOn {
        c := Soft(NoCommand);
        if passedOn {
          var soft := mainCBar.Update(k, selection);
          c := Soft(soft);
        } else {
          mainCBar.UpdateNil();
        }
        var focussed := mainCBar.IsFocussed();
        if focussed {
          hardDeleteCBar.Hide();
        }
        return;
      }
      return Hard(command);
    }
  }

  // Over whole runs.

  lemma SortBarStays<T>(b: Bars4<T>, k: Key, selection: Option<T>, u: Setup4<T>)
    requires b.Valid()
    ensures Pressed4(b, k, selection, u).Valid()
  {
    StepKeepsColumns(b.main, k, selection, u.main);
  }

  function After4<T>(b: Bars4<T>, presses: seq<Press<T>>, u: Setup4<T>): (c: Bars4<T>)
    requires b.Valid()
    ensures c.Valid()
  {
    if presses == [] then b
    else
      var before, last := After4(b, presses[..|presses| - 1], u), presses[|presses| - 1];
      SortBarStays(before, last.key, last.selection, u);
      Pressed4(before, last.key, last.selection, u)
  }

  // The keys the source gives to the two delete bars.
  predicate SourceKeys<T>(u: Setup4<T>) {
    u.main.deletion.deleteKey == F2 && u.hard.deleteKey == F4
  }

  // The three bars of the table exclude each other, and while the fourth one is open
  // none of them is the active bar; so at most one of the four is open.
  predicate Exclusive4<T>(b: Bars4<T>) {
    Exclusive(b.main) && (b.hard.active ==> b.main.active == NoBar)
  }

  function OpenBars<T>(b: Bars4<T>): nat {
    (if b.hard.active then 1 else 0) + (if b.main.delete.active then 1 else 0) +
    (if b.main.search.Active() then 1 else 0) + (if b.main.SortActive() then 1 else 0)
  }

  lemma StepKeepsExclusive4<T>(b: Bars4<T>, k: Key, selection: Option<T>, u: Setup4<T>)
    requires b.Valid() && Exclusive4(b) && SourceKeys(u)
    ensures Exclusive4(Pressed4(b, k, selection, u))
  {
    StepKeepsExclusive(b.main, k, selection, u.main);
    if b.hard.active {
      OpensOrStaysHidden(b.main, k, selection, u.main);
    }
  }

  // A hidden table bar reacts to a key by taking the focus, or not at all.
  lemma OpensOrStaysHidden<T>(b: Bars<T>, k: Key, selection: Option<T>, u: Setup<T>)
    requires b.Valid() && Exclusive(b) && b.active == NoBar && u.deletion.deleteKey == F2
    ensures var c := Pressed(b, k, selection, u); c.active == NoBar || Focussed(c)
  {
  }

  lemma {:induction false} AtMostOneOfFour<T>(b: Bars4<T>, presses: seq<Press<T>>, u: Setup4<T>)
    requires b.Valid() && Fresh(b.main) && !b.hard.active && SourceKeys(u)
    ensures Exclusive4(After4(b, presses, u))
    ensures OpenBars(After4(b, presses, u)) <= 1
  {
    if presses != [] {
      var front, last := presses[..|presses| - 1], presses[|presses| - 1];
      AtMostOneOfFour(b, front, u);
      StepKeepsExclusive4(After4(b, front, u), last.key, last.selection, u);
    }
  }

  lemma HardStep<T>(b: Bars4<T>, k: Key, selection: Option<T>, u: Setup4<T>)
    requires b.Valid() && SourceKeys(u) && Pressed4(b, k, selection, u).hard.active
    ensures var c := Pressed4(b, k, selection, u);
            if b.hard.active then c.hard.value == b.hard.value else k == F4 && selection == Some(c.hard.value)
  {
  }

  ghost predicate OpenSince<T>(b: Bars4<T>, presses: seq<Press<T>>, u: Setup4<T>, j: nat)
    requires b.Valid()
  {
    forall i :: j < i <= |presses| ==> After4(b, presses[..i], u).hard.active
  }

  lemma StillOpen<T>(b: Bars4<T>, presses: seq<Press<T>>, p: Press<T>, u: Setup4<T>, j: nat)
    requires b.Valid() && OpenSince(b, presses, u, j) && After4(b, presses + [p], u).hard.active
    ensures OpenSince(b, presses + [p], u, j)
  {
    assert (presses + [p])[..|presses| + 1] == presses + [p];
    forall i | j < i <= |presses|
      ensures After4(b, (presses + [p])[..i], u).hard.active
    {
      assert (presses + [p])[..i] == presses[..i];
    }
  }

  // While the fourth bar is open it aims at the subject that was selected when F4
  // opened it: j is that press, and it has been open ever since.
  lemma {:induction false} HardOpenedBy<T>(b: Bars4<T>, presses: seq<Press<T>>, u: Setup4<T>) returns (j: nat)
    requires b.Valid() && !b.hard.active && SourceKeys(u) && After4(b, presses, u).hard.active
    ensures j < |presses| && presses[j] == Press(F4, Some(After4(b, presses, u).hard.value))
    ensures OpenSince(b, presses, u, j)
  {
    var front, last := presses[..|presses| - 1], presses[|presses| - 1];
    var c := After4(b, front, u);
    HardStep(c, last.key, last.selection, u);
    assert presses == front + [last];
    j := |front|;
    if c.hard.active {
      j := HardOpenedBy(b, front, u);
    }
    StillOpen(b, front, last, u, j);
  }

  // A permanent deletion is only ever of the subject that was selected when the still
  // open fourth bar was opened, and no other bar is open then.
  lemma HardDeletesWhatWasSelected<T>(b: Bars4<T>, presses: seq<Press<T>>, k: Key, selection: Option<T>, u: Setup4<T>)
    returns (j: nat)
    requires b.Valid() && Fresh(b.main) && !b.hard.active && SourceKeys(u)
    requires var issued := Issued4(After4(b, presses, u), k, selection, u); issued.Hard? && issued.command.DeleteOf?
    ensures k == Enter && After4(b, presses, u).hard.confirmed && OpenBars(After4(b, presses, u)) == 1
    ensures j < |presses| && presses[j] == Press(F4, Some(Issued4(After4(b, presses, u), k, selection, u).command.value))
    ensures OpenSince(b, presses, u, j)
  {
    AtMostOneOfFour(b, presses, u);
    j := HardOpenedBy(b, presses, u);
  }
}
