// What each key does to the command bars, aspect by aspect, and what short sequences
// of keys bring about: searching for a term, choosing a column, deleting an element.
module CommandBarKeys {
  import opened Options
  import opened CommandBars
  import opened CommandBarRuns
  import opened SubjectsBars

  // The search bar.

  lemma SearchKeys(s: Search, k: Key, typed: (string, Key) -> string)
    ensures var t := SearchPressed(s, k, typed);
            && (s.state == Searching && k in {Slash, Esc} ==> t == Search(Hidden, ""))
            && (s.state == Searching && k == Enter ==> t.term == s.term && (t.state == Searched <==> s.term != "") && t.state != Searching)
            && (s.state == Searching && k !in {Slash, Esc, Enter} ==> t == Search(Searching, typed(s.term, k)))
            && (s.state != Searching ==> t.term == s.term && (t.state == Searching <==> k == Slash))
            && (s.state == Searched && k != Slash ==> t == s)
            && (s.state == Hidden && k !in {Slash, Enter} ==> t == s)
            && (s.state == Hidden && k == Enter ==> (t.state == Searched <==> s.term != "") && (t.state == Hidden <==> s.term == ""))
  {
  }

  predicate IsText(k: Key) {
    k !in {Slash, F2, F3, Enter, Esc}
  }

  function TypedAll(term: string, ks: seq<Key>, typed: (string, Key) -> string): string {
    if ks == [] then term else typed(TypedAll(term, ks[..|ks| - 1], typed), ks[|ks| - 1])
  }

  function KeysOnly<T>(ks: seq<Key>): seq<Press<T>> {
    seq(|ks|, i requires 0 <= i < |ks| => Press(ks[i], None))
  }

  // On new bars: slash and some text leave the search open with the text.
  lemma {:induction false} TypingSearches<T>(b: Bars<T>, ks: seq<Key>, u: Setup<T>)
    requires Fresh(b) && forall k <- ks :: IsText(k)
    ensures var c := After(b, [Press(Slash, None)] + KeysOnly<T>(ks), u);
            && c.search == Search(Searching, TypedAll(b.search.term, ks, u.typed))
            && c.active == SearchBar && c.notifier == b.notifier
  {
    var slash := [Press(Slash, None)];
    if ks == [] {
      AfterSnoc(b, [], Press(Slash, None), u);
      assert [] + [Press(Slash, None)] == slash + KeysOnly<T>(ks) == slash;
    } else {
      var front, last := ks[..|ks| - 1], ks[|ks| - 1];
      TypingSearches(b, front, u);
      AfterSnoc(b, slash + KeysOnly<T>(front), Press(last, None), u);
      assert slash + KeysOnly<T>(ks) == slash + KeysOnly<T>(front) + [Press(last, None)];
      assert IsText(last);
    }
  }

  // Enter then keeps the term, unless it is empty, and gives the focus back.
  lemma EnterSearches<T>(b: Bars<T>, ks: seq<Key>, u: Setup<T>)
    requires Fresh(b) && forall k <- ks :: IsText(k)
    ensures var c := After(b, [Press(Slash, None)] + KeysOnly<T>(ks) + [Press(Enter, None)], u);
            && c.search.term == TypedAll(b.search.term, ks, u.typed)
            && c.search.state == (if c.search.term == "" then Hidden else Searched)
            && !Focussed(c)
  {
    TypingSearches(b, ks, u);
    AfterSnoc(b, [Press(Slash, None)] + KeysOnly<T>(ks), Press(Enter, None), u);
  }

  // The sort bar.

  lemma SortKeys(s: Sort, k: Key)
    requires s.Valid()
    ensures var t := SortPressed(s, k);
            && (t.active <==> if k == F3 then !s.active else s.active && k != Esc)
            && (k in {H, Left} ==> t.selectedIdx == if s.selectedIdx == 0 then 0 else s.selectedIdx - 1)
            && (k in {L, Right} ==> t.selectedIdx == if s.selectedIdx + 1 == |s.sorts| then s.selectedIdx else s.selectedIdx + 1)
            && (k !in {H, L, Left, Right} ==> t.selectedIdx == s.selectedIdx)
            && (k != Enter ==> t.sorts == s.sorts && t.activeIdx == s.activeIdx)
            && (k == Enter ==> t.activeIdx == s.selectedIdx)
            && (k == Enter && s.activeIdx != s.selectedIdx ==> t.sorts == s.sorts)
            && (k == Enter && s.activeIdx == s.selectedIdx ==>
                  && |t.sorts| == |s.sorts|
                  && (forall i :: 0 <= i < |s.sorts| && i != s.activeIdx ==> t.sorts[i] == s.sorts[i])
                  && t.sorts[s.activeIdx] == SortLabel(s.sorts[s.activeIdx].title, !s.sorts[s.activeIdx].ascending))
  {
  }

  function SortAfter(s: Sort, ks: seq<Key>): (t: Sort)
    requires s.Valid()
    ensures t.Valid()
    decreases |ks|
  {
    if ks == [] then s else SortAfter(SortPressed(s, ks[0]), ks[1..])
  }

  // Any column can be chosen: by moving to it, to the left or to the right, and enter.
  // Choosing the one already chosen turns its direction, and only that.
  lemma {:induction false} ChooseColumn(s: Sort, j: nat) returns (ks: seq<Key>)
    requires s.Valid() && j < |s.sorts|
    ensures |ks| == 1 + (if j < s.selectedIdx then s.selectedIdx - j else j - s.selectedIdx) && ks[|ks| - 1] == Enter
    ensures forall i :: 0 <= i < |ks| - 1 ==> ks[i] == if j < s.selectedIdx then Left else Right
    ensures var t := SortAfter(s, ks);
            && t.activeIdx == t.selectedIdx == j
            && t.SortedBy() == if j == s.activeIdx then SortLabel(s.sorts[j].title, !s.sorts[j].ascending) else s.sorts[j]
    decreases if j < s.selectedIdx then s.selectedIdx - j else j - s.selectedIdx
  {
    if j == s.selectedIdx {
      ks := [Enter];
      assert ks[1..] == [];
    } else {
      var k := if j < s.selectedIdx then Left else Right;
      var rest := ChooseColumn(SortPressed(s, k), j);
      ks := [k] + rest;
      assert ks[1..] == rest;
    }
  }

  // The delete bar.

  lemma DeleteKeys<T>(d: Delete<T>, k: Key, u: DeleteSetup<T>)
    requires u.deleteKey !in {Esc, Enter}
    ensures var t := DeletePressed(d, k, u);
            var refused := u.validate.Some? && !u.validate.value(d.value);
            && t.value == d.value
            && (k == u.deleteKey ==> (t.active <==> !d.active) && t.confirmed == d.confirmed)
            && (k == Esc ==> !t.active && t.confirmed == d.confirmed)
            && (k == Enter ==> (t.active <==> d.active && (refused || d.confirmed)) && (t.confirmed <==> refused && d.confirmed))
            && (k !in {u.deleteKey, Esc, Enter} ==> t.active == d.active && t.confirmed == u.toggled(d.confirmed, k))
            && (DeleteCommand(d, k, u) == DeleteOf(d.value) <==> k == Enter && d.confirmed && !refused)
            && (DeleteCommand(d, k, u) == Refused(d.value) <==> k == Enter && refused)
            && (k != Enter ==> DeleteCommand(d, k, u) == NoCommand)
  {
  }

  // The table bar, with the notifier idle and the delete bar on F2.

  predicate Idle<T>(b: Bars<T>, u: Setup<T>) {
    b.Valid() && Exclusive(b) && b.notifier == Notifier(false, false) && u.deletion.deleteKey == F2
  }

  lemma SlashOpensTheSearch<T>(b: Bars<T>, selection: Option<T>, u: Setup<T>)
    requires Idle(b, u)
    ensures var c := Pressed(b, Slash, selection, u);
            && !c.delete.active && !c.SortActive()
            && (b.search.state == Searching ==> c.search == Search(Hidden, "") && c.active == NoBar)
            && (b.search.state != Searching ==> c.search == Search(Searching, b.search.term) && c.active == SearchBar)
  {
  }

  lemma F2OpensTheDeletion<T>(b: Bars<T>, v: T, u: Setup<T>)
    requires Idle(b, u)
    ensures var c := Pressed(b, F2, Some(v), u);
            && !c.search.Active() && c.search.term == b.search.term && !c.SortActive()
            && (b.delete.active ==> !c.delete.active && c.active == NoBar)
            && (!b.delete.active ==> c.delete == Delete(true, b.delete.confirmed, v) && c.active == DeleteBar)
  {
  }

  lemma F2NeedsASelection<T>(b: Bars<T>, u: Setup<T>)
    requires Idle(b, u)
    ensures var c := Pressed(b, F2, None, u);
            c.delete == b.delete && c.search == b.search && c.sort == b.sort && c.active == b.active
  {
  }

  lemma F3OpensTheSorting<T>(b: Bars<T>, selection: Option<T>, u: Setup<T>)
    requires Idle(b, u)
    ensures var c := Pressed(b, F3, selection, u);
            && (b.sort.None? ==> c.delete == b.delete && c.search == b.search && c.sort.None? && c.active == b.active)
            && (b.sort.Some? && !b.sort.value.active ==>
                  && c.SortActive() && c.active == SortBar && !c.search.Active() && c.search.term == b.search.term && !c.delete.active)
            && (b.sort.Some? && b.sort.value.active ==> !c.SortActive() && c.active == NoBar)
  {
  }

  // Any other key goes to the open bar alone. When that closes, the search bar gets its
  // place back if it had it before.
  lemma KeysReachTheActiveBar<T>(b: Bars<T>, k: Key, selection: Option<T>, u: Setup<T>)
    requires Idle(b, u) && k !in {Slash, F2, F3}
    ensures var c := Pressed(b, k, selection, u);
            && c.search == (if b.active == SearchBar then SearchPressed(b.search, k, u.typed) else b.search)
            && c.delete == (if b.active == DeleteBar then DeletePressed(b.delete, k, u.deletion) else b.delete)
            && (b.sort.None? ==> c.sort.None?)
            && (b.sort.Some? ==> c.sort == Some(if b.active == SortBar then SortPressed(b.sort.value, k) else b.sort.value))
            && (b.active in {SearchBar, DeleteBar, SortBar} && !c.delete.active && !c.SortActive() && !c.search.Active() ==>
                  !c.searchPrevActive && c.active == if b.active == SearchBar || b.searchPrevActive then SearchBar else NoBar)
  {
    KeyLeavesTheOthers(b.(searchPrevActive := b.searchPrevActive || b.active == SearchBar), k, u);
  }

  lemma KeyLeavesTheOthers<T>(b: Bars<T>, k: Key, u: Setup<T>)
    requires b.Valid()
    ensures var c := Delegated(b, k, u);
            && c.search == (if b.active == SearchBar then SearchPressed(b.search, k, u.typed) else b.search)
            && c.delete == (if b.active == DeleteBar then DeletePressed(b.delete, k, u.deletion) else b.delete)
            && c.sort == (if b.active == SortBar then Some(SortPressed(b.sort.value, k)) else b.sort)
  {
  }

  // Enter in the open delete bar, confirmed and not refused, is the one way to delete.
  lemma DeletesIff<T>(b: Bars<T>, k: Key, selection: Option<T>, v: T, u: Setup<T>)
    requires Idle(b, u)
    ensures Issued(b, k, selection, u) == DeleteOf(v) <==>
              && k == Enter && b.delete.active && b.delete.confirmed && v == b.delete.value
              && (u.deletion.validate.Some? ==> u.deletion.validate.value(v))
  {
  }

  // The notifier: with priority it takes every key while it is shown, and the first one
  // after that only makes it give way.
  lemma PriorityTakesEveryKey<T>(b: Bars<T>, k: Key, selection: Option<T>, u: Setup<T>)
    requires b.Valid() && b.active == NotifierBar && b.notifier.hasPriority
    ensures Pressed(b, k, selection, u) == (if b.notifier.active then b else b.(active := NoBar))
    ensures Issued(b, k, selection, u) == NoCommand
  {
  }

  // A message used up elsewhere changes no bar, only which one has the keys: a notifier
  // that is shown gets them, a bar that has closed gives way.
  lemma NothingIsTyped<T>(b: Bars<T>)
    requires b.Valid()
    ensures var c := NothingPressed(b);
            && c.search == b.search && c.delete == b.delete && c.sort == b.sort && c.notifier == b.notifier
            && (b.notifier.active ==> c.active == NotifierBar)
            && (!b.notifier.active && b.active == NotifierBar && b.notifier.hasPriority ==> c.active == NoBar)
            && (!b.notifier.active && b.active in {SearchBar, DeleteBar, SortBar} && StillOpen(b) ==> c.active == b.active)
            && (!b.notifier.active && b.active in {DeleteBar, SortBar} && !StillOpen(b) ==>
                  c.active == if b.searchPrevActive then SearchBar else NoBar)
            && (b.active == NoBar && !b.notifier.active ==> c.active == NoBar)
  {
  }

  predicate StillOpen<T>(b: Bars<T>) {
    (b.active == SearchBar && b.search.state != Hidden) || (b.active == DeleteBar && b.delete.active) || (b.active == SortBar && b.SortActive())
  }

  // The bars have the focus while a deletion or the sorting is open or a term is typed,
  // not while a search result is shown.
  lemma FocussedIff<T>(b: Bars<T>, u: Setup<T>)
    requires Idle(b, u)
    ensures Focussed(b) <==> b.delete.active || b.SortActive() || b.search.state == Searching
  {
  }

  // Hiding keeps the term, the confirmation and the chosen column.
  lemma HidingClosesAll<T>(b: Bars<T>)
    ensures var c := AllHidden(b);
            && c.search == Search(Hidden, b.search.term) && c.delete == Delete(false, b.delete.confirmed, b.delete.value)
            && !c.SortActive() && (c.sort.Some? <==> b.sort.Some?) && !Focussed(c) && c.notifier == b.notifier
            && (b.sort.Some? ==> c.sort.value == Sort(b.sort.value.sorts, b.sort.value.selectedIdx, b.sort.value.activeIdx, false))
  {
  }

  // The subjects page's fourth bar.

  predicate Idle4<T>(b: Bars4<T>, u: Setup4<T>) {
    b.Valid() && Exclusive4(b) && b.main.notifier == Notifier(false, false) && SourceKeys(u)
  }

  lemma F4OpensTheFourth<T>(b: Bars4<T>, v: T, u: Setup4<T>)
    requires Idle4(b, u) && !b.hard.active
    ensures var c := Pressed4(b, F4, Some(v), u);
            && c.hard == Delete(true, b.hard.confirmed, v) && c.main.active == NoBar
            && !c.main.delete.active && !c.main.search.Active() && !c.main.SortActive() && c.main.search.term == b.main.search.term
  {
  }

  // While it is open, it closes by F4, escape and an unconfirmed enter, and makes way
  // for a key it is not done with that opens another bar; nothing else closes it.
  lemma FourthStaysIff<T>(b: Bars4<T>, k: Key, selection: Option<T>, u: Setup4<T>)
    requires Idle4(b, u) && b.hard.active
    ensures var refused := u.hard.validate.Some? && !u.hard.validate.value(b.hard.value);
            var opens := k == Slash || k == F3 || (k == F2 && selection.Some?);
            Pressed4(b, k, selection, u).hard.active <==>
              && k !in {F4, Esc} && (k == Enter ==> refused || b.hard.confirmed)
              && !(opens && !u.hard.handled(b.hard.confirmed, k))
  {
    HiddenMainFocusses(b.main, k, selection, u.main);
  }

  // A key the fourth bar uses up reaches no other bar, any other key does as without it.
  lemma FourthKeepsItsKeys<T>(b: Bars4<T>, k: Key, selection: Option<T>, u: Setup4<T>)
    requires b.Valid() && b.hard.active && u.hard.deleteKey == F4
    ensures var c := Pressed4(b, k, selection, u);
            if k in {F4, Esc, Enter} || u.hard.handled(b.hard.confirmed, k)
            then c.main.search == b.main.search && c.main.delete == b.main.delete && c.main.sort == b.main.sort
            else c.main == Pressed(b.main, k, selection, u.main)
  {
    NothingIsTyped(b.main);
  }

  lemma HiddenMainFocusses<T>(b: Bars<T>, k: Key, selection: Option<T>, u: Setup<T>)
    requires Idle(b, u) && b.active == NoBar && b.sort.Some?
    ensures Focussed(Pressed(b, k, selection, u)) <==> k == Slash || k == F3 || (k == F2 && selection.Some?)
    ensures !Focussed(NothingPressed(b))
  {
  }

  lemma DeletesForGoodIff<T>(b: Bars4<T>, k: Key, selection: Option<T>, v: T, u: Setup4<T>)
    requires Idle4(b, u)
    ensures Issued4(b, k, selection, u) == Hard(DeleteOf(v)) <==>
              && k == Enter && b.hard.active && b.hard.confirmed && v == b.hard.value
              && (u.hard.validate.Some? ==> u.hard.validate.value(v))
  {
  }
}
