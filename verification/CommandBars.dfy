// The command bars of ui/components/cmdbar: a search, a delete and a sort bar, and the
// table bar that lets one of them at a time handle the keys. Key messages only; what
// the text input and the confirm widget do with a key is left open.
module CommandBars {
  import opened Options

  // Named stands for any key that has no name of its own here.
  datatype Key = Slash | F2 | F3 | F4 | Enter | Esc | H | L | Left | Right | Named(name: string)

  datatype SearchState = Hidden | Searching | Searched

  datatype Search = Search(state: SearchState, term: string) {
    predicate Active() { state != Hidden }
  }

  function SearchPressed(s: Search, k: Key, typed: (string, Key) -> string): Search {
    match k
    case Slash => if s.state == Searching then Search(Hidden, "") else s.(state := Searching)
    case Enter =>
      if s.state == Searched then s
      else s.(state := if s.term == "" then Hidden else Searched)
    case Esc => if s.state == Searching then Search(Hidden, "") else s
    case _ => if s.state == Searching then s.(term := typed(s.term, k)) else s
  }

  class SearchCmdBar {
    const typed: (string, Key) -> string
    var state: SearchState
    var term: string

    constructor (typed: (string, Key) -> string)
      ensures this.typed == typed && Value() == Search(Hidden, "")
    {
      this.typed := typed;
      state, term := Hidden, "";
    }

    function Value(): Search
      reads this
    {
      Search(state, term)
    }

    method Update(k: Key) returns (active: bool)
      modifies this
      ensures Value() == SearchPressed(old(Value()), k, typed)
      ensures active == Value().Active()
    {
      match k {
        case Slash => ToggleSearch();
        case Enter =>
          active := ConfirmSearch();
          return;
        case Esc => CancelSearch();
        case _ =>
          if state == Searching {
            term := typed(term, k);
          }
      }
      active := state == Searching || state == Searched;
    }

    method ToggleSearch()
      modifies this
      ensures Value() == SearchPressed(old(Value()), Slash, typed)
    {
      if state == Searching {
        state := Hidden;
        term := "";
      } else {
        state := Searching;
      }
    }

    method ConfirmSearch() returns (active: bool)
      modifies this
      ensures Value() == SearchPressed(old(Value()), Enter, typed)
      ensures active == Value().Active()
    {
      if state == Searched {
        return true;
      }
      if term == "" {
        state := Hidden;
      } else {
        state := Searched;
      }
      active := state == Searching || state == Searched;
    }

    method CancelSearch()
      modifies this
      ensures Value() == SearchPressed(old(Value()), Esc, typed)
    {
      if state == Searching {
        state := Hidden;
        term := "";
      } else if state == Searched {
      } else {
        state := Hidden;
      }
    }

    // Hides the bar; the term stays.
    method Hide()
      modifies this
      ensures Value() == old(Value()).(state := Hidden)
    {
      state := Hidden;
    }
  }

  datatype Delete<T> = Delete(active: bool, confirmed: bool, value: T)

  datatype Command<T> = NoCommand | DeleteOf(value: T) | Refused(value: T)

  // What a delete bar is made with: its key, the confirm widget's reaction to a key
  // and whether it is done with that key, and an optional validation.
  datatype DeleteSetup<!T> = DeleteSetup(
    deleteKey: Key, toggled: (bool, Key) -> bool, handled: (bool, Key) -> bool, validate: Option<T -> bool>)

  predicate Refuses<T>(u: DeleteSetup<T>, value: T) {
    u.validate.Some? && !u.validate.value(value)
  }

  function DeletePressed<T>(d: Delete<T>, k: Key, u: DeleteSetup<T>): Delete<T> {
    if k == u.deleteKey then d.(active := !d.active)
    else if k == Esc then d.(active := false)
    else if k == Enter then
      if Refuses(u, d.value) then d
      else if d.confirmed then d.(confirmed := false)
      else d.(active := false)
    else d.(confirmed := u.toggled(d.confirmed, k))
  }

  function DeleteCommand<T>(d: Delete<T>, k: Key, u: DeleteSetup<T>): Command<T> {
    if k == u.deleteKey || k != Enter then NoCommand
    else if Refuses(u, d.value) then Refused(d.value)
    else if d.confirmed then DeleteOf(d.value)
    else NoCommand
  }

  // Whether the delete bar hands the key on.
  predicate PassesOn<T>(d: Delete<T>, k: Key, u: DeleteSetup<T>) {
    k != u.deleteKey && k != Esc && k != Enter && !u.handled(d.confirmed, k)
  }

  class DeleteCmdBar<T> {
    const setup: DeleteSetup<T>
    var active: bool
    var deleteConfirm: bool
    var deleteValue: T

    // zero is the zero value of Go's T.
    constructor (setup: DeleteSetup<T>, zero: T)
      ensures this.setup == setup && Value() == Delete(false, false, zero)
    {
      this.setup := setup;
      active, deleteConfirm, deleteValue := false, false, zero;
    }

    function Value(): Delete<T>
      reads this
    {
      Delete(active, deleteConfirm, deleteValue)
    }

    method Update(k: Key) returns (isActive: bool, passedOn: bool, c: Command<T>)
      modifies this
      ensures Value() == DeletePressed(old(Value()), k, setup)
      ensures passedOn == PassesOn(old(Value()), k, setup)
      ensures c == DeleteCommand(old(Value()), k, setup)
      ensures isActive == Value().active
    {
      if k == setup.deleteKey {
        active := !active;
        return active, false, NoCommand;
      } else if k == Esc {
        active := false;
        return active, false, NoCommand;
      } else if k == Enter {
        if setup.validate.Some? {
          var valid := setup.validate.value(deleteValue);
          if !valid {
            return active, false, Refused(deleteValue);
          }
        }
        if deleteConfirm {
          deleteConfirm := false;
          return active, false, DeleteOf(deleteValue);
        } else {
          active := false;
          return active, false, NoCommand;
        }
      }
      passedOn := !setup.handled(deleteConfirm, k);
      deleteConfirm := setup.toggled(deleteConfirm, k);
      return active, passedOn, NoCommand;
    }

    // Delete(d) in the source.
    method Target(d: T)
      modifies this
      ensures Value() == old(Value()).(value := d)
    {
      deleteValue := d;
    }

    method Hide()
      modifies this
      ensures Value() == old(Value()).(active := false)
    {
      active := false;
    }
  }

  datatype SortLabel = SortLabel(title: string, ascending: bool)

  datatype Sort = Sort(sorts: seq<SortLabel>, selectedIdx: int, activeIdx: int, active: bool) {
    predicate Valid() {
      0 <= selectedIdx < |sorts| && 0 <= activeIdx < |sorts|
    }

    function SortedBy(): SortLabel
      requires Valid()
    {
      sorts[activeIdx]
    }
  }

  function SortPressed(s: Sort, k: Key): (t: Sort)
    requires s.Valid()
    ensures t.Valid()
  {
    match k
    case F3 => s.(active := !s.active)
    case H => s.(selectedIdx := if s.selectedIdx >= 1 then s.selectedIdx - 1 else s.selectedIdx)
    case Left => s.(selectedIdx := if s.selectedIdx >= 1 then s.selectedIdx - 1 else s.selectedIdx)
    case L => s.(selectedIdx := if s.selectedIdx < |s.sorts| - 1 then s.selectedIdx + 1 else s.selectedIdx)
    case Right => s.(selectedIdx := if s.selectedIdx < |s.sorts| - 1 then s.selectedIdx + 1 else s.selectedIdx)
    case Esc => s.(active := false)
    case Enter =>
      if s.activeIdx == s.selectedIdx then
        s.(sorts := s.sorts[s.selectedIdx := s.SortedBy().(ascending := !s.SortedBy().ascending)])
      else s.(activeIdx := s.selectedIdx)
    case _ => s
  }

  class SortByCmdBar {
    var sorts: seq<SortLabel>
    var selectedIdx: int
    var activeIdx: int
    var Active: bool

    constructor (sorts: seq<SortLabel>)
      requires |sorts| > 0
      ensures Value() == Sort(sorts, 0, 0, false)
    {
      this.sorts := sorts;
      selectedIdx, activeIdx, Active := 0, 0, false;
    }

    function Value(): Sort
      reads this
    {
      Sort(sorts, selectedIdx, activeIdx, Active)
    }

    method Update(k: Key) returns (active: bool)
      requires Value().Valid()
      modifies this
      ensures Value() == SortPressed(old(Value()), k)
      ensures active == Value().active
    {
      match k {
        case F3 => Active := !Active;
        case H => PrevElem();
        case Left => PrevElem();
        case L => NextElem();
        case Right => NextElem();
        case Esc =>
          Active := false;
          return Active;
        case Enter =>
          if activeIdx == selectedIdx {
            sorts := sorts[selectedIdx := sorts[selectedIdx].(ascending := !sorts[selectedIdx].ascending)];
          } else {
            activeIdx := selectedIdx;
          }
        case _ =>
      }
      active := Active;
    }

    method PrevElem()
      requires Value().Valid()
      modifies this`selectedIdx
      ensures Value() == SortPressed(old(Value()), H)
    {
      if selectedIdx >= 1 {
        selectedIdx := selectedIdx - 1;
      }
    }

    method NextElem()
      requires Value().Valid()
      modifies this`selectedIdx
      ensures Value() == SortPressed(old(Value()), L)
    {
      if selectedIdx < |sorts| - 1 {
        selectedIdx := selectedIdx + 1;
      }
    }
  }

  // Which of the bars activeCBar points to.
  datatype Bar = NoBar | NotifierBar | DeleteBar | SearchBar | SortBar

  // A notification only arrives as a message of another kind, so keys leave it alone.
  datatype Notifier = Notifier(active: bool, hasPriority: bool)

  datatype Bars<T> = Bars(notifier: Notifier, delete: Delete<T>, search: Search, sort: Option<Sort>, active: Bar, searchPrevActive: bool) {
    predicate Valid() {
      && (sort.Some? ==> sort.value.Valid())
      && (active == SortBar ==> sort.Some?)
    }

    predicate SortActive() {
      sort.Some? && sort.value.active
    }

    function WithoutSort(): Bars<T> {
      if sort.Some? then this.(sort := Some(sort.value.(active := false))) else this
    }
  }

  datatype Setup<!T> = Setup(typed: (string, Key) -> string, deletion: DeleteSetup<T>)

  function SlashPressed<T>(b: Bars<T>, u: Setup<T>): (c: Bars<T>)
    ensures b.Valid() ==> c.Valid()
  {
    var search := SearchPressed(b.search, Slash, u.typed);
    if search.Active() then
      b.(search := search, active := SearchBar, delete := b.delete.(active := false)).WithoutSort()
    else b.(search := search, active := NoBar)
  }

  function F2Pressed<T>(b: Bars<T>, selection: T, u: Setup<T>): (c: Bars<T>)
    ensures b.Valid() ==> c.Valid()
  {
    var delete := DeletePressed(b.delete, F2, u.deletion);
    if delete.active then
      b.(delete := delete.(value := selection), active := DeleteBar, search := b.search.(state := Hidden)).WithoutSort()
    else b.(delete := delete, active := NoBar)
  }

  function F3Pressed<T>(b: Bars<T>): (c: Bars<T>)
    requires b.Valid() && b.sort.Some?
    ensures c.Valid()
  {
    var sort := SortPressed(b.sort.value, F3);
    if sort.active then
      b.(sort := Some(sort), active := SortBar, search := b.search.(state := Hidden), delete := b.delete.(active := false))
    else b.(sort := Some(sort), active := NoBar)
  }

  // The active bar's own Update.
  function ActivePressed<T>(b: Bars<T>, k: Key, u: Setup<T>): (c: Bars<T>)
    requires b.Valid()
    ensures c.Valid() && c.active == b.active
  {
    match b.active
    case DeleteBar => b.(delete := DeletePressed(b.delete, k, u.deletion))
    case SearchBar => b.(search := SearchPressed(b.search, k, u.typed))
    case SortBar => b.(sort := Some(SortPressed(b.sort.value, k)))
    case _ => b
  }

  // A bar gone inactive gives way to the search bar, if that was active before.
  function GiveWay<T>(b: Bars<T>): (c: Bars<T>)
    requires b.Valid()
    ensures c.Valid()
  {
    if b.active == NoBar || StillActive(b) then b
    else if b.searchPrevActive then b.(searchPrevActive := false, active := SearchBar)
    else b.(active := NoBar)
  }

  // The active bar handles the key, and may go inactive.
  function Delegated<T>(b: Bars<T>, k: Key, u: Setup<T>): (c: Bars<T>)
    requires b.Valid()
    ensures c.Valid()
  {
    GiveWay(ActivePressed(b, k, u))
  }

  predicate StillActive<T>(b: Bars<T>) {
    match b.active
    case NoBar => false
    case NotifierBar => b.notifier.active
    case DeleteBar => b.delete.active
    case SearchBar => b.search.Active()
    case SortBar => b.SortActive()
  }

  // A key pressed with, or without, a selected table row.
  function Pressed<T>(b: Bars<T>, k: Key, selection: Option<T>, u: Setup<T>): (c: Bars<T>)
    requires b.Valid()
    ensures c.Valid()
  {
    if b.active == NotifierBar && b.notifier.hasPriority then
      if b.notifier.active then b else b.(active := NoBar)
    else
      var c := b.(searchPrevActive := b.searchPrevActive || b.active == SearchBar);
      match k
      case Slash => SlashPressed(c, u)
      case F2 => if selection.Some? then F2Pressed(c, selection.value, u) else c
      case F3 => if c.sort.Some? then F3Pressed(c) else c
      case _ => Delegated(c, k, u)
  }

  // The command a key sets off, if it is the delete bar's turn.
  function Issued<T>(b: Bars<T>, k: Key, selection: Option<T>, u: Setup<T>): Command<T> {
    if b.active == NotifierBar && b.notifier.hasPriority then NoCommand
    else
      match k
      case Slash => NoCommand
      case F2 => if selection.Some? then DeleteCommand(b.delete, F2, u.deletion) else NoCommand
      case F3 => NoCommand
      case _ => if b.active == DeleteBar then DeleteCommand(b.delete, k, u.deletion) else NoCommand
  }

  // A message another bar has used up already arrives as nil.
  function NothingPressed<T>(b: Bars<T>): (c: Bars<T>)
    requires b.Valid()
    ensures c.Valid()
  {
    if b.active == NotifierBar && b.notifier.hasPriority then
      if b.notifier.active then b else b.(active := NoBar)
    else if b.notifier.active then b.(active := NotifierBar)
    else GiveWay(b.(searchPrevActive := b.searchPrevActive || b.active == SearchBar))
  }

  predicate Focussed<T>(b: Bars<T>) {
    match b.active
    case NoBar => false
    case NotifierBar => b.notifier.active && b.notifier.hasPriority
    case DeleteBar => b.delete.active
    case SearchBar => b.search.state == Searching
    case SortBar => true
  }

  function AllHidden<T>(b: Bars<T>): (c: Bars<T>)
    ensures b.Valid() ==> c.Valid()
  {
    b.(search := b.search.(state := Hidden), delete := b.delete.(active := false), active := NoBar).WithoutSort()
  }

  class TableCmdsBar<T> {
    const deleteCBar: DeleteCmdBar<T>
    const searchCBar: SearchCmdBar
    const sortByCBar: SortByCmdBar?
    var notifier: Notifier
    var activeCBar: Bar
    var searchPrevActive: bool

    constructor (deleteCmdBar: DeleteCmdBar<T>, searchCmdBar: SearchCmdBar, notifier: Notifier, sortByCmdBar: SortByCmdBar?)
      requires sortByCmdBar != null ==> sortByCmdBar.Value().Valid()
      ensures deleteCBar == deleteCmdBar && searchCBar == searchCmdBar && sortByCBar == sortByCmdBar
      ensures Value() == Bars(notifier, deleteCmdBar.Value(), searchCmdBar.Value(),
                              if sortByCmdBar == null then None else Some(sortByCmdBar.Value()), NotifierBar, false)
      ensures Value().Valid()
    {
      deleteCBar, searchCBar, sortByCBar := deleteCmdBar, searchCmdBar, sortByCmdBar;
      this.notifier, activeCBar, searchPrevActive := notifier, NotifierBar, false;
    }

    function Value(): Bars<T>
      reads this, deleteCBar, searchCBar, sortByCBar
    {
      Bars(notifier, deleteCBar.Value(), searchCBar.Value(),
           if sortByCBar == null then None else Some(sortByCBar.Value()), activeCBar, searchPrevActive)
    }

    function Setting(): Setup<T> {
      Setup(searchCBar.typed, deleteCBar.setup)
    }

    method Update(k: Key, selection: Option<T>) returns (c: Command<T>)
      requires Value().Valid()
      modifies this, deleteCBar, searchCBar, sortByCBar
      ensures Value() == Pressed(old(Value()), k, selection, Setting())
      ensures c == Issued(old(Value()), k, selection, Setting())
    {
      c := NoCommand;
      if activeCBar == NotifierBar && notifier.hasPriority {
        if !notifier.active {
          activeCBar := NoBar;
        }
        return;
      }
      if activeCBar == SearchBar {
        searchPrevActive := true;
      }
      match k {
        case Slash => HandleSlash();
        case F2 =>
          if selection.Some? {
            c := HandleF2(selection.value);
          }
        case F3 =>
          if sortByCBar != null {
            HandleF3();
          }
        case _ => c := Delegate(k);
      }
    }

    method HandleSlash()
      modifies this, deleteCBar, searchCBar, sortByCBar
      ensures Value() == SlashPressed(old(Value()), Setting())
    {
      var active := searchCBar.Update(Slash);
      if active {
        activeCBar := SearchBar;
        deleteCBar.active := false;
        if sortByCBar != null {
          sortByCBar.Active := false;
        }
      } else {
        activeCBar := NoBar;
      }
    }

    method HandleF2(selection: T) returns (c: Command<T>)
      modifies this, deleteCBar, searchCBar, sortByCBar
      ensures Value() == F2Pressed(old(Value()), selection, Setting())
      ensures c == DeleteCommand(old(deleteCBar.Value()), F2, deleteCBar.setup)
    {
      var active, passedOn;
      active, passedOn, c := deleteCBar.Update(F2);
      if active {
        activeCBar := DeleteBar;
        deleteCBar.Target(selection);
        searchCBar.state := Hidden;
        if sortByCBar != null {
          sortByCBar.Active := false;
        }
      } else {
        activeCBar := NoBar;
      }
    }

    method HandleF3()
      requires Value().Valid() && sortByCBar != null
      modifies this, deleteCBar, searchCBar, sortByCBar
      ensures Value() == F3Pressed(old(Value()))
    {
      var active := sortByCBar.Update(F3);
      if !active {
        activeCBar := NoBar;
      } else {
        activeCBar := SortBar;
        searchCBar.Hide();
        deleteCBar.Hide();
      }
    }

    // m.activeCBar.Update, with activeCBar not nil.
    method UpdateActive(k: Key) returns (active: bool, c: Command<T>)
      requires Value().Valid() && activeCBar != NoBar
      modifies deleteCBar, searchCBar, sortByCBar
      ensures Value() == ActivePressed(old(Value()), k, Setting()) && active == StillActive(Value())
      ensures c == if activeCBar == DeleteBar then DeleteCommand(old(deleteCBar.Value()), k, deleteCBar.setup) else NoCommand
    {
      c := NoCommand;
      var passedOn;
      match activeCBar {
        case DeleteBar => active, passedOn, c := deleteCBar.Update(k);
        case SearchBar => active := searchCBar.Update(k);
        case SortBar => active := sortByCBar.Update(k);
        case _ => active := notifier.active;
      }
    }

    // The end of Update: the active bar gets the key.
    method Delegate(k: Key) returns (c: Command<T>)
      requires Value().Valid()
      modifies this, deleteCBar, searchCBar, sortByCBar
      ensures Value() == Delegated(old(Value()), k, Setting())
      ensures c == if old(activeCBar) == DeleteBar then DeleteCommand(old(deleteCBar.Value()), k, deleteCBar.setup) else NoCommand
    {
      c := NoCommand;
      if activeCBar != NoBar {
        var active;
        active, c := UpdateActive(k);
        SettleActive(active);
      }
    }

    method SettleActive(active: bool)
      requires Value().Valid() && activeCBar != NoBar && active == StillActive(Value())
      modifies this
      ensures Value() == GiveWay(old(Value()))
    {
      if !active {
        if searchPrevActive {
          searchPrevActive := false;
          activeCBar := SearchBar;
        } else {
          activeCBar := NoBar;
        }
      }
    }

    // Update with a nil message, to which no bar reacts.
    method UpdateNil()
      requires Value().Valid()
      modifies this
      ensures Value() == NothingPressed(old(Value()))
    {
      if activeCBar == NotifierBar && notifier.hasPriority {
        if !notifier.active {
          activeCBar := NoBar;
        }
        return;
      }
      if notifier.active {
        activeCBar := NotifierBar;
        return;
      }
      if activeCBar == SearchBar {
        searchPrevActive := true;
      }
      if activeCBar != NoBar {
        SettleActive(StillActive(Value()));
      }
    }

    method IsFocussed() returns (focussed: bool)
      ensures focussed == Focussed(Value())
    {
      return match activeCBar
        case NoBar => false
        case NotifierBar => notifier.active && notifier.hasPriority
        case DeleteBar => deleteCBar.active
        case SearchBar => searchCBar.state == Searching
        case SortBar => true;
    }

    // Without a sort bar this dereferences nil.
    method Hide()
      requires sortByCBar != null
      modifies this, deleteCBar, searchCBar, sortByCBar
      ensures Value() == AllHidden(old(Value()))
    {
      searchCBar.state := Hidden;
      deleteCBar.Hide();
      sortByCBar.Active := false;
      activeCBar := NoBar;
    }
  }
}
