// The Kafka Connect tab of a cluster: ui/pages/create_cluster_page/upsert_kcon.go.
// What it registers is the cluster's connect list with the form's entry worked in. The
// entry's user name and password are pointers into the form: whoever keeps it, the
// page and the configuration, reads them through the form from then on.
module ConnectForm {
  import opened Options
  import opened ClusterTypes

  // prevName is the name the entry had when it was opened for edit, "" otherwise.
  datatype FormValues = FormValues(name: string, url: string, username: string, password: string, prevName: string)

  const BLANK := FormValues("", "", "", "", "")

  function OrNil(s: string): Option<string> {
    if s != "" then Some(s) else None
  }

  function OrEmpty(s: Option<string>): string {
    match s
    case None => ""
    case Some(t) => t
  }

  // What the form says, and what a call of clusterDetails makes of the list it sees.

  function Entry(f: FormValues): Connect {
    Connect(f.name, f.url, OrNil(f.username), OrNil(f.password))
  }

  predicate IsEdited(f: FormValues, name: string) {
    f.prevName == name && f.prevName != ""
  }

  predicate HasEdited(cs: seq<Connect>, f: FormValues) {
    exists i :: 0 <= i < |cs| && IsEdited(f, cs[i].name)
  }

  function Replaced(cs: seq<Connect>, f: FormValues): seq<Connect> {
    seq(|cs|, i requires 0 <= i < |cs| => if IsEdited(f, cs[i].name) then Entry(f) else cs[i])
  }

  // The connect list a registration carries.
  function DetailsOf(cs: seq<Connect>, f: FormValues): seq<Connect> {
    Replaced(cs, f) + (if !HasEdited(cs, f) && f.name != "" then [Entry(f)] else [])
  }

  // What is kept of it: nil, a text of its own, or a pointer to the form's field.
  datatype Credential = Absent | Own(text: string) | OfForm

  datatype Stored = Stored(name: string, url: string, username: Credential, password: Credential)

  function Read(c: Credential, field: string): Option<string> {
    match c
    case Absent => None
    case Own(text) => Some(text)
    case OfForm => Some(field)
  }

  // An entry, and a list, as they read while the form holds f.
  function Show(c: Stored, f: FormValues): Connect {
    Connect(c.name, c.url, Read(c.username, f.username), Read(c.password, f.password))
  }

  function ShowAll(cs: seq<Stored>, f: FormValues): seq<Connect> {
    seq(|cs|, i requires 0 <= i < |cs| => Show(cs[i], f))
  }

  function OwnEntry(c: Connect): Stored {
    Stored(c.name, c.url, OwnText(c.username), OwnText(c.password))
  }

  function OwnText(s: Option<string>): Credential {
    match s
    case None => Absent
    case Some(text) => Own(text)
  }

  function OwnAll(cs: seq<Connect>): seq<Stored> {
    seq(|cs|, i requires 0 <= i < |cs| => OwnEntry(cs[i]))
  }

  // usernameOrNil and passwordOrNil.
  function PointerOrNil(field: string): Credential {
    if field != "" then OfForm else Absent
  }

  function StoredEntry(f: FormValues): Stored {
    Stored(f.name, f.url, PointerOrNil(f.username), PointerOrNil(f.password))
  }

  predicate HasEditedStored(cs: seq<Stored>, f: FormValues) {
    exists i :: 0 <= i < |cs| && IsEdited(f, cs[i].name)
  }

  function StoredReplaced(cs: seq<Stored>, f: FormValues): seq<Stored> {
    seq(|cs|, i requires 0 <= i < |cs| => if IsEdited(f, cs[i].name) then StoredEntry(f) else cs[i])
  }

  function StoredDetails(cs: seq<Stored>, f: FormValues): seq<Stored> {
    StoredReplaced(cs, f) + (if !HasEditedStored(cs, f) && f.name != "" then [StoredEntry(f)] else [])
  }

  // While the form stays as it is, pointers and texts cannot be told apart.
  lemma OneCallAgrees(cs: seq<Stored>, f: FormValues)
    ensures ShowAll(StoredDetails(cs, f), f) == DetailsOf(ShowAll(cs, f), f)
  {
    var shown := ShowAll(cs, f);
    assert forall i :: 0 <= i < |cs| ==> shown[i].name == cs[i].name;
    if HasEditedStored(cs, f) {
      var i :| 0 <= i < |cs| && IsEdited(f, cs[i].name);
      assert IsEdited(f, shown[i].name);
    }
    assert Show(StoredEntry(f), f) == Entry(f);
    assert ShowAll(StoredReplaced(cs, f), f) == Replaced(shown, f);
  }

  lemma OwnIsShown(cs: seq<Connect>, f: FormValues)
    ensures ShowAll(OwnAll(cs), f) == cs
  {
  }

  // A change of the form leaves an entry alone.
  predicate KeepsEntry(c: Stored, f: FormValues, f': FormValues) {
    (c.username == OfForm ==> f.username == f'.username) && (c.password == OfForm ==> f.password == f'.password)
  }

  predicate Keeps(cs: seq<Stored>, f: FormValues, f': FormValues) {
    forall i :: 0 <= i < |cs| ==> KeepsEntry(cs[i], f, f')
  }

  predicate KeepsOthers(cs: seq<Stored>, i: nat, f: FormValues, f': FormValues) {
    forall j :: 0 <= j < |cs| && j != i ==> KeepsEntry(cs[j], f, f')
  }

  // A change of the form leaves the list alone if and only if no entry points to a
  // field that changes.
  lemma FormChangeKeepsIff(cs: seq<Stored>, f: FormValues, f': FormValues)
    ensures ShowAll(cs, f') == ShowAll(cs, f) <==> Keeps(cs, f, f')
  {
    var before, after := ShowAll(cs, f), ShowAll(cs, f');
    forall i | 0 <= i < |cs|
      ensures after[i] == before[i] <==> KeepsEntry(cs[i], f, f')
    {
    }
  }

  predicate IsFirstNamed(cs: seq<Stored>, name: string, i: int) {
    0 <= i < |cs| && cs[i].name == name && forall j :: 0 <= j < i ==> cs[j].name != name
  }

  class UpsertKcModel {
    var connectClusters: seq<Stored>
    var formValues: FormValues

    constructor (connectClusters: seq<Connect>)
      ensures this.connectClusters == OwnAll(connectClusters) && formValues == BLANK
      ensures Shown() == connectClusters
    {
      this.connectClusters := OwnAll(connectClusters);
      formValues := BLANK;
      new;
      OwnIsShown(connectClusters, BLANK);
    }

    function Shown(): seq<Connect>
      reads this
    {
      ShowAll(connectClusters, formValues)
    }

    // Ctrl-N. The previous name is left as it was.
    method NewEntry()
      modifies this`formValues
      ensures formValues == BLANK.(prevName := old(formValues).prevName)
      ensures Shown() == old(Shown()) <==> Keeps(connectClusters, old(formValues), formValues)
    {
      formValues := formValues.(name := "");
      formValues := formValues.(url := "");
      formValues := formValues.(username := "");
      formValues := formValues.(password := "");
      FormChangeKeepsIff(connectClusters, old(formValues), formValues);
    }

    // Ctrl-E on the selected row opens the first cluster of its name; the source panics
    // if there is none.
    method EditEntry(name: string) returns (found: bool)
      modifies this`formValues
      ensures found <==> exists i :: IsFirstNamed(connectClusters, name, i)
      ensures !found ==> (forall c <- connectClusters :: c.name != name) && formValues == old(formValues)
      ensures found ==> exists i :: IsFirstNamed(connectClusters, name, i) && formValues == Prefill(old(Shown())[i])
      ensures Shown() == old(Shown()) <==> Keeps(connectClusters, old(formValues), formValues)
    {
      for i := 0 to |connectClusters|
        invariant formValues == old(formValues)
        invariant forall j :: 0 <= j < i ==> connectClusters[j].name != name
      {
        var c := connectClusters[i];
        if c.name == name {
          formValues := formValues.(prevName := c.name, name := c.name, url := c.url);
          var username := Read(c.username, formValues.username);
          formValues := formValues.(username := if username.None? then "" else username.value);
          var password := Read(c.password, formValues.password);
          formValues := formValues.(password := if password.None? then "" else password.value);
          assert IsFirstNamed(connectClusters, name, i);
          FormChangeKeepsIff(connectClusters, old(formValues), formValues);
          return true;
        }
      }
      FormChangeKeepsIff(connectClusters, formValues, formValues);
      return false;
    }

    // What the user types into the form.
    method Fill(name: string, url: string, username: string, password: string)
      modifies this`formValues
      ensures formValues == FormValues(name, url, username, password, old(formValues).prevName)
      ensures Shown() == old(Shown()) <==> Keeps(connectClusters, old(formValues), formValues)
    {
      formValues := formValues.(name := name, url := url, username := username, password := password);
      FormChangeKeepsIff(connectClusters, old(formValues), formValues);
    }

    // Update on ClusterRegisteredMsg: the list is the registered one, the form stays.
    method ClusterRegistered(connects: seq<Stored>)
      modifies this`connectClusters
      ensures connectClusters == connects
    {
      connectClusters := connects;
    }

    method ClusterDetails() returns (details: seq<Stored>)
      ensures details == StoredDetails(connectClusters, formValues)
      ensures ShowAll(details, formValues) == DetailsOf(Shown(), formValues)
    {
      details := [];
      var updated := false;
      for i := 0 to |connectClusters|
        invariant |details| == i && details == StoredReplaced(connectClusters, formValues)[..i]
        invariant updated <==> exists j :: 0 <= j < i && IsEdited(formValues, connectClusters[j].name)
      {
        var c := connectClusters[i];
        if formValues.prevName == c.name && formValues.prevName != "" {
          updated := true;
          details := details + [Stored(formValues.name, formValues.url, PointerOrNil(formValues.username), PointerOrNil(formValues.password))];
        } else {
          details := details + [Stored(c.name, c.url, c.username, c.password)];
        }
      }
      if !updated && formValues.name != "" {
        details := details + [Stored(formValues.name, formValues.url, PointerOrNil(formValues.username), PointerOrNil(formValues.password))];
      }
      OneCallAgrees(connectClusters, formValues);
    }
  }

  function Prefill(c: Connect): FormValues {
    FormValues(c.name, c.url, OrEmpty(c.username), OrEmpty(c.password), c.name)
  }

  predicate NamesDistinct(cs: seq<Stored>) {
    forall i, j :: 0 <= i < j < |cs| ==> cs[i].name != cs[j].name
  }

  // An edit replaces exactly the entry it was opened on. The others read as they did
  // before the form was touched, when it held f0, if and only if none of them points
  // to a field that has changed since.
  lemma EditReplacesInPlace(cs: seq<Stored>, i: nat, f0: FormValues, f: FormValues)
    requires NamesDistinct(cs) && i < |cs| && f.prevName == cs[i].name != ""
    ensures StoredDetails(cs, f) == cs[i := StoredEntry(f)]
    ensures ShowAll(StoredDetails(cs, f), f) == ShowAll(cs, f0)[i := Entry(f)] <==> KeepsOthers(cs, i, f0, f)
  {
    assert IsEdited(f, cs[i].name);
    assert StoredDetails(cs, f) == StoredReplaced(cs, f) == cs[i := StoredEntry(f)];
    ReplacedShownIff(cs, i, f0, f);
  }

  lemma ReplacedShownIff(cs: seq<Stored>, i: nat, f0: FormValues, f: FormValues)
    requires i < |cs|
    ensures ShowAll(cs[i := StoredEntry(f)], f) == ShowAll(cs, f0)[i := Entry(f)] <==> KeepsOthers(cs, i, f0, f)
  {
    var after, wanted := ShowAll(cs[i := StoredEntry(f)], f), ShowAll(cs, f0)[i := Entry(f)];
    forall j | 0 <= j < |cs|
      ensures after[j] == wanted[j] <==> j == i || KeepsEntry(cs[j], f0, f)
    {
    }
  }

  // Saving an entry right after opening it changes nothing if and only if neither of
  // its credentials is an empty text, and no other entry points to a field that
  // opening this one has changed.
  lemma EditUnchangedIff(cs: seq<Stored>, i: nat, f0: FormValues)
    requires NamesDistinct(cs) && i < |cs| && cs[i].name != ""
    ensures var shown := ShowAll(cs, f0);
            var f := Prefill(shown[i]);
            ShowAll(StoredDetails(cs, f), f) == shown <==>
              shown[i].username != Some("") && shown[i].password != Some("") && KeepsOthers(cs, i, f0, f)
  {
    var shown := ShowAll(cs, f0);
    var f := Prefill(shown[i]);
    EditReplacesInPlace(cs, i, f0, f);
    var after := ShowAll(StoredDetails(cs, f), f);
    assert after[i] == Entry(f);
    assert Entry(f) == shown[i] <==> shown[i].username != Some("") && shown[i].password != Some("");
    if Entry(f) == shown[i] {
      assert shown[i := Entry(f)] == shown;
    }
  }

  // Creating an entry appends it exactly when it has a name and no entry still has
  // the name last opened for edit, which Ctrl-N does not forget.
  lemma CreateAppendsIff(cs: seq<Connect>, f: FormValues)
    ensures DetailsOf(cs, f) == cs + [Entry(f)] <==> f.name != "" && !HasEdited(cs, f)
  {
  }

  // And the list in front of it reads as it did before the form was filled in if and
  // only if no entry points to a field that has changed.
  lemma CreateKeepsTheOthersIff(cs: seq<Stored>, f0: FormValues, f: FormValues)
    ensures ShowAll(StoredDetails(cs, f), f) == ShowAll(cs, f0) + [Entry(f)] <==>
              f.name != "" && !HasEditedStored(cs, f) && Keeps(cs, f0, f)
  {
    OneCallAgrees(cs, f);
    CreateAppendsIff(ShowAll(cs, f), f);
    FormChangeKeepsIff(cs, f0, f);
    assert HasEdited(ShowAll(cs, f), f) <==> HasEditedStored(cs, f) by {
      assert forall i :: 0 <= i < |cs| ==> ShowAll(cs, f)[i].name == cs[i].name;
    }
    var before, after := ShowAll(cs, f0), ShowAll(StoredDetails(cs, f), f);
    if after == before + [Entry(f)] {
      assert |after| == |cs| + 1;
      assert ShowAll(cs, f) == after[..|cs|] == before;
    }
  }

  // So a create right after an edit overwrites the entry that was opened for edit.
  method CreateAfterEdit(m: UpsertKcModel, i: nat, name: string, url: string, username: string, password: string)
    returns (details: seq<Stored>)
    requires NamesDistinct(m.connectClusters) && i < |m.connectClusters| && m.connectClusters[i].name != ""
    modifies m
    ensures m.connectClusters == old(m.connectClusters)
    ensures details == m.connectClusters[i := StoredEntry(m.formValues)]
    ensures ShowAll(details, m.formValues) == old(m.Shown())[i := Connect(name, url, OrNil(username), OrNil(password))] <==>
              KeepsOthers(m.connectClusters, i, old(m.formValues), m.formValues)
  {
    assert IsFirstNamed(m.connectClusters, m.connectClusters[i].name, i);
    var found := m.EditEntry(m.connectClusters[i].name);
    assert m.formValues.prevName == m.connectClusters[i].name;
    m.NewEntry();
    m.Fill(name, url, username, password);
    details := m.ClusterDetails();
    EditReplacesInPlace(m.connectClusters, i, old(m.formValues), m.formValues);
  }

  // Opening an entry and registering it as it is.
  method RegisterUnchanged(m: UpsertKcModel, i: nat) returns (details: seq<Stored>)
    requires NamesDistinct(m.connectClusters) && i < |m.connectClusters| && m.connectClusters[i].name != ""
    modifies m`formValues
    ensures m.formValues == Prefill(old(m.Shown())[i])
    ensures details == m.connectClusters[i := StoredEntry(m.formValues)]
    ensures ShowAll(details, m.formValues) == old(m.Shown()) <==>
              && old(m.Shown())[i].username != Some("") && old(m.Shown())[i].password != Some("")
              && KeepsOthers(m.connectClusters, i, old(m.formValues), m.formValues)
  {
    assert IsFirstNamed(m.connectClusters, m.connectClusters[i].name, i);
    var found := m.EditEntry(m.connectClusters[i].name);
    details := m.ClusterDetails();
    EditReplacesInPlace(m.connectClusters, i, old(m.formValues), m.formValues);
    EditUnchangedIff(m.connectClusters, i, old(m.formValues));
  }

  // Giving one cluster a user name and then registering another one unchanged gives the
  // first one the user name of the second.
  method EditOneThenAnother(m: UpsertKcModel, i: nat, j: nat, username: string) returns (details: seq<Stored>)
    requires NamesDistinct(m.connectClusters) && i < |m.connectClusters| && j < |m.connectClusters| && i != j
    requires m.connectClusters[i].name != "" && m.connectClusters[j].name != "" && username != ""
    requires m.connectClusters[j].username != OfForm
    modifies m
    ensures |details| == |old(m.connectClusters)| && details[i].name == old(m.connectClusters)[i].name
    ensures ShowAll(details, m.formValues)[i].username == Some(OrEmpty(old(m.Shown())[j].username))
  {
    var cs := m.connectClusters;
    assert IsFirstNamed(cs, cs[i].name, i);
    var found := m.EditEntry(cs[i].name);
    assert m.formValues.name == m.formValues.prevName == cs[i].name;
    m.Fill(m.formValues.name, m.formValues.url, username, m.formValues.password);
    details := m.ClusterDetails();
    EditReplacesInPlace(cs, i, m.formValues, m.formValues);
    m.ClusterRegistered(details);
    assert details[i].username == OfForm && details[j] == cs[j];
    details := RegisterUnchanged(m, j);
  }

  // The form is not cleared by a registration. Registering again leaves the list alone
  // exactly when there is no name to register, or it is the one last opened for edit:
  // a created entry is added a second time, and a renamed one comes back as a new one.
  lemma RegisterAgainIff(cs: seq<Connect>, f: FormValues)
    ensures DetailsOf(DetailsOf(cs, f), f) == DetailsOf(cs, f) <==> f.name == "" || f.prevName == f.name
  {
    var once := DetailsOf(cs, f);
    if f.prevName == f.name != "" {
      AllEdited(cs, f);
    } else {
      forall c <- once
        ensures !IsEdited(f, c.name)
      {
        NotEditedAgain(cs, f, c);
      }
      assert Replaced(once, f) == once;
    }
  }

  lemma NotEditedAgain(cs: seq<Connect>, f: FormValues, c: Connect)
    requires c in DetailsOf(cs, f) && (f.name == "" || f.prevName != f.name)
    ensures !IsEdited(f, c.name)
  {
  }

  lemma AllEdited(cs: seq<Connect>, f: FormValues)
    requires f.prevName == f.name != ""
    ensures HasEdited(DetailsOf(cs, f), f) && Replaced(DetailsOf(cs, f), f) == DetailsOf(cs, f)
  {
    var once := DetailsOf(cs, f);
    if HasEdited(cs, f) {
      var i :| 0 <= i < |cs| && IsEdited(f, cs[i].name);
      assert once[i] == Entry(f);
    } else {
      assert once[|cs|] == Entry(f);
    }
  }
}
