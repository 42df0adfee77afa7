// The edit page of a cluster: ui/pages/create_cluster_page/upsert_cluster_page.go.
// From the stored cluster to the form, from the form to a registration, and through
// the registry back to the stored cluster.
module ClusterForm {
  import opened Options
  import opened ClusterTypes
  import ConnectForm
  import opened ClusterRegistry

  datatype Transport = TransportNotSelected | Plaintext | OverTls

  datatype Verification = VerificationNotSelected | Broker | Skip

  datatype TlsFields = TlsFields(transport: Transport, verification: Verification,
                                 caCertPath: string, clientCertPath: string, clientKeyPath: string)

  const NO_TLS_FIELDS := TlsFields(TransportNotSelected, VerificationNotSelected, "", "", "")

  datatype FormValues = FormValues(
    name: string,
    color: string,
    host: string,
    authMethod: AuthMethod,
    username: string,
    password: string,
    tls: TlsFields,
    srUrl: string,
    srUsername: string,
    srPassword: string,
    srTls: TlsFields)

  datatype Page = Page(form: FormValues, preEditName: Option<string>,
                       connects: seq<Connect>, connectForm: ConnectForm.FormValues)

  // How a TLS configuration is shown; the cluster's and the registry's alike.
  function TlsPrefill(t: Tls): TlsFields {
    if t.enable then
      if t.skipVerify then TlsFields(OverTls, Skip, "", t.clientCert, t.clientKey)
      else TlsFields(OverTls, Broker, t.caCertPath, t.clientCert, t.clientKey)
    else NO_TLS_FIELDS.(transport := Plaintext)
  }

  // The page as NewEditClusterPage sets it up. It reads the first server.
  function OpenForEdit(c: Cluster): Page
    requires c.servers != []
  {
    var form := FormValues(
      c.name, c.color, c.servers[0],
      c.sasl.authMethod, c.sasl.username, c.sasl.password,
      TlsPrefill(c.tls),
      if c.registry.Some? then c.registry.value.url else "",
      if c.registry.Some? then c.registry.value.username else "",
      if c.registry.Some? then c.registry.value.password else "",
      if c.registry.Some? then TlsPrefill(c.registry.value.tls) else NO_TLS_FIELDS);
    Page(form, if c.name != "" then Some(c.name) else None, c.connects, ConnectForm.BLANK)
  }

  function ToTls(f: TlsFields): Tls {
    if f.transport == OverTls
    then Tls(true, f.verification == Skip, f.caCertPath, f.clientCertPath, f.clientKeyPath)
    else NO_TLS
  }

  // getRegistrationDetails.
  function RegistrationOf(p: Page): Registration {
    var f := p.form;
    Registration(
      if p.preEditName.None? then f.name else p.preEditName.value,
      f.color,
      f.host,
      if IsSasl(f.authMethod) then f.authMethod else NoAuth,
      ToTls(f.tls),
      if p.preEditName.Some? && f.name != p.preEditName.value then Some(f.name) else None,
      f.username,
      f.password,
      if |f.srUrl| > 0 then Some(SchemaRegistry(f.srUrl, f.srUsername, f.srPassword, ToTls(f.srTls))) else None,
      ConnectForm.DetailsOf(p.connects, p.connectForm))
  }

  // What a cluster becomes when it is opened for edit and registered unchanged.
  function Normalised(c: Cluster): Cluster
    requires c.servers != []
  {
    ToCluster(RegistrationOf(OpenForEdit(c))).(active := c.active)
  }

  predicate NormalTls(t: Tls) {
    if t.enable then t.skipVerify ==> t.caCertPath == "" else t == NO_TLS
  }

  // Clusters the form can show completely.
  predicate Normal(c: Cluster) {
    && |c.servers| == 1
    && (c.sasl.authMethod in {SaslPlaintext, SaslScram256, SaslScram512} || c.sasl == Sasl("", "", NoAuth))
    && NormalTls(c.tls)
    && (c.registry.Some? ==> c.registry.value.url != "" && NormalTls(c.registry.value.tls))
  }

  lemma TlsRoundTripIff(t: Tls)
    ensures ToTls(TlsPrefill(t)) == t <==> NormalTls(t)
    ensures NormalTls(ToTls(TlsPrefill(t)))
  {
  }

  lemma BlankConnectFormChangesNothing(cs: seq<Connect>)
    ensures ConnectForm.DetailsOf(cs, ConnectForm.BLANK) == cs
  {
  }

  // Saving unchanged is a normalisation: its results are normal, exactly the normal
  // clusters are its fixed points, and a second save changes nothing more.
  lemma NormalisationIff(c: Cluster)
    requires c.servers != []
    ensures Normalised(c) == c <==> Normal(c)
    ensures Normal(Normalised(c))
    ensures Normalised(Normalised(c)) == Normalised(c)
  {
    NormalisedFields(c);
    NormalisedFields(Normalised(c));
    TlsRoundTripIff(c.tls);
    TlsRoundTripIff(ToTls(TlsPrefill(c.tls)));
    if c.registry.Some? {
      TlsRoundTripIff(c.registry.value.tls);
      TlsRoundTripIff(ToTls(TlsPrefill(c.registry.value.tls)));
    }
    assert [c.servers[0]] == c.servers <==> |c.servers| == 1;
  }

  lemma NormalisedFields(c: Cluster)
    requires c.servers != []
    ensures Normalised(c) ==
      c.(servers := [c.servers[0]],
         sasl := if IsSasl(c.sasl.authMethod) then c.sasl else Sasl("", "", NoAuth),
         tls := ToTls(TlsPrefill(c.tls)),
         registry := if c.registry.Some? && c.registry.value.url != ""
                     then Some(c.registry.value.(tls := ToTls(TlsPrefill(c.registry.value.tls)))) else None)
  {
  }

  // Through the registry: opening a cluster and registering it unchanged replaces it
  // by its normalisation, and leaves the whole configuration as it was exactly when
  // the cluster is normal.
  lemma SaveUnchangedIff(cs: seq<Cluster>, i: nat)
    requires Valid(cs) && i < |cs| && cs[i].servers != []
    ensures Registered(cs, RegistrationOf(OpenForEdit(cs[i]))) == cs[i := Normalised(cs[i])]
    ensures Registered(cs, RegistrationOf(OpenForEdit(cs[i]))) == cs <==> Normal(cs[i])
  {
    IndexIs(cs, i);
    NormalisationIff(cs[i]);
    NormalisedFields(cs[i]);
    assert cs[i := Normalised(cs[i])][i] == Normalised(cs[i]);
    assert Normal(cs[i]) ==> cs[i := cs[i]] == cs;
  }

  // Adding a fresh connect cluster through the page and deleting it by name from the
  // registry gives back the configuration.
  lemma AddConnectThenDelete(cs: seq<Cluster>, i: nat, f: ConnectForm.FormValues)
    requires Valid(cs) && i < |cs| && Normal(cs[i])
    requires f.prevName == "" && f.name != "" && !HasConnect(cs[i], f.name)
    ensures var page := OpenForEdit(cs[i]).(connectForm := f);
            ConnectDeleted(Registered(cs, RegistrationOf(page)), cs[i].name, f.name) == cs
  {
    var page := OpenForEdit(cs[i]).(connectForm := f);
    var c := ConnectForm.Entry(f);
    IndexIs(cs, i);
    NormalisationIff(cs[i]);
    ConnectForm.CreateAppendsIff(cs[i].connects, f);
    BlankConnectFormChangesNothing(cs[i].connects);
    assert ToCluster(RegistrationOf(page)).(active := cs[i].active) == cs[i].(connects := cs[i].connects + [c]);
    assert Registered(cs, RegistrationOf(page)) == cs[i := cs[i].(connects := cs[i].connects + [c])];
    AddThenDeleteConnect(cs, i, c);
  }

  datatype Tab = ClusterTab | RegistryTab | ConnectTab

  // The page once its registration was confirmed. The confirmation carries the
  // cluster under the name it was registered by, not under a new one, and only on the
  // connect tab do the registered connect clusters become the page's.
  function AfterSave(p: Page, tab: Tab): Page {
    var d := RegistrationOf(p);
    p.(preEditName := Some(d.name), connects := if tab == ConnectTab then d.connects else p.connects)
  }

  // The validation of the name field, which only the cluster tab shows.
  predicate NameAccepted(cs: seq<Cluster>, p: Page) {
    p.form.name != "" && (FindByName(cs, p.form.name).None? || p.preEditName == Some(p.form.name))
  }

  class Model {
    const kcModel: ConnectForm.UpsertKcModel
    var cFormValues: FormValues
    var preEditName: Option<string>

    // NewEditClusterPage, field by field.
    constructor NewEdit(cluster: Cluster)
      requires cluster.servers != []
      ensures fresh(kcModel) && Value() == OpenForEdit(cluster)
    {
      var form := FormValues(cluster.name, cluster.color, cluster.servers[0], NoAuth, "", "", NO_TLS_FIELDS, "", "", "", NO_TLS_FIELDS);
      form := form.(authMethod := cluster.sasl.authMethod);
      form := form.(username := cluster.sasl.username);
      form := form.(password := cluster.sasl.password);
      if cluster.tls.enable {
        form := form.(tls := form.tls.(transport := OverTls));
        if cluster.tls.skipVerify {
          form := form.(tls := form.tls.(verification := Skip));
        } else {
          form := form.(tls := form.tls.(verification := Broker, caCertPath := cluster.tls.caCertPath));
        }
        form := form.(tls := form.tls.(clientCertPath := cluster.tls.clientCert, clientKeyPath := cluster.tls.clientKey));
      } else {
        form := form.(tls := form.tls.(transport := Plaintext));
      }
      if cluster.registry.Some? {
        var registry := cluster.registry.value;
        form := form.(srUrl := registry.url, srUsername := registry.username, srPassword := registry.password);
        if registry.tls.enable {
          form := form.(srTls := form.srTls.(transport := OverTls));
          if registry.tls.skipVerify {
            form := form.(srTls := form.srTls.(verification := Skip));
          } else {
            form := form.(srTls := form.srTls.(verification := Broker, caCertPath := registry.tls.caCertPath));
          }
          form := form.(srTls := form.srTls.(clientCertPath := registry.tls.clientCert, clientKeyPath := registry.tls.clientKey));
        } else {
          form := form.(srTls := form.srTls.(transport := Plaintext));
        }
      }
      cFormValues := form;
      preEditName := if cluster.name != "" then Some(cluster.name) else None;
      kcModel := new ConnectForm.UpsertKcModel(cluster.connects);
    }

    function Value(): Page
      reads this, kcModel
    {
      Page(cFormValues, preEditName, kcModel.Shown(), kcModel.formValues)
    }

    // Also returns what the connect list is made of, which the details' readers see
    // through the connect form.
    method GetRegistrationDetails() returns (details: Registration, connects: seq<ConnectForm.Stored>)
      ensures details == RegistrationOf(Value())
      ensures connects == ConnectForm.StoredDetails(kcModel.connectClusters, kcModel.formValues)
      ensures details.connects == ConnectForm.ShowAll(connects, kcModel.formValues)
    {
      var name := cFormValues.name;
      var newName: Option<string> := None;
      if preEditName.Some? {
        name := preEditName.value;
        if cFormValues.name != preEditName.value {
          newName := Some(cFormValues.name);
        }
      }
      var authMethod := if IsSasl(cFormValues.authMethod) then cFormValues.authMethod else NoAuth;
      var registry: Option<SchemaRegistry> := None;
      if |cFormValues.srUrl| > 0 {
        registry := Some(SchemaRegistry(cFormValues.srUrl, cFormValues.srUsername, cFormValues.srPassword, NO_TLS));
        if cFormValues.srTls.transport == OverTls {
          registry := Some(registry.value.(tls := ToTls(cFormValues.srTls)));
        }
      }
      connects := kcModel.ClusterDetails();
      details := Registration(name, cFormValues.color, cFormValues.host, authMethod, ToTls(cFormValues.tls), newName,
                              cFormValues.username, cFormValues.password, registry,
                              ConnectForm.ShowAll(connects, kcModel.formValues));
    }

    // Update on ClusterRegisteredMsg, with the name and the connect clusters it carries.
    // On the connect tab its page gets the message twice.
    method ClusterRegistered(registeredName: string, connects: seq<ConnectForm.Stored>, activeTab: Tab)
      modifies this`preEditName, kcModel`connectClusters
      ensures kcModel.connectClusters == if activeTab == ConnectTab then connects else old(kcModel.connectClusters)
      ensures Value() == old(Value()).(preEditName := Some(registeredName), connects := kcModel.Shown())
    {
      preEditName := Some(registeredName);
      if activeTab == ConnectTab {
        kcModel.ClusterRegistered(connects);
      }
      if activeTab == ConnectTab {
        kcModel.ClusterRegistered(connects);
      }
    }

    // A save from start to end, through the registry.
    method Save(config: Config, activeTab: Tab)
      modifies config, this`preEditName, kcModel`connectClusters
      ensures config.clusters == Registered(old(config.clusters), RegistrationOf(old(Value())))
      ensures Value() == AfterSave(old(Value()), activeTab)
    {
      var details, connects := GetRegistrationDetails();
      config.RegisterCluster(details);
      ClusterRegistered(details.name, connects, activeTab);
    }
  }

  lemma SavedInPlace(cs: seq<Cluster>, i: nat, p: Page)
    requires Valid(cs) && i < |cs| && p.preEditName == Some(cs[i].name)
    ensures var saved := ToCluster(RegistrationOf(p)).(active := cs[i].active, name := p.form.name);
            Registered(cs, RegistrationOf(p)) == cs[i := saved]
  {
    IndexIs(cs, i);
  }

  // Whatever the page holds when it is saved, saving it a second time changes nothing
  // exactly when the first save was no rename and, from the connect tab, the connect
  // form registers nothing or what it was opened on. After a rename it adds a second
  // cluster, under the old name.
  lemma SaveAgainIff(cs: seq<Cluster>, i: nat, p: Page, tab: Tab)
    requires Valid(cs) && i < |cs| && p.preEditName == Some(cs[i].name)
    ensures var once := Registered(cs, RegistrationOf(p));
            var again := Registered(once, RegistrationOf(AfterSave(p, tab)));
            && (again == once <==>
                  && p.form.name == cs[i].name
                  && (tab == ConnectTab ==> p.connectForm.name == "" || p.connectForm.prevName == p.connectForm.name))
            && (p.form.name != cs[i].name ==> |again| == |cs| + 1 && again[|cs|].name == cs[i].name)
  {
    var d, d' := RegistrationOf(p), RegistrationOf(AfterSave(p, tab));
    assert d' == d.(connects := if tab == ConnectTab then ConnectForm.DetailsOf(d.connects, p.connectForm) else d.connects);
    ConnectForm.RegisterAgainIff(p.connects, p.connectForm);
    SavedInPlace(cs, i, p);
    var once := Registered(cs, d);
    if p.form.name == cs[i].name {
      IndexStays(cs, i, once);
      assert once[i := once[i]] == once;
      assert once[i := once[i].(connects := d'.connects)][i].connects == d'.connects;
    } else {
      NameIsGone(cs, i, once);
    }
  }

  lemma IndexStays(cs: seq<Cluster>, i: nat, once: seq<Cluster>)
    requires Valid(cs) && i < |cs| == |once| && once[i].name == cs[i].name && once == cs[i := once[i]]
    ensures IndexOf(once, cs[i].name) == i
  {
    assert forall j :: 0 <= j < i ==> once[j].name != cs[i].name;
  }

  lemma NameIsGone(cs: seq<Cluster>, i: nat, once: seq<Cluster>)
    requires Valid(cs) && i < |cs| == |once| && once[i].name != cs[i].name && once == cs[i := once[i]]
    ensures IndexOf(once, cs[i].name) < 0
  {
    assert forall j :: 0 <= j < |cs| && j != i ==> once[j] == cs[j];
  }

  // On the cluster tab the name field stops the second save of a rename; the two other
  // tabs do not look at it.
  lemma NameAcceptedAgainIff(cs: seq<Cluster>, i: nat, p: Page, tab: Tab)
    requires Valid(cs) && i < |cs| && p.preEditName == Some(cs[i].name)
    ensures NameAccepted(Registered(cs, RegistrationOf(p)), AfterSave(p, tab)) <==> p.form.name == cs[i].name && p.form.name != ""
  {
    SavedInPlace(cs, i, p);
    assert Registered(cs, RegistrationOf(p))[i].name == p.form.name;
  }

  // The registered cluster keeps the pointers too. Once the connect form holds f', the
  // configuration in memory, and what the next write of it puts on disk, is still the
  // registered one if and only if no connect cluster points to a field that changed.
  lemma ConfigOutlivesTheFormIff(cs: seq<Cluster>, i: nat, p: Page, stored: seq<ConnectForm.Stored>, f': ConnectForm.FormValues)
    requires Valid(cs) && i < |cs| && p.preEditName == Some(cs[i].name) && p.connects == ConnectForm.ShowAll(stored, p.connectForm)
    ensures var once := Registered(cs, RegistrationOf(p));
            var kept := ConnectForm.StoredDetails(stored, p.connectForm);
            && once[i].connects == ConnectForm.ShowAll(kept, p.connectForm)
            && (once[i := once[i].(connects := ConnectForm.ShowAll(kept, f'))] == once <==> ConnectForm.Keeps(kept, p.connectForm, f'))
  {
    SavedInPlace(cs, i, p);
    var once := Registered(cs, RegistrationOf(p));
    var kept := ConnectForm.StoredDetails(stored, p.connectForm);
    ConnectForm.OneCallAgrees(stored, p.connectForm);
    ConnectForm.FormChangeKeepsIff(kept, p.connectForm, f');
    assert once[i := once[i].(connects := ConnectForm.ShowAll(kept, f'))][i].connects == ConnectForm.ShowAll(kept, f');
    assert once[i := once[i]] == once;
  }

  // After a connect cluster was deleted by name, from the registry and from the page,
  // the next save brings it back if and only if the connect form still holds its name;
  // neither a registration nor a deletion clears the form.
  lemma DeletedComesBackIff(cs: seq<Cluster>, i: nat, p: Page, connect: string)
    requires Valid(cs) && i < |cs| && p.preEditName == Some(cs[i].name)
    ensures var page := p.(connects := Without(p.connects, connect));
            var saved := Registered(ConnectDeleted(cs, cs[i].name, connect), RegistrationOf(page));
            && |saved| == |cs|
            && (HasConnect(saved[i], connect) <==>
                  p.connectForm.name == connect && (connect != "" || ConnectForm.HasEdited(page.connects, p.connectForm)))
  {
    var page := p.(connects := Without(p.connects, connect));
    var deleted := ConnectDeleted(cs, cs[i].name, connect);
    StaysValidIff(cs, DeleteConnectOf(cs[i].name, connect));
    assert |deleted| == |cs| && deleted[i].name == cs[i].name;
    SavedInPlace(deleted, i, page);
    WithoutHasNone(p.connects, connect);
    DetailsNamedIff(page.connects, p.connectForm, connect);
  }

  lemma DetailsNamedIff(cs: seq<Connect>, f: ConnectForm.FormValues, name: string)
    requires forall c <- cs :: c.name != name
    ensures (exists c <- ConnectForm.DetailsOf(cs, f) :: c.name == name) <==>
              f.name == name && (name != "" || ConnectForm.HasEdited(cs, f))
  {
    var details := ConnectForm.DetailsOf(cs, f);
    if f.name == name && ConnectForm.HasEdited(cs, f) {
      var i :| 0 <= i < |cs| && ConnectForm.IsEdited(f, cs[i].name);
      assert details[i] == ConnectForm.Entry(f);
      assert details[i] in details;
    } else if f.name == name && name != "" {
      assert details[|cs|] == ConnectForm.Entry(f);
      assert details[|cs|] in details;
    }
  }

  lemma {:induction false} WithoutHasNone(cs: seq<Connect>, name: string)
    ensures forall c <- Without(cs, name) :: c.name != name
  {
    if cs != [] {
      WithoutHasNone(cs[..|cs| - 1], name);
    }
  }

  // Field by field: what the form shows of a cluster, and what it registers.

  predicate ShowsTls(f: TlsFields, t: Tls) {
    && (f.transport == OverTls <==> t.enable)
    && (t.enable ==> (f.verification == Skip <==> t.skipVerify) && f.clientCertPath == t.clientCert && f.clientKeyPath == t.clientKey)
    && (t.enable && !t.skipVerify ==> f.caCertPath == t.caCertPath)
  }

  lemma FormShowsTheCluster(c: Cluster)
    requires c.servers != []
    ensures var p := OpenForEdit(c);
            && p.form.name == c.name && p.form.color == c.color && p.form.host == c.servers[0]
            && p.form.authMethod == c.sasl.authMethod && p.form.username == c.sasl.username && p.form.password == c.sasl.password
            && ShowsTls(p.form.tls, c.tls)
            && (c.registry.Some? ==>
                  && p.form.srUrl == c.registry.value.url && p.form.srUsername == c.registry.value.username
                  && p.form.srPassword == c.registry.value.password && ShowsTls(p.form.srTls, c.registry.value.tls))
            && (c.registry.None? ==> p.form.srUrl == "")
            && p.connects == c.connects && (c.name != "" ==> p.preEditName == Some(c.name))
  {
  }

  predicate SetsTls(t: Tls, f: TlsFields) {
    && (t.enable <==> f.transport == OverTls)
    && (t.enable ==> (t.skipVerify <==> f.verification == Skip))
    && (t.enable ==> t.caCertPath == f.caCertPath && t.clientCert == f.clientCertPath && t.clientKey == f.clientKeyPath)
    && (!t.enable ==> t == Tls(false, false, "", "", ""))
  }

  lemma ClusterIsAsEntered(p: Page)
    ensures var d := RegistrationOf(p);
            var c := ToCluster(d);
            && (p.preEditName.None? ==> d.name == p.form.name && d.newName.None?)
            && (p.preEditName.Some? ==> d.name == p.preEditName.value)
            && (p.preEditName.Some? ==> d.newName == if p.form.name == p.preEditName.value then None else Some(p.form.name))
            && c.color == p.form.color && c.servers == [p.form.host] && SetsTls(c.tls, p.form.tls)
            && (p.form.authMethod in {SaslPlaintext, SaslScram256, SaslScram512} ==>
                  c.sasl == Sasl(p.form.username, p.form.password, p.form.authMethod))
            && (p.form.authMethod !in {SaslPlaintext, SaslScram256, SaslScram512} ==> c.sasl == Sasl("", "", NoAuth))
            && (c.registry.Some? <==> p.form.srUrl != "")
            && (c.registry.Some? ==>
                  && c.registry.value.url == p.form.srUrl && c.registry.value.username == p.form.srUsername
                  && c.registry.value.password == p.form.srPassword && SetsTls(c.registry.value.tls, p.form.srTls))
  {
  }

  // A page that was not opened for edit appends the cluster it describes, if its name
  // is new.
  lemma CreatingAppends(cs: seq<Cluster>, p: Page) returns (c: Cluster)
    requires p.preEditName.None? && forall o <- cs :: o.name != p.form.name
    ensures Registered(cs, RegistrationOf(p)) == cs + [c]
    ensures c.name == p.form.name && IsRegistered(c, RegistrationOf(p)) && (c.active <==> cs == [])
  {
    ClusterIsAsEntered(p);
    c := RegisteringAppends(cs, RegistrationOf(p));
  }

  // A name the validation lets through keeps the configuration valid and every cluster
  // but the one the page was opened on. The name itself is then registered unless that
  // cluster is gone and the page renames it: a new cluster gets its name instead.
  lemma AcceptedSavesAreSafe(cs: seq<Cluster>, p: Page)
    requires Valid(cs) && NameAccepted(cs, p)
    ensures var after := Registered(cs, RegistrationOf(p));
            && Valid(after)
            && (forall c <- cs :: Some(c.name) != p.preEditName ==> c in after)
            && (IndexOf(after, p.form.name) >= 0 <==>
                  p.preEditName in {None, Some(p.form.name)} || exists c <- cs :: Some(c.name) == p.preEditName)
  {
    var d := RegistrationOf(p);
    StaysValidIff(cs, Register(d));
    OthersStay(cs, d);
    SavedUnderItsName(cs, p);
  }

  lemma OthersStay(cs: seq<Cluster>, d: Registration)
    ensures forall c <- cs :: c.name != d.name ==> c in Registered(cs, d)
  {
    var after := Registered(cs, d);
    forall c <- cs | c.name != d.name
      ensures c in after
    {
      var k :| 0 <= k < |cs| && cs[k] == c;
      assert after[k] == c;
    }
  }

  lemma SavedUnderItsName(cs: seq<Cluster>, p: Page)
    requires NameAccepted(cs, p)
    ensures IndexOf(Registered(cs, RegistrationOf(p)), p.form.name) >= 0 <==>
              p.preEditName in {None, Some(p.form.name)} || exists c <- cs :: Some(c.name) == p.preEditName
  {
    var d := RegistrationOf(p);
    if i :| 0 <= i < |cs| && cs[i].name == d.name {
      SavedOverOne(cs, p, i);
    } else {
      SavedAsNew(cs, p);
    }
  }

  lemma SavedOverOne(cs: seq<Cluster>, p: Page, i: nat)
    requires NameAccepted(cs, p) && i < |cs| && cs[i].name == RegistrationOf(p).name
    ensures IndexOf(Registered(cs, RegistrationOf(p)), p.form.name) >= 0
    ensures p.preEditName.Some? && exists c <- cs :: Some(c.name) == p.preEditName
  {
    assert cs[i] in cs;
    assert Registered(cs, RegistrationOf(p))[IndexOf(cs, cs[i].name)].name == p.form.name;
  }

  lemma SavedAsNew(cs: seq<Cluster>, p: Page)
    requires NameAccepted(cs, p) && forall i :: 0 <= i < |cs| ==> cs[i].name != RegistrationOf(p).name
    ensures IndexOf(Registered(cs, RegistrationOf(p)), p.form.name) >= 0 <==> p.preEditName in {None, Some(p.form.name)}
    ensures !exists c <- cs :: Some(c.name) == p.preEditName
  {
    var d := RegistrationOf(p);
    assert d.name == if p.preEditName.None? then p.form.name else p.preEditName.value;
    var x := RegisteringAppends(cs, d);
    FoundWhenAppended(cs, x, p.form.name);
  }

  lemma FoundWhenAppended(cs: seq<Cluster>, x: Cluster, name: string)
    ensures IndexOf(cs + [x], name) >= 0 <==> IndexOf(cs, name) >= 0 || x.name == name
  {
    assert (cs + [x])[..|cs|] == cs;
  }
}
