// The cluster registry of config/config.go: a slice of clusters that registering,
// switching and deleting update in place.
module ClusterRegistry {
  import opened Options
  import opened ClusterTypes

  // Index of the first cluster of that name, -1 without one.
  function IndexOf(cs: seq<Cluster>, name: string): (i: int)
    ensures -1 <= i < |cs|
    ensures i >= 0 ==> cs[i].name == name && forall j :: 0 <= j < i ==> cs[j].name != name
    ensures i < 0 ==> forall j :: 0 <= j < |cs| ==> cs[j].name != name
  {
    if cs == [] then -1
    else
      var front := IndexOf(cs[..|cs| - 1], name);
      if front >= 0 then front
      else if cs[|cs| - 1].name == name then |cs| - 1
      else -1
  }

  function Without(cs: seq<Connect>, name: string): seq<Connect> {
    if cs == [] then []
    else Without(cs[..|cs| - 1], name) + (if cs[|cs| - 1].name != name then [cs[|cs| - 1]] else [])
  }

  // out keeps elements of cs, in their order.
  ghost predicate InOrderOf<T>(out: seq<T>, cs: seq<T>) {
    exists at: seq<nat> :: ComesFrom(out, cs, at)
  }

  predicate ComesFrom<T(==)>(out: seq<T>, cs: seq<T>, at: seq<nat>) {
    && |at| == |out|
    && (forall i, j :: 0 <= i < j < |at| ==> at[i] < at[j])
    && (forall i :: 0 <= i < |at| ==> at[i] < |cs| && out[i] == cs[at[i]])
  }

  // The entries of that name are gone, all of them; every other one is still there, as
  // often and in the order it was.
  ghost predicate RemovesAll(out: seq<Connect>, cs: seq<Connect>, name: string) {
    && InOrderOf(out, cs)
    && forall c :: multiset(out)[c] == if c.name == name then 0 else multiset(cs)[c]
  }

  lemma ComesFromMore<T>(out: seq<T>, cs: seq<T>, at: seq<nat>, c: T)
    requires ComesFrom(out, cs, at)
    ensures ComesFrom(out, cs + [c], at) && ComesFrom(out + [c], cs + [c], at + [|cs|])
  {
  }

  lemma {:induction false} WithoutKeepsOrder(cs: seq<Connect>, name: string) returns (at: seq<nat>)
    ensures ComesFrom(Without(cs, name), cs, at)
  {
    if cs == [] {
      at := [];
    } else {
      var front, last := cs[..|cs| - 1], cs[|cs| - 1];
      at := WithoutKeepsOrder(front, name);
      ComesFromMore(Without(front, name), front, at, last);
      assert cs == front + [last];
      if last.name != name {
        at := at + [|front|];
      }
    }
  }

  lemma {:induction false} WithoutCounts(cs: seq<Connect>, name: string, c: Connect)
    ensures multiset(Without(cs, name))[c] == if c.name == name then 0 else multiset(cs)[c]
  {
    if cs != [] {
      var front, last := cs[..|cs| - 1], cs[|cs| - 1];
      WithoutCounts(front, name, c);
      assert cs == front + [last];
    }
  }

  lemma WithoutRemovesAll(cs: seq<Connect>, name: string)
    ensures RemovesAll(Without(cs, name), cs, name)
  {
    var at := WithoutKeepsOrder(cs, name);
    assert ComesFrom(Without(cs, name), cs, at);
    forall c
      ensures multiset(Without(cs, name))[c] == if c.name == name then 0 else multiset(cs)[c]
    {
      WithoutCounts(cs, name, c);
    }
  }

  // Deleting the only entry of a name from between others leaves the others.
  lemma {:induction false} DeletesTheNamedOne(before: seq<Connect>, c: Connect, after: seq<Connect>)
    requires (forall x <- before :: x.name != c.name) && forall x <- after :: x.name != c.name
    ensures Without(before + [c] + after, c.name) == before + after
  {
    if after == [] {
      assert (before + [c] + after)[..|before|] == before;
      WithoutAbsent(before, c.name);
    } else {
      var front, last := after[..|after| - 1], after[|after| - 1];
      assert (before + [c] + after)[..|before| + |after|] == before + [c] + front;
      DeletesTheNamedOne(before, c, front);
    }
  }

  predicate HasConnect(c: Cluster, name: string) {
    exists i :: 0 <= i < |c.connects| && c.connects[i].name == name
  }

  lemma HasConnectIff(c: Cluster, name: string)
    ensures HasConnect(c, name) <==> exists x <- c.connects :: x.name == name
  {
    if x :| x in c.connects && x.name == name {
      var i :| 0 <= i < |c.connects| && c.connects[i] == x;
    }
  }

  ghost predicate Names(c: Cluster, name: string, connect: string) {
    c.name == name && exists x <- c.connects :: x.name == connect
  }

  lemma ConnectDeletedIs(cs: seq<Cluster>, name: string, connect: string)
    ensures var after := ConnectDeleted(cs, name, connect);
            if forall c <- cs :: !Names(c, name, connect) then after == cs && IndexOfConnect(cs, name, connect) < 0
            else IndexOfConnect(cs, name, connect) >= 0 && exists i :: DeletesFrom(cs, after, i, name, connect)
  {
    forall c <- cs
      ensures Names(c, name, connect) <==> c.name == name && HasConnect(c, connect)
    {
      HasConnectIff(c, connect);
    }
    var i := IndexOfConnect(cs, name, connect);
    if i >= 0 {
      DeletesFromIndex(cs, name, connect, i);
    }
  }

  lemma DeletesFromIndex(cs: seq<Cluster>, name: string, connect: string, i: nat)
    requires i < |cs| && i == IndexOfConnect(cs, name, connect)
    requires forall c <- cs :: Names(c, name, connect) <==> c.name == name && HasConnect(c, connect)
    ensures Names(cs[i], name, connect) && DeletesFrom(cs, ConnectDeleted(cs, name, connect), i, name, connect)
  {
    assert cs[i] in cs;
    WithoutRemovesAll(cs[i].connects, connect);
  }

  lemma ConnectDeletedAt(cs: seq<Cluster>, after: seq<Cluster>, i: nat, name: string, connect: string)
    requires i < |cs| && cs[i].name == name && HasConnect(cs[i], connect)
    requires after == cs[i := cs[i].(connects := Without(cs[i].connects, connect))]
    requires forall j :: 0 <= j < i ==> !(cs[j].name == name && HasConnect(cs[j], connect))
    ensures after == ConnectDeleted(cs, name, connect)
    ensures exists c <- cs :: Names(c, name, connect)
    ensures exists j :: DeletesFrom(cs, after, j, name, connect)
  {
    assert i == IndexOfConnect(cs, name, connect);
    ConnectDeletedIs(cs, name, connect);
  }

  // The connect entries of that name are gone from the first cluster of its name that
  // has one, and nothing else has changed.
  ghost predicate DeletesFrom(cs: seq<Cluster>, after: seq<Cluster>, i: int, name: string, connect: string) {
    && 0 <= i < |cs| == |after| && Names(cs[i], name, connect)
    && (forall j :: 0 <= j < i ==> !Names(cs[j], name, connect))
    && RemovesAll(after[i].connects, cs[i].connects, connect)
    && after == cs[i := cs[i].(connects := after[i].connects)]
  }

  // First cluster of that name which has that connect cluster, -1 without one.
  function IndexOfConnect(cs: seq<Cluster>, name: string, connect: string): (i: int)
    ensures -1 <= i < |cs|
    ensures i >= 0 ==> cs[i].name == name && HasConnect(cs[i], connect)
    ensures i >= 0 ==> forall j :: 0 <= j < i ==> !(cs[j].name == name && HasConnect(cs[j], connect))
    ensures i < 0 ==> forall j :: 0 <= j < |cs| ==> !(cs[j].name == name && HasConnect(cs[j], connect))
  {
    if cs == [] then -1
    else
      var front := IndexOfConnect(cs[..|cs| - 1], name, connect);
      if front >= 0 then front
      else if cs[|cs| - 1].name == name && HasConnect(cs[|cs| - 1], connect) then |cs| - 1
      else -1
  }

  // The slice after each operation.

  function Registered(cs: seq<Cluster>, d: Registration): seq<Cluster> {
    var i := IndexOf(cs, d.name);
    if i < 0 then cs + [ToCluster(d).(active := cs == [])]
    else
      cs[i := ToCluster(d).(active := cs[i].active,
                            name := match d.newName case Some(n) => n case None => d.name)]
  }

  function Switched(cs: seq<Cluster>, name: string): seq<Cluster> {
    seq(|cs|, i requires 0 <= i < |cs| => cs[i].(active := cs[i].name == name))
  }

  function Deleted(cs: seq<Cluster>, name: string): seq<Cluster> {
    var i := IndexOf(cs, name);
    if i < 0 then cs
    else
      var rest := cs[..i] + cs[i + 1..];
      if cs[i].active then FirstActivated(rest) else rest
  }

  function FirstActivated(cs: seq<Cluster>): seq<Cluster> {
    if cs == [] then [] else cs[0 := cs[0].(active := true)]
  }

  function ConnectDeleted(cs: seq<Cluster>, name: string, connect: string): seq<Cluster> {
    var i := IndexOfConnect(cs, name, connect);
    if i < 0 then cs else cs[i := cs[i].(connects := Without(cs[i].connects, connect))]
  }

  function FindByName(cs: seq<Cluster>, name: string): Option<Cluster> {
    var i := IndexOf(cs, name);
    if i < 0 then None else Some(cs[i])
  }

  // The first active cluster, else the first one.
  function Active(cs: seq<Cluster>): Option<Cluster> {
    var i := FirstActive(cs);
    if i >= 0 then Some(cs[i]) else if cs != [] then Some(cs[0]) else None
  }

  function FirstActive(cs: seq<Cluster>): (i: int)
    ensures -1 <= i < |cs|
    ensures i >= 0 ==> cs[i].active && forall j :: 0 <= j < i ==> !cs[j].active
    ensures i < 0 ==> forall j :: 0 <= j < |cs| ==> !cs[j].active
  {
    if cs == [] then -1
    else
      var front := FirstActive(cs[..|cs| - 1]);
      if front >= 0 then front else if cs[|cs| - 1].active then |cs| - 1 else -1
  }

  class Config {
    var clusters: seq<Cluster>

    constructor (clusters: seq<Cluster>)
      ensures this.clusters == clusters
    {
      this.clusters := clusters;
    }

    method RegisterCluster(d: Registration)
      modifies this
      ensures clusters == Registered(old(clusters), d)
    {
      var cluster := ToCluster(d);
      if |clusters| == 0 {
        cluster := cluster.(active := true);
      }
      var isUpdated := false;
      var i := 0;
      while i < |clusters|
        invariant 0 <= i <= |clusters| && !isUpdated && clusters == old(clusters)
        invariant cluster == ToCluster(d).(active := |clusters| == 0)
        invariant forall j :: 0 <= j < i ==> clusters[j].name != d.name
      {
        if clusters[i].name == d.name {
          var isActive := clusters[i].active;
          cluster := cluster.(active := isActive);
          clusters := clusters[i := cluster];
          if d.newName.Some? {
            clusters := clusters[i := clusters[i].(name := d.newName.value)];
          }
          isUpdated := true;
          break;
        }
        i := i + 1;
      }
      if !isUpdated {
        clusters := clusters + [cluster];
      }
    }

    // Returns the cluster switched to, if there is one.
    method SwitchCluster(name: string) returns (switched: Option<Cluster>)
      modifies this
      ensures clusters == Switched(old(clusters), name)
      ensures |clusters| == |old(clusters)|
      ensures forall j :: 0 <= j < |clusters| ==> clusters[j] == old(clusters)[j].(active := old(clusters)[j].name == name)
      ensures switched.Some? <==> IndexOf(old(clusters), name) >= 0
      ensures switched.Some? ==> switched.value in clusters && switched.value.name == name && switched.value.active
    {
      switched := None;
      var i := 0;
      while i < |clusters|
        invariant 0 <= i <= |clusters| == |old(clusters)|
        invariant forall j :: 0 <= j < i ==> clusters[j] == old(clusters)[j].(active := old(clusters)[j].name == name)
        invariant forall j :: i <= j < |clusters| ==> clusters[j] == old(clusters)[j]
        invariant switched.None? ==> forall j :: 0 <= j < i ==> clusters[j].name != name
        invariant switched.Some? ==> exists j :: 0 <= j < i && clusters[j] == switched.value && clusters[j].name == name
      {
        clusters := clusters[i := clusters[i].(active := false)];
        if clusters[i].name == name {
          clusters := clusters[i := clusters[i].(active := true)];
          switched := Some(clusters[i]);
        }
        i := i + 1;
      }
    }

    method DeleteCluster(name: string)
      modifies this
      ensures clusters == Deleted(old(clusters), name)
    {
      var index := -1;
      var i := 0;
      while i < |clusters|
        invariant 0 <= i <= |clusters| && index == -1
        invariant forall j :: 0 <= j < i ==> clusters[j].name != name
      {
        if clusters[i].name == name {
          index := i;
          break;
        }
        i := i + 1;
      }
      if index == -1 {
        return;
      }
      var isActive := clusters[index].active;
      clusters := clusters[..index] + clusters[index + 1..];
      if isActive && |clusters| > 0 {
        clusters := clusters[0 := clusters[0].(active := true)];
      }
    }

    // Says whether a connect cluster was deleted.
    method DeleteKafkaConnectCluster(name: string, connect: string) returns (deleted: bool)
      modifies this
      ensures clusters == ConnectDeleted(old(clusters), name, connect)
      ensures deleted <==> exists c <- old(clusters) :: Names(c, name, connect)
      ensures deleted ==> exists i :: DeletesFrom(old(clusters), clusters, i, name, connect)
      ensures !deleted ==> clusters == old(clusters)
    {
      deleted := false;
      var i := 0;
      while i < |clusters|
        invariant 0 <= i <= |clusters| && !deleted && clusters == old(clusters)
        invariant forall j :: 0 <= j < i ==> !(clusters[j].name == name && HasConnect(clusters[j], connect))
      {
        if clusters[i].name == name {
          var found := Mentions(clusters[i], connect);
          if found {
            var out := DeleteConnect(clusters[i].connects, connect);
            clusters := clusters[i := clusters[i].(connects := out)];
            ConnectDeletedAt(old(clusters), clusters, i, name, connect);
            return true;
          }
        }
        i := i + 1;
      }
      ConnectDeletedIs(clusters, name, connect);
    }

    // The inner loop: whether a cluster has a connect cluster of that name.
    static method Mentions(c: Cluster, connect: string) returns (found: bool)
      ensures found == HasConnect(c, connect)
    {
      for k := 0 to |c.connects|
        invariant forall l :: 0 <= l < k ==> c.connects[l].name != connect
      {
        if c.connects[k].name == connect {
          return true;
        }
      }
      return false;
    }

    static method DeleteConnect(connects: seq<Connect>, name: string) returns (out: seq<Connect>)
      ensures out == Without(connects, name)
      ensures RemovesAll(out, connects, name)
    {
      out := [];
      for i := 0 to |connects|
        invariant out == Without(connects[..i], name)
      {
        assert connects[..i + 1][..i] == connects[..i];
        if connects[i].name != name {
          out := out + [connects[i]];
        }
      }
      assert connects[..|connects|] == connects;
      WithoutRemovesAll(connects, name);
    }

    method ActiveCluster() returns (c: Option<Cluster>)
      ensures c == Active(clusters)
      ensures c.None? <==> clusters == []
      ensures c.Some? && (forall x <- clusters :: !x.active) ==> c.value == clusters[0]
      ensures (exists x <- clusters :: x.active) ==>
                exists i :: 0 <= i < |clusters| && c == Some(clusters[i]) && clusters[i].active && forall j :: 0 <= j < i ==> !clusters[j].active
    {
      for i := 0 to |clusters|
        invariant forall j :: 0 <= j < i ==> !clusters[j].active
      {
        if clusters[i].active {
          return Some(clusters[i]);
        }
      }
      return if |clusters| > 0 then Some(clusters[0]) else None;
    }

    method FindClusterByName(name: string) returns (c: Option<Cluster>)
      ensures c == FindByName(clusters, name)
      ensures c.None? <==> forall x <- clusters :: x.name != name
      ensures c.Some? ==> exists i :: 0 <= i < |clusters| && c == Some(clusters[i]) && clusters[i].name == name && forall j :: 0 <= j < i ==> clusters[j].name != name
    {
      for i := 0 to |clusters|
        invariant forall j :: 0 <= j < i ==> clusters[j].name != name
      {
        if clusters[i].name == name {
          return Some(clusters[i]);
        }
      }
      return None;
    }
  }

  // What a healthy configuration looks like.

  predicate NamesUnique(cs: seq<Cluster>) {
    forall i, j :: 0 <= i < j < |cs| ==> cs[i].name != cs[j].name
  }

  predicate ActiveAt(cs: seq<Cluster>, i: int) {
    0 <= i < |cs| && forall j :: 0 <= j < |cs| ==> (cs[j].active <==> j == i)
  }

  predicate OneActive(cs: seq<Cluster>) {
    cs == [] || exists i :: 0 <= i < |cs| && ActiveAt(cs, i)
  }

  predicate Valid(cs: seq<Cluster>) {
    NamesUnique(cs) && OneActive(cs)
  }

  datatype Command =
    | Register(d: Registration)
    | Switch(name: string)
    | Delete(name: string)
    | DeleteConnectOf(name: string, connect: string)

  function Apply(cs: seq<Cluster>, cmd: Command): seq<Cluster> {
    match cmd
    case Register(d) => Registered(cs, d)
    case Switch(name) => Switched(cs, name)
    case Delete(name) => Deleted(cs, name)
    case DeleteConnectOf(name, connect) => ConnectDeleted(cs, name, connect)
  }

  // The commands that keep a configuration valid: a rename must not take a name
  // another cluster has, and a switch must name a cluster.
  predicate Allowed(cs: seq<Cluster>, cmd: Command) {
    match cmd
    case Register(d) =>
      d.newName.Some? && IndexOf(cs, d.name) >= 0 && d.newName.value != d.name ==> IndexOf(cs, d.newName.value) < 0
    case Switch(name) => cs == [] || IndexOf(cs, name) >= 0
    case _ => true
  }

  lemma StaysValidIff(cs: seq<Cluster>, cmd: Command)
    requires Valid(cs)
    ensures Valid(Apply(cs, cmd)) <==> Allowed(cs, cmd)
  {
    match cmd
    case Register(d) => RegisterValidIff(cs, d);
    case Switch(name) => SwitchValidIff(cs, name);
    case Delete(name) => DeleteValid(cs, name);
    case DeleteConnectOf(name, connect) =>
      var i := IndexOfConnect(cs, name, connect);
      if cs != [] {
        var k :| 0 <= k < |cs| && ActiveAt(cs, k);
        assert ActiveAt(ConnectDeleted(cs, name, connect), k);
      }
  }

  lemma RegisterValidIff(cs: seq<Cluster>, d: Registration)
    requires Valid(cs)
    ensures Valid(Registered(cs, d)) <==> Allowed(cs, Register(d))
  {
    var i := IndexOf(cs, d.name);
    var after := Registered(cs, d);
    if cs == [] {
      assert ActiveAt(after, 0);
    } else {
      var k :| 0 <= k < |cs| && ActiveAt(cs, k);
      assert ActiveAt(after, k);
      if !Allowed(cs, Register(d)) {
        var other := IndexOf(cs, d.newName.value);
        assert after[i].name == after[other].name && i != other;
      }
    }
  }

  lemma SwitchValidIff(cs: seq<Cluster>, name: string)
    requires Valid(cs)
    ensures Valid(Switched(cs, name)) <==> Allowed(cs, Switch(name))
  {
    var i := IndexOf(cs, name);
    var after := Switched(cs, name);
    assert forall j :: 0 <= j < |cs| ==> after[j].name == cs[j].name;
    if i >= 0 {
      assert ActiveAt(after, i);
    } else {
      forall k | 0 <= k < |after|
        ensures !ActiveAt(after, k)
      {
        assert !after[k].active;
      }
    }
  }

  lemma DeleteValid(cs: seq<Cluster>, name: string)
    requires Valid(cs)
    ensures Valid(Deleted(cs, name))
  {
    var i := IndexOf(cs, name);
    if i >= 0 {
      DeletedNames(cs, i);
      if cs[i].active {
        DeletedTheActiveOne(cs, i);
      } else {
        DeletedAnother(cs, i);
      }
    }
  }

  lemma DeletedNames(cs: seq<Cluster>, at: nat)
    requires NamesUnique(cs) && at < |cs| && IndexOf(cs, cs[at].name) == at
    ensures NamesUnique(Deleted(cs, cs[at].name))
  {
    DeletedAt(cs, at);
    var after := Deleted(cs, cs[at].name);
    forall i, j | 0 <= i < j < |after|
      ensures after[i].name != after[j].name
    {
      assert cs[Was(at, i)].name != cs[Was(at, j)].name;
    }
  }

  lemma DeletedTheActiveOne(cs: seq<Cluster>, at: nat)
    requires OneActive(cs) && at < |cs| && IndexOf(cs, cs[at].name) == at && cs[at].active
    ensures OneActive(Deleted(cs, cs[at].name))
  {
    DeletedAt(cs, at);
    var after := Deleted(cs, cs[at].name);
    if after != [] {
      assert ActiveAt(after, 0);
    }
  }

  lemma DeletedAnother(cs: seq<Cluster>, at: nat)
    requires OneActive(cs) && at < |cs| && IndexOf(cs, cs[at].name) == at && !cs[at].active
    ensures OneActive(Deleted(cs, cs[at].name))
  {
    DeletedAt(cs, at);
    var k :| 0 <= k < |cs| && ActiveAt(cs, k);
    assert ActiveAt(Deleted(cs, cs[at].name), if k < at then k else k - 1);
  }

  // Over whole runs of allowed commands.
  function Run(cs: seq<Cluster>, cmds: seq<Command>): seq<Cluster> {
    if cmds == [] then cs else Apply(Run(cs, cmds[..|cmds| - 1]), cmds[|cmds| - 1])
  }

  predicate AllAllowed(cs: seq<Cluster>, cmds: seq<Command>) {
    cmds == [] ||
    (AllAllowed(cs, cmds[..|cmds| - 1]) && Allowed(Run(cs, cmds[..|cmds| - 1]), cmds[|cmds| - 1]))
  }

  lemma {:induction false} RunsStayValid(cs: seq<Cluster>, cmds: seq<Command>)
    requires Valid(cs) && AllAllowed(cs, cmds)
    ensures Valid(Run(cs, cmds))
  {
    if cmds != [] {
      RunsStayValid(cs, cmds[..|cmds| - 1]);
      StaysValidIff(Run(cs, cmds[..|cmds| - 1]), cmds[|cmds| - 1]);
    }
  }

  // The abstract registry: settings by name, and the active name. Settings are a
  // cluster without the two things the registry itself keeps.

  datatype Registry = Registry(settings: map<string, Cluster>, active: Option<string>)

  function Settings(c: Cluster): Cluster {
    c.(active := false, name := "")
  }

  function SettingsOf(cs: seq<Cluster>, name: string): Option<Cluster> {
    var i := IndexOf(cs, name);
    if i < 0 then None else Some(Settings(cs[i]))
  }

  function SettingsByName(cs: seq<Cluster>): (m: map<string, Cluster>)
    ensures forall n :: n in m <==> SettingsOf(cs, n).Some?
    ensures forall n :: n in m ==> SettingsOf(cs, n) == Some(m[n])
  {
    map i | 0 <= i < |cs| && SettingsOf(cs, cs[i].name).Some? :: cs[i].name := SettingsOf(cs, cs[i].name).value
  }

  function Abstract(cs: seq<Cluster>): Registry {
    Registry(SettingsByName(cs), ActiveName(cs))
  }

  function ActiveName(cs: seq<Cluster>): Option<string> {
    match Active(cs)
    case Some(c) => Some(c.name)
    case None => None
  }

  // The two lookups read exactly that.
  lemma LookupsReadTheRegistry(cs: seq<Cluster>, name: string)
    requires Valid(cs)
    ensures var a := Abstract(cs);
            && FindByName(cs, name) ==
                 (if name in a.settings then Some(a.settings[name].(name := name, active := a.active == Some(name))) else None)
            && (a.active.None? <==> cs == [])
            && (a.active.Some? ==> a.active.value in a.settings && Active(cs) == FindByName(cs, a.active.value))
  {
    if cs != [] {
      var k :| 0 <= k < |cs| && ActiveAt(cs, k);
      Located(cs, k);
    }
    if IndexOf(cs, name) >= 0 {
      Located(cs, IndexOf(cs, name));
    }
  }

  // Which abstract registries a command may lead to. Only deleting the active
  // cluster leaves a choice: some remaining cluster becomes the active one.
  ghost predicate Refines(before: Registry, cmd: Command, after: Registry) {
    match cmd
    case Register(d) =>
      var name := if d.name in before.settings && d.newName.Some? then d.newName.value else d.name;
      && after.settings == (before.settings - {d.name})[name := Settings(ToCluster(d))]
      && after.active == (if before.active.None? || before.active == Some(d.name) then Some(name) else before.active)
    case Switch(name) =>
      && after.settings == before.settings
      && after.active == (if before.active.None? then None else Some(name))
    case Delete(name) =>
      && after.settings == before.settings - {name}
      && (if before.active == Some(name)
          then if after.settings == map[] then after.active.None? else after.active.Some? && after.active.value in after.settings
          else after.active == before.active)
    case DeleteConnectOf(name, connect) =>
      && after.active == before.active
      && (name !in before.settings ==> after.settings == before.settings)
      && (name in before.settings ==>
            && name in after.settings
            && RemovesAll(after.settings[name].connects, before.settings[name].connects, connect)
            && after.settings ==
                 before.settings[name := before.settings[name].(connects := after.settings[name].connects)])
  }

  lemma {:induction false} CommandsRefine(cs: seq<Cluster>, cmd: Command)
    requires Valid(cs) && Allowed(cs, cmd)
    ensures Refines(Abstract(cs), cmd, Abstract(Apply(cs, cmd)))
  {
    StaysValidIff(cs, cmd);
    match cmd
    case Register(d) => RegisterRefines(cs, d);
    case Switch(name) => SwitchRefines(cs, name);
    case Delete(name) => DeleteRefines(cs, name);
    case DeleteConnectOf(name, connect) => DeleteConnectRefines(cs, name, connect);
  }

  // In a valid configuration a cluster is found where it is, and is the active one
  // exactly when it says so.
  lemma {:induction false} Located(cs: seq<Cluster>, i: nat)
    requires Valid(cs) && i < |cs|
    ensures IndexOf(cs, cs[i].name) == i
    ensures ActiveName(cs).Some?
    ensures ActiveName(cs) == Some(cs[i].name) <==> cs[i].active
    ensures cs[i].active ==> FirstActive(cs) == i
  {
    var k :| 0 <= k < |cs| && ActiveAt(cs, k);
    var f := FirstActive(cs);
    assert cs[k].active;
    assert f >= 0 && cs[f].active;
    if cs[i].name == cs[k].name {
      assert i == k;
    }
  }

  lemma SameIndexes(cs: seq<Cluster>, after: seq<Cluster>)
    requires |cs| == |after| && forall j :: 0 <= j < |cs| ==> after[j].name == cs[j].name
    ensures forall n :: IndexOf(after, n) == IndexOf(cs, n)
  {
  }

  lemma {:induction false} RegisterRefines(cs: seq<Cluster>, d: Registration)
    requires Valid(cs) && Valid(Registered(cs, d))
    ensures Refines(Abstract(cs), Register(d), Abstract(Registered(cs, d)))
  {
    RegisteredSettings(cs, d);
    RegisteredActive(cs, d);
  }

  lemma {:induction false} RegisteredActive(cs: seq<Cluster>, d: Registration)
    requires Valid(cs) && Valid(Registered(cs, d))
    ensures var was := ActiveName(cs);
            ActiveName(Registered(cs, d)) == if was.None? || was == Some(d.name) then Some(RegisteredName(cs, d)) else was
  {
    var after := Registered(cs, d);
    if cs == [] {
      Located(after, 0);
    } else {
      var k :| 0 <= k < |cs| && ActiveAt(cs, k);
      Located(cs, k);
      Located(after, k);
    }
  }

  lemma IndexIs(cs: seq<Cluster>, i: nat)
    requires NamesUnique(cs) && i < |cs|
    ensures IndexOf(cs, cs[i].name) == i
  {
  }

  lemma RegisteredSettingsOf(cs: seq<Cluster>, d: Registration, n: string)
    requires NamesUnique(cs) && NamesUnique(Registered(cs, d))
    ensures SettingsOf(Registered(cs, d), n) ==
            if n == RegisteredName(cs, d) then Some(Settings(ToCluster(d)))
            else if n == d.name then None
            else SettingsOf(cs, n)
  {
    var after := Registered(cs, d);
    var at := if IndexOf(cs, d.name) < 0 then |cs| else IndexOf(cs, d.name);
    IndexIs(after, at);
    var i, j := IndexOf(cs, n), IndexOf(after, n);
    if n != RegisteredName(cs, d) {
      if i >= 0 && i != at {
        assert after[i] == cs[i];
        IndexIs(after, i);
      } else if j >= 0 {
        assert false;
      }
    }
  }

  // The name a registration's cluster ends up with.
  function RegisteredName(cs: seq<Cluster>, d: Registration): string {
    if IndexOf(cs, d.name) >= 0 && d.newName.Some? then d.newName.value else d.name
  }

  // From lookups to maps.
  lemma MapAfterPut(cs: seq<Cluster>, after: seq<Cluster>, removed: string, name: string, c: Cluster)
    requires forall n :: SettingsOf(after, n) ==
               if n == name then Some(c) else if n == removed then None else SettingsOf(cs, n)
    ensures SettingsByName(after) == (SettingsByName(cs) - {removed})[name := c]
  {
    var m, m' := SettingsByName(after), (SettingsByName(cs) - {removed})[name := c];
    forall n
      ensures (n in m <==> n in m') && (n in m ==> m[n] == m'[n])
    {
      assert SettingsOf(after, n) == if n == name then Some(c) else if n == removed then None else SettingsOf(cs, n);
    }
    SameMap(m, m');
  }

  lemma MapAfterChange(cs: seq<Cluster>, after: seq<Cluster>, name: string, c: Cluster)
    requires forall n :: SettingsOf(after, n) == if n == name then Some(c) else SettingsOf(cs, n)
    ensures SettingsByName(after) == SettingsByName(cs)[name := c]
  {
    var m, m' := SettingsByName(after), SettingsByName(cs)[name := c];
    forall n
      ensures (n in m <==> n in m') && (n in m ==> m[n] == m'[n])
    {
      assert SettingsOf(after, n) == if n == name then Some(c) else SettingsOf(cs, n);
    }
    SameMap(m, m');
  }

  lemma MapAfterRemove(cs: seq<Cluster>, after: seq<Cluster>, removed: string)
    requires forall n :: SettingsOf(after, n) == if n == removed then None else SettingsOf(cs, n)
    ensures SettingsByName(after) == SettingsByName(cs) - {removed}
  {
    var m, m' := SettingsByName(after), SettingsByName(cs) - {removed};
    forall n
      ensures (n in m <==> n in m') && (n in m ==> m[n] == m'[n])
    {
      assert SettingsOf(after, n) == if n == removed then None else SettingsOf(cs, n);
    }
    SameMap(m, m');
  }

  lemma MapUnchanged(cs: seq<Cluster>, after: seq<Cluster>)
    requires forall n :: SettingsOf(after, n) == SettingsOf(cs, n)
    ensures SettingsByName(after) == SettingsByName(cs)
  {
    var m, m' := SettingsByName(after), SettingsByName(cs);
    forall n
      ensures (n in m <==> n in m') && (n in m ==> m[n] == m'[n])
    {
      assert SettingsOf(after, n) == SettingsOf(cs, n);
    }
    SameMap(m, m');
  }

  lemma SameMap<K(!new), V>(m: map<K, V>, m': map<K, V>)
    requires forall n :: n in m <==> n in m'
    requires forall n :: n in m ==> m[n] == m'[n]
    ensures m == m'
  {
  }

  lemma {:induction false} RegisteredSettings(cs: seq<Cluster>, d: Registration)
    requires NamesUnique(cs) && NamesUnique(Registered(cs, d))
    ensures SettingsByName(Registered(cs, d)) ==
            (SettingsByName(cs) - {d.name})[RegisteredName(cs, d) := Settings(ToCluster(d))]
  {
    forall n {
      RegisteredSettingsOf(cs, d, n);
    }
    MapAfterPut(cs, Registered(cs, d), d.name, RegisteredName(cs, d), Settings(ToCluster(d)));
  }

  lemma SwitchedSettings(cs: seq<Cluster>, after: seq<Cluster>)
    requires |cs| == |after| && forall j :: 0 <= j < |cs| ==> after[j] == cs[j].(active := after[j].active)
    ensures SettingsByName(after) == SettingsByName(cs)
  {
    SameIndexes(cs, after);
    forall n
      ensures SettingsOf(after, n) == SettingsOf(cs, n)
    {
      assert IndexOf(after, n) == IndexOf(cs, n);
    }
    MapUnchanged(cs, after);
  }

  lemma {:induction false} SwitchRefines(cs: seq<Cluster>, name: string)
    requires Valid(cs) && Allowed(cs, Switch(name)) && Valid(Switched(cs, name))
    ensures Refines(Abstract(cs), Switch(name), Abstract(Switched(cs, name)))
  {
    var after := Switched(cs, name);
    SameIndexes(cs, after);
    SwitchedSettings(cs, after);
    if cs != [] {
      Located(cs, 0);
      Located(after, IndexOf(cs, name));
    }
  }

  lemma {:induction false} DeleteRefines(cs: seq<Cluster>, name: string)
    requires Valid(cs) && Valid(Deleted(cs, name))
    ensures Refines(Abstract(cs), Delete(name), Abstract(Deleted(cs, name)))
  {
    var i := IndexOf(cs, name);
    if i >= 0 {
      DeletedSettings(cs, i);
      Located(cs, i);
      if Deleted(cs, name) == [] {
        DeletedLastOne(cs, i);
      } else {
        DeletedActive(cs, i);
      }
    } else {
      assert Abstract(cs).settings - {name} == Abstract(cs).settings;
      NotTheActiveOne(cs, name);
    }
  }

  lemma NotTheActiveOne(cs: seq<Cluster>, name: string)
    requires IndexOf(cs, name) < 0
    ensures Abstract(cs).active != Some(name)
  {
  }

  lemma DeletedLastOne(cs: seq<Cluster>, i: nat)
    requires Valid(cs) && i < |cs| && IndexOf(cs, cs[i].name) == i && Deleted(cs, cs[i].name) == []
    ensures cs[i].active && Abstract(Deleted(cs, cs[i].name)) == Registry(map[], None)
  {
  }

  // Where a cluster that stays was before the deletion.
  function Was(at: nat, j: nat): nat {
    if j < at then j else j + 1
  }

  lemma {:induction false} DeletedAt(cs: seq<Cluster>, at: nat)
    requires at < |cs| && IndexOf(cs, cs[at].name) == at
    ensures var after := Deleted(cs, cs[at].name);
            && |after| == |cs| - 1
            && (forall j :: 0 <= j < |after| ==>
                  after[j].name == cs[Was(at, j)].name && Settings(after[j]) == Settings(cs[Was(at, j)]))
            && (!cs[at].active ==> forall j :: 0 <= j < |after| ==> after[j] == cs[Was(at, j)])
  {
  }

  // Which cluster is active after a deletion.
  lemma {:induction false} DeletedActive(cs: seq<Cluster>, at: nat)
    requires Valid(cs) && at < |cs| && IndexOf(cs, cs[at].name) == at
    requires Deleted(cs, cs[at].name) != [] && Valid(Deleted(cs, cs[at].name))
    ensures var b := Abstract(Deleted(cs, cs[at].name));
            && b.active.Some? && b.active.value in b.settings
            && (!cs[at].active ==> b.active == Abstract(cs).active)
  {
    var after := Deleted(cs, cs[at].name);
    DeletedAt(cs, at);
    var l :| 0 <= l < |after| && ActiveAt(after, l);
    Located(after, l);
    if !cs[at].active {
      Located(cs, Was(at, l));
    }
  }

  lemma {:induction false} DeletedSettingsOf(cs: seq<Cluster>, at: nat, n: string)
    requires NamesUnique(cs) && at < |cs| && IndexOf(cs, cs[at].name) == at
    ensures SettingsOf(Deleted(cs, cs[at].name), n) == if n == cs[at].name then None else SettingsOf(cs, n)
  {
    var after := Deleted(cs, cs[at].name);
    DeletedAt(cs, at);
    var i, j := IndexOf(cs, n), IndexOf(after, n);
    if i >= 0 && i != at {
      var k := if i < at then i else i - 1;
      assert Was(at, k) == i && after[k].name == n;
    }
    if j >= 0 {
      IndexIs(cs, Was(at, j));
    }
  }

  lemma {:induction false} DeletedSettings(cs: seq<Cluster>, at: nat)
    requires NamesUnique(cs) && at < |cs| && IndexOf(cs, cs[at].name) == at
    ensures SettingsByName(Deleted(cs, cs[at].name)) == SettingsByName(cs) - {cs[at].name}
  {
    forall n {
      DeletedSettingsOf(cs, at, n);
    }
    MapAfterRemove(cs, Deleted(cs, cs[at].name), cs[at].name);
  }

  lemma {:induction false} DeleteConnectRefines(cs: seq<Cluster>, name: string, connect: string)
    requires Valid(cs) && Valid(ConnectDeleted(cs, name, connect))
    ensures Refines(Abstract(cs), DeleteConnectOf(name, connect), Abstract(ConnectDeleted(cs, name, connect)))
  {
    var after := ConnectDeleted(cs, name, connect);
    ConnectDeletedSettings(cs, name, connect);
    if name in SettingsByName(cs) {
      WithoutRemovesAll(SettingsByName(cs)[name].connects, connect);
    }
    if cs != [] {
      var k :| 0 <= k < |cs| && ActiveAt(cs, k);
      Located(cs, k);
      Located(after, k);
    }
  }

  lemma ConnectDeletedSettingsOf(cs: seq<Cluster>, name: string, connect: string, n: string)
    requires NamesUnique(cs) && SettingsOf(cs, name).Some?
    ensures var c := SettingsOf(cs, name).value;
            SettingsOf(ConnectDeleted(cs, name, connect), n) ==
              if n == name then Some(c.(connects := Without(c.connects, connect))) else SettingsOf(cs, n)
  {
    SameIndexes(cs, ConnectDeleted(cs, name, connect));
    var i := IndexOf(cs, n);
    if i >= 0 && n == name && !HasConnect(cs[i], connect) {
      WithoutAbsent(cs[i].connects, connect);
    }
  }

  lemma {:induction false} ConnectDeletedSettings(cs: seq<Cluster>, name: string, connect: string)
    requires NamesUnique(cs)
    ensures var m := SettingsByName(cs);
            SettingsByName(ConnectDeleted(cs, name, connect)) ==
              if name in m then m[name := m[name].(connects := Without(m[name].connects, connect))] else m
  {
    var m := SettingsByName(cs);
    if name in m {
      var c := m[name].(connects := Without(m[name].connects, connect));
      forall n
        ensures SettingsOf(ConnectDeleted(cs, name, connect), n) == if n == name then Some(c) else SettingsOf(cs, n)
      {
        ConnectDeletedSettingsOf(cs, name, connect, n);
      }
      MapAfterChange(cs, ConnectDeleted(cs, name, connect), name, c);
    } else {
      assert IndexOfConnect(cs, name, connect) < 0;
    }
  }

  lemma {:induction false} WithoutAbsent(cs: seq<Connect>, name: string)
    requires forall i :: 0 <= i < |cs| ==> cs[i].name != name
    ensures Without(cs, name) == cs
  {
    if cs != [] {
      WithoutAbsent(cs[..|cs| - 1], name);
      assert cs == cs[..|cs| - 1] + [cs[|cs| - 1]];
    }
  }

  // Adding a connect cluster of a fresh name to a registered cluster and deleting it
  // again gives back the whole configuration.
  lemma AddThenDeleteConnect(cs: seq<Cluster>, i: nat, c: Connect)
    requires Valid(cs) && i < |cs| && !HasConnect(cs[i], c.name)
    ensures ConnectDeleted(cs[i := cs[i].(connects := cs[i].connects + [c])], cs[i].name, c.name) == cs
  {
    var with := cs[i := cs[i].(connects := cs[i].connects + [c])];
    assert HasConnect(with[i], c.name) by {
      assert with[i].connects[|cs[i].connects|] == c;
    }
    var k := IndexOfConnect(with, cs[i].name, c.name);
    assert with[k].name == cs[k].name;
    assert k == i;
    assert (cs[i].connects + [c])[..|cs[i].connects|] == cs[i].connects;
    WithoutAbsent(cs[i].connects, c.name);
    assert Without(with[i].connects, c.name) == cs[i].connects;
    assert cs[i].(connects := cs[i].connects) == cs[i];
    assert with[i := cs[i]] == cs;
  }

  // Where things are in the slice after each operation.

  // What a registration makes of a cluster, field by field.
  ghost predicate IsRegistered(c: Cluster, d: Registration) {
    && c.color == d.color && c.servers == [d.host] && c.tls == d.tls && c.registry == d.registry && c.connects == d.connects
    && (d.authMethod in {SaslPlaintext, SaslScram256, SaslScram512} ==> c.sasl == Sasl(d.username, d.password, d.authMethod))
    && (d.authMethod == NoAuth ==> c.sasl == Sasl("", "", NoAuth))
    && (d.authMethod.UnknownAuth? ==> c.sasl == Sasl("", "", UnknownAuth("")))
  }

  lemma RegisteringReplaces(before: seq<Cluster>, c: Cluster, after: seq<Cluster>, d: Registration) returns (x: Cluster)
    requires c.name == d.name && forall o <- before :: o.name != d.name
    ensures Registered(before + [c] + after, d) == before + [x] + after
    ensures IsRegistered(x, d) && x.active == c.active
    ensures x.name == match d.newName case Some(n) => n case None => c.name
  {
    var cs := before + [c] + after;
    FoundBetween(before, c, after);
    x := Registered(cs, d)[|before|];
    assert Registered(cs, d) == cs[|before| := x];
  }

  lemma RegisteringAppends(cs: seq<Cluster>, d: Registration) returns (x: Cluster)
    requires forall o <- cs :: o.name != d.name
    ensures Registered(cs, d) == cs + [x]
    ensures IsRegistered(x, d) && x.name == d.name && (x.active <==> cs == [])
  {
    x := ToCluster(d).(active := cs == []);
  }

  lemma FoundBetween(before: seq<Cluster>, c: Cluster, after: seq<Cluster>)
    requires forall o <- before :: o.name != c.name
    ensures IndexOf(before + [c] + after, c.name) == |before|
  {
    var cs := before + [c] + after;
    var i := IndexOf(cs, c.name);
    assert cs[|before|] == c;
    assert forall j :: 0 <= j < |before| ==> cs[j] == before[j] && before[j] in before;
  }

  // A deletion leaves the others in their places; if the deleted one was active, the
  // first of them becomes active, and nothing else changes.
  lemma DeletingLeavesTheOthers(before: seq<Cluster>, c: Cluster, after: seq<Cluster>)
    requires forall o <- before :: o.name != c.name
    ensures var left := Deleted(before + [c] + after, c.name);
            && |left| == |before| + |after|
            && (!c.active ==> left == before + after)
            && (forall i :: 0 < i < |left| ==> left[i] == (before + after)[i])
            && (c.active && left != [] ==> left[0] == (before + after)[0].(active := true))
  {
    FoundBetween(before, c, after);
    var cs := before + [c] + after;
    assert cs[..|before|] == before && cs[|before| + 1..] == after;
  }

  lemma DeletingNobody(cs: seq<Cluster>, name: string)
    requires forall o <- cs :: o.name != name
    ensures Deleted(cs, name) == cs
  {
  }
}
