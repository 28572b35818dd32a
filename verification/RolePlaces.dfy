/**
  Where the hosts of a first run end up, counted from the front of the host table: how many
  etcd, control plane, worker and reflector hosts there are, and which.
 */
module RolePlaces {
  import opened Octets
  import opened OrderedDict
  import opened Inventory
  import opened InventoryRoles

  function Min(a: int, b: int): int {
    if a <= b then a else b
  }

  /** Three etcd hosts when there are so many, else one. */
  function EtcdPlaces(n: nat): (k: nat)
    ensures k <= n
  {
    if n >= 3 then 3 else Min(n, 1)
  }

  /** Where the control plane's hosts end when there is a count of them and they start at `from`. */
  function ControlEnd(n: nat, from: nat, env: Settings): (k: nat)
    requires from <= n
    ensures env.controlHosts >= 0 ==> from <= k <= n
  {
    if env.controlHosts < 0 then 0 else Min(n, from + env.controlHosts)
  }

  /** Where the nodes start: behind the roles that keep their hosts to themselves at this scale. */
  function NodePlaces(n: nat, env: Settings): (k: nat)
    requires env.controlHosts >= 0
    ensures k <= n
  {
    var from := if n >= env.scale then EtcdPlaces(n) else 0;
    if n >= env.massive then ControlEnd(n, from, env) else from
  }

  /** Names kept in order, less one. */
  function But(names: seq<string>, out: string): seq<string> {
    if names == [] then []
    else
      var h := names[|names| - 1];
      But(names[..|names| - 1], out) + if h == out then [] else [h]
  }

  lemma EtcdIs(hosts: seq<string>)
    ensures EtcdHosts(hosts) == hosts[..EtcdPlaces(|hosts|)]
  {
  }

  lemma ControlIs(hosts: seq<string>, env: Settings)
    requires env.controlHosts >= 0
    ensures var n := |hosts|;
            ControlHosts(hosts, env)
            == if n >= env.scale then hosts[EtcdPlaces(n)..ControlEnd(n, EtcdPlaces(n), env)]
               else hosts[..ControlEnd(n, 0, env)]
  {
  }

  /** A negative count leaves out that many hosts at the end, as a Python slice does. */
  lemma ControlFromEnd(hosts: seq<string>, env: Settings)
    requires env.controlHosts < 0
    ensures var n, c, k := |hosts|, env.controlHosts, EtcdPlaces(|hosts|);
            && (n < env.scale ==> ControlHosts(hosts, env) == hosts[..if n + c < 0 then 0 else n + c])
            && (n >= env.scale && n >= 3 && c + 3 >= 0 ==> ControlHosts(hosts, env) == [])
            && (n >= env.scale && n >= 3 && c + 3 < 0 ==>
                  ControlHosts(hosts, env) == hosts[3..if n + c + 3 < 3 then 3 else n + c + 3])
            && (n >= env.scale && n < 3 ==> ControlHosts(hosts, env) == [])
  {
  }

  predicate Distinct(s: seq<string>) {
    forall i, j :: 0 <= i < j < |s| ==> s[i] != s[j]
  }

  lemma {:induction false} MergeAll(names: seq<string>)
    requires Distinct(names)
    ensures Merge([], names) == names
  {
    if names != [] {
      var n := |names| - 1;
      MergeAll(names[..n]);
      assert names == names[..n] + [names[n]];
    }
  }

  /** In a fresh inventory a role lists exactly what it is given. */
  lemma RoleGiven(all: Dict<Vars>, env: Settings, s: Stages, role: string)
    requires all.Valid() && HasRoles(Ensure(None)) && Assignment(Ensure(None), all, env) == Some(s)
    requires role in {ETCD, CONTROL, NODE, CALICO}
    ensures HasRoles(s.nodes) && s.final.In(role) == Merge([], Assigned(s, all.Keys(), env, role))
  {
    hide Assignment, Ensure, Merge, Config.In, Assigned, ETCD, CONTROL, NODE, CLUSTER, CALICO;
    RolesDiffer();
    FreshConfig(role);
    KeptNothing(all.Keys());
    AssignedRoles(Ensure(None), all, env, role, s);
  }

  lemma EtcdPlaced(all: Dict<Vars>, env: Settings, s: Stages)
    requires all.Valid() && HasRoles(Ensure(None)) && Assignment(Ensure(None), all, env) == Some(s)
    ensures s.final.In(ETCD) == all.Keys()[..EtcdPlaces(|all.items|)]
    ensures s.final.In(CONTROL) == ControlHosts(all.Keys(), env)
  {
    hide Assignment, Ensure, Merge, Config.In, EtcdHosts, ControlHosts, ETCD, CONTROL, NODE, CLUSTER, CALICO;
    RolesDiffer();
    RoleGiven(all, env, s, ETCD);
    RoleGiven(all, env, s, CONTROL);
    EtcdIs(all.Keys());
    MergeAll(EtcdHosts(all.Keys()));
    ControlDistinct(all, env);
    MergeAll(ControlHosts(all.Keys(), env));
  }

  lemma ControlDistinct(all: Dict<Vars>, env: Settings)
    requires all.Valid()
    ensures Distinct(ControlHosts(all.Keys(), env))
  {
  }

  lemma WorkersStep(c: Config, hosts: seq<string>, env: Settings, m: nat)
    requires HasRoles(c) && m < |hosts|
    requires PassedOver(c, hosts[m], env).Some? && Workers(c, hosts[..m], env).Some?
    ensures var before := Workers(c, hosts[..m], env).value;
            Workers(c, hosts[..m + 1], env)
            == Some(if PassedOver(c, hosts[m], env).value then before else before + [hosts[m]])
  {
    hide PassedOver, ETCD, CONTROL, NODE, CLUSTER, CALICO;
    assert hosts[..m + 1][..m] == hosts[..m] && hosts[..m + 1][m] == hosts[m];
  }

  ghost predicate FrontPassed(c: Config, hosts: seq<string>, env: Settings, b: nat)
    requires HasRoles(c)
  {
    forall i :: 0 <= i < |hosts| ==> PassedOver(c, hosts[i], env) == Some(i < b)
  }

  function From(hosts: seq<string>, b: nat, m: nat): seq<string>
    requires m <= |hosts|
  {
    if m <= b then [] else hosts[b..m]
  }

  lemma FrontAt(c: Config, hosts: seq<string>, env: Settings, b: nat, i: nat)
    requires HasRoles(c) && FrontPassed(c, hosts, env, b) && i < |hosts|
    ensures PassedOver(c, hosts[i], env) == Some(i < b)
  {
    hide PassedOver;
  }

  /** When the hosts passed over are those in front, the rest become nodes, in order. */
  lemma {:induction false} WorkersFrom(c: Config, hosts: seq<string>, env: Settings, m: nat, b: nat)
    requires HasRoles(c) && m <= |hosts| && FrontPassed(c, hosts, env, b)
    ensures Workers(c, hosts[..m], env) == Some(From(hosts, b, m))
  {
    hide PassedOver, Workers, FrontPassed, From, ETCD, CONTROL, NODE, CLUSTER, CALICO;
    if m == 0 {
      NoWorkers(c, env);
      FromNothing(hosts, b);
    } else {
      WorkersFrom(c, hosts, env, m - 1, b);
      FrontAt(c, hosts, env, b, m - 1);
      WorkersStep(c, hosts, env, m - 1);
      FromStep(hosts, b, m);
    }
  }

  lemma FromNothing(hosts: seq<string>, b: nat)
    ensures hosts[..0] == [] && From(hosts, b, 0) == []
  {
  }

  lemma FromStep(hosts: seq<string>, b: nat, m: nat)
    requires 0 < m <= |hosts|
    ensures From(hosts, b, m) == if m - 1 < b then From(hosts, b, m - 1) else From(hosts, b, m - 1) + [hosts[m - 1]]
  {
  }

  lemma NoWorkers(c: Config, env: Settings)
    requires HasRoles(c)
    ensures Workers(c, [], env) == Some([])
  {
  }

  lemma NodesPlaced(all: Dict<Vars>, env: Settings, s: Stages)
    requires all.Valid() && HasRoles(Ensure(None)) && Assignment(Ensure(None), all, env) == Some(s)
    requires env.controlHosts >= 0
    ensures s.final.In(NODE) == all.Keys()[NodePlaces(|all.items|, env)..]
  {
    hide Assignment, Ensure, Merge, Config.In, EtcdHosts, ControlHosts, NodePlaces;
    hide ETCD, CONTROL, NODE, CLUSTER, CALICO;
    RolesDiffer();
    RoleGiven(all, env, s, NODE);
    WorkersAre(all, env, s);
    MergeAll(all.Keys()[NodePlaces(|all.items|, env)..]);
  }

  lemma WorkersAre(all: Dict<Vars>, env: Settings, s: Stages)
    requires all.Valid() && HasRoles(Ensure(None)) && Assignment(Ensure(None), all, env) == Some(s)
    requires env.controlHosts >= 0
    ensures s.workers == all.Keys()[NodePlaces(|all.items|, env)..]
  {
    hide Assignment, Ensure, Workers, PassedOver, NodePlaces, FrontPassed, ETCD, CONTROL, NODE, CLUSTER, CALICO;
    var hosts, b := all.Keys(), NodePlaces(|all.items|, env);
    WorkersOf(Ensure(None), all, env, s);
    AllPassedInFront(all, env, s);
    WorkersFrom(s.control, hosts, env, |hosts|, b);
    TailOf(hosts, b);
  }

  lemma AllPassedInFront(all: Dict<Vars>, env: Settings, s: Stages)
    requires all.Valid() && HasRoles(Ensure(None)) && Assignment(Ensure(None), all, env) == Some(s)
    requires env.controlHosts >= 0 && HasRoles(s.control)
    ensures FrontPassed(s.control, all.Keys(), env, NodePlaces(|all.items|, env))
  {
    hide Assignment, Ensure, PassedOver, NodePlaces, ETCD, CONTROL, NODE, CLUSTER, CALICO;
    forall i | 0 <= i < |all.Keys()|
      ensures PassedOver(s.control, all.Keys()[i], env) == Some(i < NodePlaces(|all.items|, env))
    {
      PassedInFront(all, env, s, i);
    }
  }

  lemma TailOf(hosts: seq<string>, b: nat)
    requires b <= |hosts|
    ensures hosts[..|hosts|] == hosts && From(hosts, b, |hosts|) == hosts[b..]
  {
  }

  lemma PassedInFront(all: Dict<Vars>, env: Settings, s: Stages, i: nat)
    requires all.Valid() && HasRoles(Ensure(None)) && Assignment(Ensure(None), all, env) == Some(s)
    requires env.controlHosts >= 0 && i < |all.items| && HasRoles(s.control)
    ensures PassedOver(s.control, all.Keys()[i], env) == Some(i < NodePlaces(|all.items|, env))
  {
    hide Assignment, Ensure, Merge, Config.In, PassedOver, EtcdHosts, ControlHosts, NodePlaces, EtcdPlaces;
    hide ETCD, CONTROL, NODE, CLUSTER, CALICO;
    RolesDiffer();
    FreshConfig(ETCD);
    FreshConfig(CONTROL);
    AssignedRoles(Ensure(None), all, env, ETCD, s);
    AssignedRoles(Ensure(None), all, env, CONTROL, s);
    FreshNames(Ensure(None), all, env, s);
    TablesKept(Ensure(None), all, env, s, ETCD);
    TablesKept(Ensure(None), all, env, s, CONTROL);
    EtcdPlaced(all, env, s);
    NotPassedOver(s.control, all.Keys()[i], env);
    InFront(all, env, i);
  }

  lemma InFront(all: Dict<Vars>, env: Settings, i: nat)
    requires all.Valid() && i < |all.items| && env.controlHosts >= 0
    ensures var n, hosts := |all.items|, all.Keys();
            ((n >= env.scale && hosts[i] in hosts[..EtcdPlaces(n)]) || (n >= env.massive && hosts[i] in ControlHosts(hosts, env)))
            <==> i < NodePlaces(n, env)
  {
    var n, hosts := |all.items|, all.Keys();
    ControlIs(hosts, env);
    hide ControlHosts;
    var k := EtcdPlaces(n);
    Within(all, 0, k, i);
    Within(all, 0, ControlEnd(n, 0, env), i);
    Within(all, k, ControlEnd(n, k, env), i);
    assert hosts[0..k] == hosts[..k] && hosts[0..ControlEnd(n, 0, env)] == hosts[..ControlEnd(n, 0, env)];
  }

  lemma Within(all: Dict<Vars>, a: nat, b: nat, i: nat)
    requires all.Valid() && a <= b <= |all.items| && i < |all.items|
    ensures all.Keys()[i] in all.Keys()[a..b] <==> a <= i < b
  {
    var hosts := all.Keys();
    if a <= i < b { assert hosts[a..b][i - a] == hosts[i]; }
    if hosts[i] in hosts[a..b] {
      var j :| 0 <= j < b - a && hosts[a..b][j] == hosts[i];
      assert hosts[a + j] == hosts[i] && all.items[a + j].0 == all.items[i].0;
    }
  }

  lemma {:induction false} ReflectorsAre(c: Config, hosts: seq<string>)
    requires HasRoles(c)
    requires forall h :: h in hosts ==> (KeyOf(c.children.Get(CONTROL), h) || KeyOf(c.children.Get(NODE), h) <==> h == "hosts")
    ensures Reflectors(c, hosts) == But(hosts, "hosts")
  {
    hide KeyOf, CONTROL, NODE, ETCD, CLUSTER, CALICO;
    if hosts != [] {
      var n := |hosts| - 1;
      assert hosts[n] in hosts && forall h :: h in hosts[..n] ==> h in hosts;
      ReflectorsAre(c, hosts[..n]);
    }
  }

  lemma ReflectorsPlaced(all: Dict<Vars>, env: Settings, s: Stages)
    requires all.Valid() && HasRoles(Ensure(None)) && Assignment(Ensure(None), all, env) == Some(s)
    ensures s.final.In(CALICO)
         == if |all.items| >= env.scale then But(all.Keys()[..EtcdPlaces(|all.items|)], "hosts") else []
  {
    hide Assignment, Ensure, Merge, Config.In, Reflectors, But, EtcdPlaces, ETCD, CONTROL, NODE, CLUSTER, CALICO;
    RolesDiffer();
    RoleGiven(all, env, s, CALICO);
    if |all.items| >= env.scale {
      ReflectorsGiven(all, env, s);
      ButDistinct(all.Keys()[..EtcdPlaces(|all.items|)], "hosts");
      MergeAll(But(all.Keys()[..EtcdPlaces(|all.items|)], "hosts"));
    } else {
      MergeNothing([]);
    }
  }

  lemma ReflectorsGiven(all: Dict<Vars>, env: Settings, s: Stages)
    requires all.Valid() && HasRoles(Ensure(None)) && Assignment(Ensure(None), all, env) == Some(s)
    requires HasRoles(s.nodes) && |all.items| >= env.scale
    ensures Reflectors(s.nodes, EtcdHosts(all.Keys())) == But(all.Keys()[..EtcdPlaces(|all.items|)], "hosts")
  {
    hide Assignment, Ensure, Reflectors, EtcdHosts, EtcdPlaces, But, ETCD, CONTROL, NODE, CLUSTER, CALICO;
    RolesDiffer();
    FreshConfig(CONTROL);
    FreshConfig(NODE);
    EtcdIs(all.Keys());
    KeysKept(Ensure(None), all, env, s, CONTROL);
    KeysKept(Ensure(None), all, env, s, NODE);
    ReflectorsAre(s.nodes, all.Keys()[..EtcdPlaces(|all.items|)]);
  }

  lemma {:induction false} ButDistinct(names: seq<string>, out: string)
    requires Distinct(names)
    ensures Distinct(But(names, out)) && forall h :: h in But(names, out) ==> h in names
  {
    if names != [] {
      var n := |names| - 1;
      assert names == names[..n] + [names[n]] && names[n] !in names[..n];
      ButDistinct(names[..n], out);
      var before := But(names[..n], out);
      hide But;
      DistinctSnoc(before, names[n]);
      assert before + [] == before;
    }
  }

  lemma DistinctSnoc(s: seq<string>, h: string)
    requires Distinct(s) && h !in s
    ensures Distinct(s + [h])
  {
  }

  /** Which hosts, counted from the front of the table, are given which role. */
  ghost predicate Placed(c: Config, hosts: seq<string>, env: Settings)
    requires env.controlHosts >= 0
  {
    var n := |hosts|;
    && (n >= 3 ==> c.In(ETCD) == hosts[..3])
    && (1 <= n < 3 ==> c.In(ETCD) == hosts[..1])
    && (n < env.scale ==> c.In(CONTROL) == hosts[..Min(n, env.controlHosts)])
    && (n >= env.scale && n >= 3 ==> c.In(CONTROL) == hosts[3..Min(n, 3 + env.controlHosts)])
    && (n >= env.scale && 1 <= n < 3 ==> c.In(CONTROL) == hosts[1..Min(n, 1 + env.controlHosts)])
    && c.In(NODE) == hosts[NodePlaces(n, env)..]
    && c.In(CALICO) == (if n >= env.scale then But(c.In(ETCD), "hosts") else [])
  }

  lemma AllPlaced(all: Dict<Vars>, env: Settings, s: InventoryRoles.Stages)
    requires all.Valid() && HasRoles(Ensure(None)) && Assignment(Ensure(None), all, env) == Some(s)
    requires env.controlHosts >= 0
    ensures Placed(s.final, all.Keys(), env)
  {
    hide Assignment, Ensure, ControlHosts, Config.In, NodePlaces, But, ETCD, CONTROL, NODE, CLUSTER, CALICO;
    EtcdPlaced(all, env, s);
    ControlIs(all.Keys(), env);
    NodesPlaced(all, env, s);
    ReflectorsPlaced(all, env, s);
  }

  /** A first run: which hosts are given which role. */
  lemma FirstPlaces(args: seq<string>, env: Settings)
    requires env.controlHosts >= 0 && Run(None, false, args, env).Some?
    ensures var all := BuildHostnames(Some(Dict([])), false, args, env);
            all.Some? && Placed(Run(None, false, args, env).value, all.value.Keys(), env)
  {
    hide Assignment, Ensure, BuildHostnames, Placed;
    FreshConfig(ETCD);
    var all := BuildHostnames(Some(Dict([])), false, args, env).value;
    BuiltIsValid(Some(Dict([])), false, args, env);
    AllPlaced(all, env, Assignment(Ensure(None), all, env).value);
  }

  // ----- names and failures ---------------------------------------------------------------------

  /** The names purging never removes. */
  lemma ProtectedIs(h: string)
    ensures Protected(h) <==>
              h in {"all", "kube_control_plane", "kube_node", "etcd", "k8s_cluster", "calico_rr"}
  {
  }

  lemma {:induction false} WorkersFail(c: Config, hosts: seq<string>, env: Settings)
    requires HasRoles(c)
    ensures Workers(c, hosts, env) == None <==> exists h :: h in hosts && PassedOver(c, h, env) == None
  {
    hide PassedOver, ETCD, CONTROL, NODE, CLUSTER, CALICO;
    if hosts != [] {
      var n := |hosts| - 1;
      WorkersFail(c, hosts[..n], env);
      assert hosts == hosts[..n] + [hosts[n]];
    }
  }

  /** A node is sought among the control plane's hosts, and that group has no table. */
  ghost predicate Untabled(config: Config, all: Dict<Vars>, env: Settings, m: nat)
    requires HasRoles(config)
  {
    && m >= env.massive && config.children.Get(CONTROL).hosts == Null && ControlHosts(all.Keys(), env) == []
    && exists h :: h in all.Keys() && !(m >= env.scale && (h in config.In(ETCD) || h in EtcdHosts(all.Keys())))
  }

  /** The configurations up to the choice of nodes. */
  ghost predicate UpTo(config: Config, all: Dict<Vars>, env: Settings, p: Config, e: Config, c: Config)
    requires HasRoles(config)
  {
    && config.children.Valid() && all.items != [] && Prepared(config, all) == Some(p) && HasRoles(p)
    && e == AddAll(p, ETCD, EtcdHosts(all.Keys())) && HasRoles(e)
    && c == AddAll(e, CONTROL, ControlHosts(all.Keys(), env)) && HasRoles(c)
  }

  lemma EtcdThen(config: Config, all: Dict<Vars>, env: Settings, p: Config, e: Config, c: Config, h: string)
    requires HasRoles(config) && UpTo(config, all, env, p, e, c)
    ensures c.Names() == p.Names() && c.children.Get(ETCD).hosts.Table?
    ensures h in all.Keys() ==> (h in c.In(ETCD) <==> h in config.In(ETCD) || h in EtcdHosts(all.Keys()))
  {
    hide Merge, Prepared, EtcdHosts, ControlHosts, AddAll, Config.In, ETCD, CONTROL, NODE, CLUSTER, CALICO;
    var hosts := all.Keys();
    RolesDiffer();
    PreparedIn(config, all, ETCD);
    AddAllIn(p, ETCD, EtcdHosts(hosts), ETCD);
    AddAllIn(e, CONTROL, ControlHosts(hosts, env), ETCD);
    SomeEtcd(hosts);
  }

  lemma ControlThen(config: Config, all: Dict<Vars>, env: Settings, p: Config, e: Config, c: Config)
    requires HasRoles(config) && UpTo(config, all, env, p, e, c)
    ensures c.children.Get(CONTROL).hosts.Table? <==>
              config.children.Get(CONTROL).hosts.Table? || ControlHosts(all.Keys(), env) != []
    ensures config.children.Get(CONTROL).hosts != Missing
  {
    hide Kept, Merge, Prepared, EtcdHosts, ControlHosts, AddAll, Config.In, ETCD, CONTROL, NODE, CLUSTER, CALICO;
    var hosts := all.Keys();
    RolesDiffer();
    PreparedIn(config, all, CONTROL);
    AddAllIn(p, ETCD, EtcdHosts(hosts), CONTROL);
    AddAllIn(e, CONTROL, ControlHosts(hosts, env), CONTROL);
    HostsThere(config, all, CONTROL);
  }

  lemma HostsThere(config: Config, all: Dict<Vars>, role: string)
    requires HasRoles(config) && Prepared(config, all).Some? && config.children.Has(role) && role != CLUSTER
    ensures config.children.Get(role).hosts != Missing
  {
    assert config.children.items[config.children.Find(role).value].0 == role;
  }

  lemma PassedFails(config: Config, all: Dict<Vars>, env: Settings, p: Config, e: Config, c: Config, h: string)
    requires HasRoles(config) && UpTo(config, all, env, p, e, c) && h in all.Keys()
    ensures PassedOver(c, h, env) == None <==>
              && |p.Names()| >= env.massive && config.children.Get(CONTROL).hosts == Null
              && ControlHosts(all.Keys(), env) == []
              && !(|p.Names()| >= env.scale && (h in config.In(ETCD) || h in EtcdHosts(all.Keys())))
  {
    hide UpTo, EtcdHosts, ControlHosts, Config.In, ETCD, CONTROL, NODE, CLUSTER, CALICO;
    EtcdThen(config, all, env, p, e, c, h);
    ControlThen(config, all, env, p, e, c);
    assert HasRoles(c) by { RolesThen(config, all, env, p, e, c); }
    EtcdListed(c);
  }

  lemma RolesThen(config: Config, all: Dict<Vars>, env: Settings, p: Config, e: Config, c: Config)
    requires HasRoles(config) && UpTo(config, all, env, p, e, c)
    ensures HasRoles(c)
  {
  }

  lemma EtcdListed(c: Config)
    requires HasRoles(c)
    ensures Listed(c.children.Get(ETCD)) == c.In(ETCD)
  {
  }

  lemma NodesFail(config: Config, all: Dict<Vars>, env: Settings, p: Config, e: Config, c: Config)
    requires HasRoles(config) && UpTo(config, all, env, p, e, c)
    ensures HasRoles(c) && (Workers(c, all.Keys(), env) == None <==> Untabled(config, all, env, |p.Names()|))
  {
    hide UpTo, EtcdHosts, ControlHosts, Workers, Config.In, PassedOver, ETCD, CONTROL, NODE, CLUSTER, CALICO;
    RolesThen(config, all, env, p, e, c);
    WorkersFail(c, all.Keys(), env);
    forall h | h in all.Keys()
      ensures PassedOver(c, h, env) == None <==>
                && |p.Names()| >= env.massive && config.children.Get(CONTROL).hosts == Null
                && ControlHosts(all.Keys(), env) == []
                && !(|p.Names()| >= env.scale && (h in config.In(ETCD) || h in EtcdHosts(all.Keys())))
    {
      PassedFails(config, all, env, p, e, c, h);
    }
  }

  lemma PreparedIff(config: Config, all: Dict<Vars>)
    requires HasRoles(config)
    ensures Prepared(config, all).Some? <==> Complete(config.children)
  {
  }

  lemma StagesReached(config: Config, all: Dict<Vars>, env: Settings) returns (p: Config, e: Config, c: Config)
    requires HasRoles(config) && config.children.Valid() && all.items != [] && Prepared(config, all).Some?
    ensures UpTo(config, all, env, p, e, c) && Prepared(config, all) == Some(p)
  {
    hide EtcdHosts, ControlHosts, Prepared, AddAll;
    p := Prepared(config, all).value;
    AddAllKeys(p, ETCD, EtcdHosts(all.Keys()));
    e := AddAll(p, ETCD, EtcdHosts(all.Keys()));
    AddAllKeys(e, CONTROL, ControlHosts(all.Keys(), env));
    c := AddAll(e, CONTROL, ControlHosts(all.Keys(), env));
  }

  /**
    When a run ends in an exception while it assigns roles: a group other than the cluster
    has no hosts key, or a node is sought in a control plane group without a table.
   */
  lemma AssignmentFails(config: Config, all: Dict<Vars>, env: Settings)
    requires HasRoles(config) && config.children.Valid() && all.items != []
    ensures Complete(config.children) ==> Prepared(config, all).Some?
    ensures Assignment(config, all, env) == None <==>
              || !Complete(config.children)
              || Untabled(config, all, env, |Prepared(config, all).value.Names()|)
  {
    hide UpTo, Untabled, EtcdHosts, ControlHosts, Workers, Prepared, AddAll, Complete;
    PreparedIff(config, all);
    if Prepared(config, all).Some? {
      var p, e, c := StagesReached(config, all, env);
      NodesFail(config, all, env, p, e, c);
      AssignmentGoes(config, all, env, p, e, c);
    } else {
      NotPrepared(config, all, env);
    }
  }

  lemma NotPrepared(config: Config, all: Dict<Vars>, env: Settings)
    requires HasRoles(config) && Prepared(config, all) == None
    ensures Assignment(config, all, env) == None
  {
    hide Prepared;
  }

  lemma AssignmentGoes(config: Config, all: Dict<Vars>, env: Settings, p: Config, e: Config, c: Config)
    requires HasRoles(config) && UpTo(config, all, env, p, e, c)
    ensures HasRoles(c) && (Assignment(config, all, env) == None <==> Workers(c, all.Keys(), env) == None)
  {
    hide EtcdHosts, ControlHosts, Workers, AddAll, Prepared, Reflectors;
  }

  lemma SomeEtcd(hosts: seq<string>)
    requires hosts != []
    ensures EtcdHosts(hosts) != []
  {
  }
}
