/**
  The roles of the Kubespray inventory: groups purged of hosts that are gone, then
  given hosts by position and by the scale of the deployment.
 */
module InventoryRoles {
  import opened Octets
  import opened OrderedDict
  import opened Inventory

  const ETCD: string := "etcd"
  const CONTROL: string := "kube_control_plane"
  const NODE: string := "kube_node"
  const CLUSTER: string := "k8s_cluster"
  const CALICO: string := "calico_rr"

  const ROLES: seq<string> := ["all", CONTROL, NODE, ETCD, CLUSTER, CALICO]

  predicate Protected(host: string) {
    host in ROLES
  }

  /** What stands under a group's `hosts` key. */
  datatype Hosts = Missing | Null | Table(names: seq<string>)

  /** A group: its `hosts` and its other keys. */
  datatype Group = Group(hosts: Hosts, otherKeys: set<string>)

  /** `yaml_config['all']` */
  datatype Config = Config(hosts: Option<Dict<Vars>>, children: Dict<Group>) {
    ghost predicate Valid() {
      && (hosts.Some? ==> hosts.value.Valid())
      && children.Valid()
    }

    /** The names listed in a role. */
    function In(role: string): seq<string> {
      if children.Has(role) && children.Get(role).hosts.Table? then children.Get(role).hosts.names else []
    }

    function Names(): seq<string> {
      if hosts == None then [] else hosts.value.Keys()
    }
  }

  // ----- required groups -------------------------------------------------------------------

  function EnsureChildren(children: Dict<Group>, groups: seq<string>): (c: Dict<Group>)
    ensures children.Valid() ==> c.Valid()
    decreases |groups|
  {
    if groups == [] then children
    else
      var next := if children.Has(groups[0]) then children else children.Set(groups[0], Group(Table([]), {}));
      EnsureChildren(next, groups[1..])
  }

  /** `ensure_required_groups(ROLES)`; a configuration without `all` is started afresh. */
  function Ensure(config: Option<Config>): Config {
    var c := if config == None then Config(Some(Dict([])), Dict([])) else config.value;
    c.(children := EnsureChildren(c.children, ROLES[1..]))
  }

  // ----- purging -----------------------------------------------------------------------------

  predicate Stays(host: string, hosts: seq<string>) {
    host in hosts || Protected(host)
  }

  function Kept(names: seq<string>, hosts: seq<string>): (k: seq<string>)
    ensures forall h :: h in k <==> h in names && Stays(h, hosts)
  {
    if names == [] then []
    else (if Stays(names[0], hosts) then [names[0]] else []) + Kept(names[1..], hosts)
  }

  function PurgedGroup(role: string, g: Group, hosts: seq<string>): Group {
    if role != CLUSTER && g.hosts.Table? then g.(hosts := Table(Kept(g.hosts.names, hosts))) else g
  }

  function PurgedChildren(children: Dict<Group>, hosts: seq<string>): (c: Dict<Group>)
    ensures c.Keys() == children.Keys()
    ensures children.Valid() ==> c.Valid()
  {
    Dict(seq(|children.items|, i requires 0 <= i < |children.items| =>
      (children.items[i].0, PurgedGroup(children.items[i].0, children.items[i].1, hosts))))
  }

  function PurgedTable(items: seq<(string, Vars)>, hosts: seq<string>): (r: seq<(string, Vars)>)
    ensures forall e :: e in r <==> e in items && Stays(e.0, hosts)
  {
    if items == [] then []
    else (if Stays(items[0].0, hosts) then [items[0]] else []) + PurgedTable(items[1..], hosts)
  }

  /** Every role but the cluster has a `hosts` key. */
  predicate Complete(children: Dict<Group>) {
    forall i :: 0 <= i < |children.items| && children.items[i].0 != CLUSTER ==> children.items[i].1.hosts != Missing
  }

  /** `purge_invalid_hosts(hosts, PROTECTED_NAMES)`; None is its KeyError. */
  function Purge(config: Config, hosts: seq<string>): Option<Config> {
    if !Complete(config.children) then None
    else
      Some(Config(if config.hosts == None then None else Some(Dict(PurgedTable(config.hosts.value.items, hosts))),
                  PurgedChildren(config.children, hosts)))
  }

  // ----- assigning ---------------------------------------------------------------------------

  function Listed(g: Group): seq<string> {
    if g.hosts.Table? then g.hosts.names else []
  }

  /** Names already listed keep their place; new ones follow. */
  function Merge(names: seq<string>, more: seq<string>): (m: seq<string>)
    ensures forall h :: h in m <==> h in names || h in more
  {
    if more == [] then names
    else
      var before := Merge(names, more[..|more| - 1]);
      var h := more[|more| - 1];
      if h in before then before else before + [h]
  }

  /** Hosts added to a role one after another. */
  function AddAll(config: Config, role: string, hosts: seq<string>): Config
    requires config.children.Has(role)
  {
    var g := config.children.Get(role);
    if hosts == [] then config
    else config.(children := config.children.Set(role, g.(hosts := Table(Merge(Listed(g), hosts)))))
  }

  /** A slice bound as Python reads it: negative bounds count from the end. */
  function Bound(i: int, n: nat): (b: nat)
    ensures b <= n
  {
    if i < 0 then (if n + i < 0 then 0 else n + i) else if i > n then n else i
  }

  /** `s[lo:hi]` */
  function Slice(s: seq<string>, lo: int, hi: int): (t: seq<string>)
    ensures forall h :: h in t ==> h in s
  {
    var l, h := Bound(lo, |s|), Bound(hi, |s|);
    if l < h then s[l..h] else []
  }

  function EtcdCount(hosts: seq<string>): nat {
    if |hosts| >= 3 then 3 else 1
  }

  function EtcdHosts(hosts: seq<string>): seq<string> {
    Slice(hosts, 0, EtcdCount(hosts))
  }

  function ControlHosts(hosts: seq<string>, env: Settings): seq<string> {
    if |hosts| >= env.scale then Slice(hosts, EtcdCount(hosts), EtcdCount(hosts) + env.controlHosts)
    else Slice(hosts, 0, env.controlHosts)
  }

  /** `set_all` */
  function SetAll(table: Dict<Vars>, items: seq<(string, Vars)>): (d: Dict<Vars>)
    ensures table.Valid() ==> d.Valid()
  {
    if items == [] then table
    else SetAll(table, items[..|items| - 1]).Set(items[|items| - 1].0, items[|items| - 1].1)
  }

  /** Whether `set_kube_node` passes a host over; None is the TypeError of looking into a null table. */
  function PassedOver(config: Config, host: string, env: Settings): Option<bool>
    requires config.children.Has(ETCD) && config.children.Has(CONTROL)
  {
    var n, etcd, control := |config.Names()|, config.children.Get(ETCD), config.children.Get(CONTROL);
    if n >= env.scale && !etcd.hosts.Table? then None
    else if n >= env.scale && host in Listed(etcd) then Some(true)
    else if n >= env.massive && !control.hosts.Table? then None
    else Some(n >= env.massive && host in Listed(control))
  }

  /** The hosts `set_kube_node` adds. */
  function Workers(config: Config, hosts: seq<string>, env: Settings): (w: Option<seq<string>>)
    requires config.children.Has(ETCD) && config.children.Has(CONTROL)
    ensures w.Some? ==> forall h :: h in w.value <==> h in hosts && PassedOver(config, h, env) == Some(false)
  {
    if hosts == [] then Some([])
    else
      var before :- Workers(config, hosts[..|hosts| - 1], env);
      var out :- PassedOver(config, hosts[|hosts| - 1], env);
      Some(if out then before else before + [hosts[|hosts| - 1]])
  }

  /** `host in group`: the group's keys are searched, not its hosts. */
  predicate KeyOf(g: Group, host: string) {
    (host == "hosts" && g.hosts != Missing) || host in g.otherKeys
  }

  /** The hosts `set_calico_rr` adds. */
  function Reflectors(config: Config, hosts: seq<string>): (r: seq<string>)
    requires config.children.Has(CONTROL) && config.children.Has(NODE)
    ensures forall h :: h in r <==>
              h in hosts && !KeyOf(config.children.Get(CONTROL), h) && !KeyOf(config.children.Get(NODE), h)
  {
    if hosts == [] then []
    else
      var before, h := Reflectors(config, hosts[..|hosts| - 1]), hosts[|hosts| - 1];
      if KeyOf(config.children.Get(CONTROL), h) || KeyOf(config.children.Get(NODE), h) then before else before + [h]
  }

  predicate HasRoles(config: Config) {
    && config.children.Has(CONTROL) && config.children.Has(NODE) && config.children.Has(ETCD)
    && config.children.Has(CLUSTER) && config.children.Has(CALICO)
  }

  /** The `all` table once the hosts are set in it; it stays null when there are none. */
  function AllTable(table: Option<Dict<Vars>>, all: Dict<Vars>): Option<Dict<Vars>> {
    if all.items == [] then table
    else Some(SetAll(if table == None then Dict([]) else table.value, all.items))
  }

  /** Purged, the `all` table set, and the cluster group renewed. */
  function Prepared(config: Config, all: Dict<Vars>): (p: Option<Config>)
    requires HasRoles(config)
    ensures p.Some? ==> HasRoles(p.value)
  {
    var c :- Purge(config, all.Keys());
    var children := c.children.Set(CLUSTER, Group(Missing, {"children"}));
    c.children.SetKeys(CLUSTER, Group(Missing, {"children"}));
    Some(Config(AllTable(c.hosts, all), children))
  }

  /** The configurations a run goes through. */
  datatype Stages = Stages(prepared: Config, etcd: Config, control: Config, workers: seq<string>, nodes: Config,
                           final: Config)

  /** The assignment sequence of the constructor; None is an exception. */
  function Assignment(config: Config, all: Dict<Vars>, env: Settings): Option<Stages>
    requires HasRoles(config)
  {
    var hosts := all.Keys();
    var prepared :- Prepared(config, all);
    AddAllKeys(prepared, ETCD, EtcdHosts(hosts));
    var etcd := AddAll(prepared, ETCD, EtcdHosts(hosts));
    AddAllKeys(etcd, CONTROL, ControlHosts(hosts, env));
    var control := AddAll(etcd, CONTROL, ControlHosts(hosts, env));
    var workers :- Workers(control, hosts, env);
    AddAllKeys(control, NODE, workers);
    var nodes := AddAll(control, NODE, workers);
    var final :=
      if |hosts| >= env.scale then AddAll(nodes, CALICO, Reflectors(nodes, EtcdHosts(hosts))) else nodes;
    Some(Stages(prepared, etcd, control, workers, nodes, final))
  }

  lemma AddAllKeys(config: Config, role: string, hosts: seq<string>)
    requires config.children.Has(role)
    ensures AddAll(config, role, hosts).children.Keys() == config.children.Keys()
  {
    var g := config.children.Get(role);
    config.children.SetKeys(role, g.(hosts := Table(Merge(Listed(g), hosts))));
  }

  /** A whole run over a configuration that was loaded, or over none; without arguments it shows help and exits. */
  function Run(previous: Option<Config>, load: bool, args: seq<string>, env: Settings): Option<Config> {
    if args == [] then None
    else
      var config := Ensure(if load then previous else None);
      EnsuredRoles(if load then previous else None);
      var all :- BuildHostnames(config.hosts, load, args, env);
      var stages :- Assignment(config, all, env);
      Some(stages.final)
  }

  lemma {:induction false} EnsuredHas(children: Dict<Group>, groups: seq<string>)
    ensures forall r :: r in children.Keys() || r in groups ==> EnsureChildren(children, groups).Has(r)
    decreases |groups|
  {
    if groups != [] {
      var g := Group(Table([]), {});
      var c := if children.Has(groups[0]) then children else children.Set(groups[0], g);
      children.SetKeys(groups[0], g);
      EnsuredHas(c, groups[1..]);
    }
  }

  lemma EnsuredRoles(config: Option<Config>)
    ensures HasRoles(Ensure(config))
  {
    var c := if config == None then Config(Some(Dict([])), Dict([])) else config.value;
    EnsuredHas(c.children, ROLES[1..]);
    assert ROLES[1..] == [CONTROL, NODE, ETCD, CLUSTER, CALICO];
  }

  // ----- what a role lists in the end -----------------------------------------------------------

  /** Adding hosts to a role shows in that role and in no other. */
  lemma AddAllIn(config: Config, role: string, hosts: seq<string>, r: string)
    requires config.children.Valid() && config.children.Has(role)
    ensures var c := AddAll(config, role, hosts);
            && c.children.Valid() && c.hosts == config.hosts && c.children.Keys() == config.children.Keys()
            && c.In(r) == (if r == role then Merge(config.In(r), hosts) else config.In(r))
            && (config.children.Has(r) && r != role ==> c.children.Get(r) == config.children.Get(r))
            && (config.children.Has(r) ==>
                  var g, h := config.children.Get(r), c.children.Get(r);
                  h.otherKeys == g.otherKeys && (g.hosts != Missing ==> h.hosts != Missing)
                  && (h.hosts.Table? <==> g.hosts.Table? || (r == role && hosts != [])))
  {
    hide Merge;
    var g := config.children.Get(role);
    var next := g.(hosts := Table(Merge(Listed(g), hosts)));
    AddAllKeys(config, role, hosts);
    config.children.SetGets(role, next);
    MergeNothing(config.In(r));
  }

  lemma MergeNothing(names: seq<string>)
    ensures Merge(names, []) == names
  {
  }

  /** Purging keeps in a role exactly the hosts that remain and the protected names, and does not touch the cluster. */
  lemma PurgedIn(children: Dict<Group>, hosts: seq<string>, role: string)
    requires children.Valid() && children.Has(role)
    ensures var c := PurgedChildren(children, hosts);
            && c.Has(role) && (role == CLUSTER ==> c.Get(role) == children.Get(role))
            && forall h :: h in Listed(c.Get(role)) <==>
                 h in Listed(children.Get(role)) && (role == CLUSTER || Stays(h, hosts))
  {
    hide Kept;
    PurgedAt(children, hosts, role);
  }

  lemma PurgedAt(children: Dict<Group>, hosts: seq<string>, role: string)
    requires children.Valid()
    ensures var c := PurgedChildren(children, hosts);
            children.Has(role) ==> c.Has(role) && c.Get(role) == PurgedGroup(role, children.Get(role), hosts)
  {
    hide PurgedGroup;
    if children.Has(role) {
      PurgedChildren(children, hosts).GetAt(children.Find(role).value);
    }
  }

  /** After preparation every role but the cluster lists what it did, less the hosts that are gone. */
  lemma PreparedIn(config: Config, all: Dict<Vars>, role: string)
    requires HasRoles(config) && config.children.Valid() && Prepared(config, all).Some?
    ensures var p := Prepared(config, all).value;
            && p.children.Valid()
            && p.In(role) == (if role == CLUSTER then [] else Kept(config.In(role), all.Keys()))
            && (config.children.Has(role) && role != CLUSTER ==>
                  p.children.Has(role) && p.children.Get(role).otherKeys == config.children.Get(role).otherKeys
                  && p.children.Get(role).hosts != Missing
                  && (p.children.Get(role).hosts.Table? <==> config.children.Get(role).hosts.Table?))
  {
    hide Kept, Purge, CLUSTER, Config.In;
    var c := Purge(config, all.Keys()).value;
    PurgedConfigIn(config, all.Keys(), role);
    ClusterReplaced(c, AllTable(c.hosts, all), role);
  }

  lemma ClusterReplaced(c: Config, table: Option<Dict<Vars>>, role: string)
    requires c.children.Valid()
    ensures var p := Config(table, c.children.Set(CLUSTER, Group(Missing, {"children"})));
            && p.children.Valid() && p.In(role) == (if role == CLUSTER then [] else c.In(role))
            && (role != CLUSTER && c.children.Has(role) ==>
                  p.children.Has(role) && p.children.Get(role) == c.children.Get(role))
  {
    hide CLUSTER;
    c.children.SetGets(CLUSTER, Group(Missing, {"children"}));
  }

  lemma PurgedConfigIn(config: Config, hosts: seq<string>, role: string)
    requires config.children.Valid() && Purge(config, hosts).Some?
    ensures var c := Purge(config, hosts).value;
            && c.children.Valid()
            && (role != CLUSTER ==> c.In(role) == Kept(config.In(role), hosts))
            && (config.children.Has(role) && role != CLUSTER ==>
                  c.children.Has(role) && c.children.Get(role).otherKeys == config.children.Get(role).otherKeys
                  && c.children.Get(role).hosts != Missing
                  && (c.children.Get(role).hosts.Table? <==> config.children.Get(role).hosts.Table?))
  {
    hide Kept, CLUSTER;
    PurgedAt(config.children, hosts, role);
    KeptNothing(hosts);
    if config.children.Has(role) { config.children.GetAt(config.children.Find(role).value); }
  }

  lemma KeptNothing(hosts: seq<string>)
    ensures Kept([], hosts) == []
  {
  }

  /** What a role is given on top of what it keeps. */
  function Assigned(s: Stages, hosts: seq<string>, env: Settings, role: string): seq<string>
    requires HasRoles(s.nodes)
  {
    if role == ETCD then EtcdHosts(hosts)
    else if role == CONTROL then ControlHosts(hosts, env)
    else if role == NODE then s.workers
    else if role == CALICO && |hosts| >= env.scale then Reflectors(s.nodes, EtcdHosts(hosts))
    else []
  }

  /** Where every role stands after a run: what it listed and still may, then what it is given. */
  lemma AssignedRoles(config: Config, all: Dict<Vars>, env: Settings, role: string, s: Stages)
    requires HasRoles(config) && config.children.Valid() && Assignment(config, all, env) == Some(s)
    ensures HasRoles(s.nodes) && s.final.children.Valid() && s.control.children.Valid()
    ensures s.final.In(role)
         == Merge(if role == CLUSTER then [] else Kept(config.In(role), all.Keys()),
                  Assigned(s, all.Keys(), env, role))
    ensures role == ETCD || role == CONTROL ==> s.control.In(role) == s.final.In(role)
    ensures s.control.hosts == s.final.hosts == s.prepared.hosts
  {
    hide Kept, Merge, Prepared, EtcdHosts, ControlHosts, Workers, Reflectors, AddAll, Config.In;
    hide ETCD, CONTROL, NODE, CLUSTER, CALICO;
    var hosts := all.Keys();
    RolesDiffer();
    PreparedIn(config, all, role);
    MergeNothing(if role == CLUSTER then [] else Kept(config.In(role), hosts));
    AddAllIn(s.prepared, ETCD, EtcdHosts(hosts), role);
    AddAllIn(s.etcd, CONTROL, ControlHosts(hosts, env), role);
    AddAllIn(s.control, NODE, s.workers, role);
    if |hosts| >= env.scale { AddAllIn(s.nodes, CALICO, Reflectors(s.nodes, EtcdHosts(hosts)), role); }
  }

  lemma RolesDiffer()
    ensures ETCD != CONTROL && ETCD != NODE && ETCD != CALICO && ETCD != CLUSTER
    ensures CONTROL != NODE && CONTROL != CALICO && CONTROL != CLUSTER
    ensures NODE != CALICO && NODE != CLUSTER && CALICO != CLUSTER
  {
  }

  lemma PreparedTable(config: Config, all: Dict<Vars>)
    requires HasRoles(config) && Prepared(config, all).Some?
    ensures Purge(config, all.Keys()).Some?
    ensures Prepared(config, all).value.hosts == AllTable(Purge(config, all.Keys()).value.hosts, all)
  {
  }

  // ----- roles list hosts ----------------------------------------------------------------------

  /** After a run each role lists hosts of the inventory, and at most names like a role's that it listed before. */
  lemma RolesListHosts(config: Config, all: Dict<Vars>, env: Settings, role: string, s: Stages)
    requires HasRoles(config) && config.children.Valid() && Assignment(config, all, env) == Some(s)
    ensures forall h :: h in s.final.In(role) ==>
              h in all.Keys() || (Protected(h) && h in config.In(role))
  {
    hide Kept, Merge, EtcdHosts, ControlHosts, Workers, Reflectors, Assignment, Protected, Config.In;
    hide ETCD, CONTROL, NODE, CLUSTER, CALICO;
    AssignedRoles(config, all, env, role, s);
    AssignedAreHosts(config, all, env, s, role);
    ListsWithin(if role == CLUSTER then [] else Kept(config.In(role), all.Keys()), config.In(role), all.Keys());
  }

  lemma ListsWithin(kept: seq<string>, before: seq<string>, hosts: seq<string>)
    ensures kept == [] || kept == Kept(before, hosts) ==>
              forall h :: h in kept ==> h in hosts || (Protected(h) && h in before)
  {
    hide Protected;
  }

  lemma AssignedAreHosts(config: Config, all: Dict<Vars>, env: Settings, s: Stages, role: string)
    requires HasRoles(config) && Assignment(config, all, env) == Some(s) && HasRoles(s.nodes)
    ensures forall h :: h in Assigned(s, all.Keys(), env, role) ==> h in all.Keys()
  {
    hide Prepared, AddAll, PassedOver;
  }

  // ----- the table of all hosts -------------------------------------------------------------------

  predicate Keyed(items: seq<(string, Vars)>, h: string) {
    h in Dict(items).Keys()
  }

  /** Setting entries one after another: each key ends with the value it has in the entries. */
  lemma {:induction false} SetAllGets(table: Dict<Vars>, items: seq<(string, Vars)>, h: string)
    requires table.Valid() && Dict(items).Valid()
    ensures SetAll(table, items).Has(h) <==> table.Has(h) || Keyed(items, h)
    ensures Keyed(items, h) ==> SetAll(table, items).Get(h) == Dict(items).Get(h)
  {
    if items != [] {
      var n := |items| - 1;
      var front := items[..n];
      SetAllGets(table, front, h);
      var d := SetAll(table, front);
      d.SetGets(items[n].0, items[n].1);
      FrontKeys(items, h);
    }
  }

  lemma FrontKeys(items: seq<(string, Vars)>, h: string)
    requires items != [] && Dict(items).Valid()
    ensures var n := |items| - 1;
            && Dict(items[..n]).Valid()
            && (Keyed(items, h) <==> Keyed(items[..n], h) || h == items[n].0)
            && !Keyed(items[..n], items[n].0)
            && Keyed(items, items[n].0) && Dict(items).Get(items[n].0) == items[n].1
            && (Keyed(items[..n], h) ==> Dict(items).Get(h) == Dict(items[..n]).Get(h))
  {
    var n := |items| - 1;
    var front, whole := Dict(items[..n]), Dict(items);
    assert whole.Keys() == front.Keys() + [items[n].0];
    whole.GetAt(n);
    if front.Has(h) {
      whole.GetAt(front.Find(h).value);
    }
    forall i | 0 <= i < n ensures front.Keys()[i] != items[n].0 {
      assert items[i].0 != items[n].0;
    }
  }

  lemma PurgedKeys(items: seq<(string, Vars)>, hosts: seq<string>, h: string)
    ensures Keyed(PurgedTable(items, hosts), h) <==> Keyed(items, h) && Stays(h, hosts)
  {
    hide Stays;
    var kept := PurgedTable(items, hosts);
    if Keyed(kept, h) {
      var i := Dict(kept).Find(h).value;
      assert kept[i] in items;
      var j :| 0 <= j < |items| && items[j] == kept[i];
      assert Dict(items).Keys()[j] == h;
    }
    if Keyed(items, h) && Stays(h, hosts) {
      var i := Dict(items).Find(h).value;
      assert items[i] in kept;
      var j :| 0 <= j < |kept| && kept[j] == items[i];
      assert Dict(kept).Keys()[j] == h;
    }
  }

  lemma {:induction false} PurgedValid(items: seq<(string, Vars)>, hosts: seq<string>)
    requires Dict(items).Valid()
    ensures Dict(PurgedTable(items, hosts)).Valid()
  {
    hide Stays;
    if items != [] {
      var kept := PurgedTable(items[1..], hosts);
      PurgedValid(items[1..], hosts);
      FirstAlone(items, kept);
      assert PurgedTable(items, hosts) == if Stays(items[0].0, hosts) then [items[0]] + kept else [] + kept;
      assert [] + kept == kept;
    }
  }

  lemma FirstAlone(items: seq<(string, Vars)>, kept: seq<(string, Vars)>)
    requires items != [] && Dict(items).Valid() && Dict(kept).Valid()
    requires forall e :: e in kept ==> e in items[1..]
    ensures Dict([items[0]] + kept).Valid()
  {
    forall j | 0 <= j < |kept| ensures kept[j].0 != items[0].0 {
      assert kept[j] in items[1..];
      var m :| 0 <= m < |items[1..]| && items[1..][m] == kept[j];
      assert items[m + 1] == kept[j];
    }
  }

  /**
    After a run the `all` table holds every host of the inventory with its variables,
    and besides only hosts named like a role that were there before.
   */
  lemma AllTableIs(config: Config, all: Dict<Vars>, env: Settings, s: Stages, h: string)
    requires HasRoles(config) && config.Valid() && all.Valid() && Assignment(config, all, env) == Some(s)
    ensures h in s.final.Names() <==> h in all.Keys() || (h in config.Names() && Protected(h))
    ensures h in all.Keys() ==> s.final.hosts.Some? && s.final.hosts.value.Has(h)
                                && s.final.hosts.value.Get(h) == all.Get(h)
  {
    hide Assignment, Protected, Prepared, SetAll, PurgedTable;
    AssignedRoles(config, all, env, ETCD, s);
    TableOf(config, all, env, s);
    var purged := if config.hosts == None then Dict([]) else Dict(PurgedTable(config.hosts.value.items, all.Keys()));
    if config.hosts.Some? {
      PurgedKeys(config.hosts.value.items, all.Keys(), h);
      PurgedValid(config.hosts.value.items, all.Keys());
    }
    assert all == Dict(all.items);
    SetAllGets(purged, all.items, h);
  }

  lemma TableOf(config: Config, all: Dict<Vars>, env: Settings, s: Stages)
    requires HasRoles(config) && Assignment(config, all, env) == Some(s)
    ensures var purged := if config.hosts == None then None
                          else Some(Dict(PurgedTable(config.hosts.value.items, all.Keys())));
            s.prepared.hosts == AllTable(purged, all)
  {
    hide AddAll, Workers, Reflectors, EtcdHosts, ControlHosts;
    PreparedTable(config, all);
  }

  /** It is exactly the table of the hosts unless a name like a role's was left in it. */
  lemma AllTableExact(config: Config, all: Dict<Vars>, env: Settings, s: Stages)
    requires HasRoles(config) && config.Valid() && all.Valid() && Assignment(config, all, env) == Some(s)
    ensures (forall h :: h in s.final.Names() <==> h in all.Keys())
         == (forall h :: h in config.Names() && Protected(h) ==> h in all.Keys())
  {
    hide Assignment, Protected;
    forall h ensures h in s.final.Names() <==> h in all.Keys() || (h in config.Names() && Protected(h)) {
      AllTableIs(config, all, env, s, h);
    }
  }

  // ----- a fresh inventory -------------------------------------------------------------------------

  /** Every host is in exactly one of the three roles, and they list nothing else. */
  ghost predicate Partitions(c: Config, hosts: seq<string>) {
    && (forall h :: h in c.In(ETCD) || h in c.In(CONTROL) || h in c.In(NODE) ==> h in hosts)
    && (forall h :: h in hosts ==> h in c.In(ETCD) || h in c.In(CONTROL) || h in c.In(NODE))
    && (forall h :: !(h in c.In(ETCD) && h in c.In(CONTROL)))
    && (forall h :: !(h in c.In(ETCD) && h in c.In(NODE)))
    && (forall h :: !(h in c.In(CONTROL) && h in c.In(NODE)))
  }

  lemma FreshConfig(role: string)
    ensures var c := Ensure(None);
            && HasRoles(c) && c.Valid() && c.hosts == Some(Dict([])) && Complete(c.children)
            && c.In(role) == [] && (c.children.Has(role) ==> c.children.Get(role) == Group(Table([]), {}))
  {
    hide HasRoles, EnsureChildren;
    EnsuredRoles(None);
    EmptyGroups(Dict([]), ROLES[1..]);
    assert Ensure(None) == Config(Some(Dict([])), EnsureChildren(Dict([]), ROLES[1..]));
  }

  lemma {:induction false} EmptyGroups(children: Dict<Group>, groups: seq<string>)
    requires children.Valid()
    requires forall i :: 0 <= i < |children.items| ==> children.items[i].1 == Group(Table([]), {})
    ensures var c := EnsureChildren(children, groups);
            c.Valid() && forall i :: 0 <= i < |c.items| ==> c.items[i].1 == Group(Table([]), {})
    decreases |groups|
  {
    if groups != [] {
      var g: Group := Group(Table([]), {});
      if children.Has(groups[0]) {
        EmptyGroups(children, groups[1..]);
      } else {
        assert children.Set(groups[0], g).items == children.items + [(groups[0], g)];
        EmptyGroups(children.Set(groups[0], g), groups[1..]);
      }
    }
  }

  lemma {:induction false} SetAllFresh(items: seq<(string, Vars)>)
    requires Dict(items).Valid()
    ensures SetAll(Dict([]), items) == Dict(items)
  {
    if items != [] {
      var n := |items| - 1;
      SetAllFresh(items[..n]);
      FrontKeys(items, items[n].0);
      assert items == items[..n] + [items[n]];
    }
  }

  /** Where the hosts of a fresh inventory go. */
  lemma FreshRoles(all: Dict<Vars>, env: Settings, s: Stages, h: string)
    requires all.Valid() && HasRoles(Ensure(None)) && Assignment(Ensure(None), all, env) == Some(s)
    ensures var hosts, c := all.Keys(), s.final;
            && (h in c.In(ETCD) <==> h in EtcdHosts(hosts))
            && (h in c.In(CONTROL) <==> h in ControlHosts(hosts, env))
            && (h in c.In(NODE) <==>
                  && h in hosts
                  && !(|hosts| >= env.scale && h in EtcdHosts(hosts))
                  && !(|hosts| >= env.massive && h in ControlHosts(hosts, env)))
  {
    hide Assignment, EtcdHosts, ControlHosts, Ensure, Merge, Config.In, PassedOver;
    hide ETCD, CONTROL, NODE, CLUSTER, CALICO;
    var config, hosts := Ensure(None), all.Keys();
    RolesDiffer();
    KeptNothing(hosts);
    FreshConfig(ETCD);
    FreshConfig(CONTROL);
    FreshConfig(NODE);
    AssignedRoles(config, all, env, ETCD, s);
    AssignedRoles(config, all, env, CONTROL, s);
    AssignedRoles(config, all, env, NODE, s);
    WorkersOf(config, all, env, s);
    FreshNames(config, all, env, s);
    TablesKept(config, all, env, s, ETCD);
    TablesKept(config, all, env, s, CONTROL);
    if h in hosts { NotPassedOver(s.control, h, env); }
    if h in s.workers { NotPassedOver(s.control, h, env); }
  }

  /** A host is added to the nodes when it is in neither table that counts at this scale. */
  lemma NotPassedOver(c: Config, h: string, env: Settings)
    requires HasRoles(c) && c.children.Get(ETCD).hosts.Table? && c.children.Get(CONTROL).hosts.Table?
    ensures PassedOver(c, h, env)
         == Some((|c.Names()| >= env.scale && h in c.In(ETCD)) || (|c.Names()| >= env.massive && h in c.In(CONTROL)))
  {
    hide ETCD, CONTROL, NODE, CLUSTER, CALICO;
  }

  lemma WorkersOf(config: Config, all: Dict<Vars>, env: Settings, s: Stages)
    requires HasRoles(config) && Assignment(config, all, env) == Some(s)
    ensures HasRoles(s.control) && Workers(s.control, all.Keys(), env) == Some(s.workers)
  {
    hide Prepared, Reflectors, EtcdHosts, ControlHosts, Workers;
    var p := Prepared(config, all).value;
    AddAllKeys(p, ETCD, EtcdHosts(all.Keys()));
    AddAllKeys(s.etcd, CONTROL, ControlHosts(all.Keys(), env));
  }

  /** Groups that had a table still have one when the nodes are chosen. */
  lemma TablesKept(config: Config, all: Dict<Vars>, env: Settings, s: Stages, role: string)
    requires HasRoles(config) && config.children.Valid() && Assignment(config, all, env) == Some(s)
    requires role == ETCD || role == CONTROL
    requires config.children.Get(role).hosts.Table?
    ensures s.control.children.Has(role) && s.control.children.Get(role).hosts.Table?
  {
    hide Kept, Merge, Prepared, EtcdHosts, ControlHosts, Workers, Reflectors, AddAll, Config.In;
    hide ETCD, CONTROL, NODE, CLUSTER, CALICO;
    RolesDiffer();
    PreparedIn(config, all, role);
    AddAllIn(s.prepared, ETCD, EtcdHosts(all.Keys()), role);
    AddAllIn(s.etcd, CONTROL, ControlHosts(all.Keys(), env), role);
  }

  lemma FreshNames(config: Config, all: Dict<Vars>, env: Settings, s: Stages)
    requires HasRoles(config) && config.children.Valid() && config.hosts == Some(Dict([])) && all.Valid()
    requires Assignment(config, all, env) == Some(s)
    ensures |s.control.Names()| == |all.Keys()|
  {
    hide Assignment;
    AssignedRoles(config, all, env, ETCD, s);
    TableOf(config, all, env, s);
    SetAllFresh(all.items);
  }

  /** The control plane's hosts at scale come after etcd's. */
  lemma SlicesApart(hosts: seq<string>, env: Settings, h: string)
    requires |hosts| >= env.scale
    requires forall i, j :: 0 <= i < j < |hosts| ==> hosts[i] != hosts[j]
    ensures !(h in EtcdHosts(hosts) && h in ControlHosts(hosts, env))
  {
  }

  /** In a fresh inventory at scale etcd shares no host with the control plane or the nodes. */
  lemma EtcdApartAtScale(all: Dict<Vars>, env: Settings, s: Stages)
    requires all.Valid() && HasRoles(Ensure(None)) && Assignment(Ensure(None), all, env) == Some(s)
    requires |all.items| >= env.scale
    ensures forall h :: h in s.final.In(ETCD) ==> h !in s.final.In(CONTROL) && h !in s.final.In(NODE)
  {
    hide Assignment, EtcdHosts, ControlHosts, Ensure;
    forall h | h in s.final.In(ETCD) ensures h !in s.final.In(CONTROL) && h !in s.final.In(NODE) {
      FreshRoles(all, env, s, h);
      SlicesApart(all.Keys(), env, h);
    }
  }

  /**
    In a fresh inventory the three roles partition the hosts exactly at scale, and
    then only at massive scale or with nothing left for the control plane.
   */
  lemma FreshPartition(all: Dict<Vars>, env: Settings, s: Stages)
    requires all.Valid() && all.items != []
    requires HasRoles(Ensure(None)) && Assignment(Ensure(None), all, env) == Some(s)
    ensures var n := |all.items|;
            Partitions(s.final, all.Keys())
            == (n >= env.scale && (n >= env.massive || ControlHosts(all.Keys(), env) == []))
  {
    hide Assignment, ControlHosts, Ensure, Config.In;
    hide ETCD, CONTROL, NODE;
    var hosts := all.Keys();
    forall h
      ensures h in s.final.In(ETCD) <==> h in EtcdHosts(hosts)
      ensures h in s.final.In(CONTROL) <==> h in ControlHosts(hosts, env)
      ensures h in s.final.In(NODE) <==>
                && h in hosts
                && !(|hosts| >= env.scale && h in EtcdHosts(hosts))
                && !(|hosts| >= env.massive && h in ControlHosts(hosts, env))
    {
      FreshRoles(all, env, s, h);
    }
    ControlWithin(hosts, env);
    if |hosts| >= env.scale {
      forall h ensures !(h in EtcdHosts(hosts) && h in ControlHosts(hosts, env)) {
        SlicesApart(hosts, env, h);
      }
      if ControlHosts(hosts, env) != [] {
        var h := ControlHosts(hosts, env)[0];
        assert h in ControlHosts(hosts, env);
      }
    } else {
      assert EtcdHosts(hosts)[0] == hosts[0];
      assert hosts[0] in EtcdHosts(hosts);
    }
  }

  lemma ControlWithin(hosts: seq<string>, env: Settings)
    ensures forall h :: h in ControlHosts(hosts, env) ==> h in hosts
  {
  }

  // ----- route reflectors ------------------------------------------------------------------------

  /**
    The route reflectors: the test meant to keep out control plane hosts and nodes
    looks at the keys of those groups, so it keeps out a host called `hosts`, or
    named like another key, and no other.
   */
  lemma ReflectorsAreEtcdHosts(config: Config, all: Dict<Vars>, env: Settings, s: Stages, h: string)
    requires HasRoles(config) && config.children.Valid() && Assignment(config, all, env) == Some(s)
    requires |all.items| >= env.scale
    ensures h in s.final.In(CALICO) <==>
              || (h in config.In(CALICO) && Stays(h, all.Keys()))
              || (&& h in EtcdHosts(all.Keys()) && h != "hosts"
                  && h !in config.children.Get(CONTROL).otherKeys && h !in config.children.Get(NODE).otherKeys)
  {
    hide Kept, Merge, EtcdHosts, Assignment, Prepared, Protected, Config.In;
    hide ETCD, CONTROL, NODE, CLUSTER, CALICO;
    RolesDiffer();
    AssignedRoles(config, all, env, CALICO, s);
    KeysKept(config, all, env, s, CONTROL);
    KeysKept(config, all, env, s, NODE);
  }

  /**
    So a route reflector is a control plane host too exactly when it was listed there
    before the run, which is what the test was meant to keep out.
   */
  lemma ReflectorConflicts(config: Config, all: Dict<Vars>, env: Settings, s: Stages, h: string)
    requires HasRoles(config) && config.children.Valid() && Assignment(config, all, env) == Some(s)
    requires all.Valid() && |all.items| >= env.scale && h in EtcdHosts(all.Keys()) && h != "hosts"
    requires h !in config.children.Get(CONTROL).otherKeys && h !in config.children.Get(NODE).otherKeys
    ensures h in s.final.In(CALICO)
    ensures h in s.final.In(CONTROL) <==> h in config.In(CONTROL)
  {
    hide Kept, Merge, EtcdHosts, ControlHosts, Assignment, Prepared, Protected, Config.In;
    hide ETCD, CONTROL, NODE, CLUSTER, CALICO;
    RolesDiffer();
    ReflectorsAreEtcdHosts(config, all, env, s, h);
    AssignedRoles(config, all, env, CONTROL, s);
    SlicesApart(all.Keys(), env, h);
    EtcdAreHosts(all.Keys());
  }

  lemma EtcdAreHosts(hosts: seq<string>)
    ensures forall h :: h in EtcdHosts(hosts) ==> h in hosts
  {
  }

  /** The keys of a role's group at the end are those it had. */
  lemma KeysKept(config: Config, all: Dict<Vars>, env: Settings, s: Stages, role: string)
    requires HasRoles(config) && config.children.Valid() && Assignment(config, all, env) == Some(s)
    requires role == CONTROL || role == NODE
    ensures HasRoles(s.nodes)
    ensures s.nodes.children.Get(role).otherKeys == config.children.Get(role).otherKeys
    ensures s.nodes.children.Get(role).hosts != Missing
  {
    hide Kept, Merge, Prepared, EtcdHosts, ControlHosts, Workers, Reflectors, AddAll, Config.In;
    hide ETCD, CONTROL, NODE, CLUSTER, CALICO;
    var hosts := all.Keys();
    RolesDiffer();
    PreparedIn(config, all, role);
    AddAllIn(s.prepared, ETCD, EtcdHosts(hosts), role);
    AddAllIn(s.etcd, CONTROL, ControlHosts(hosts, env), role);
    AddAllIn(s.control, NODE, s.workers, role);
  }

  // ----- whole runs --------------------------------------------------------------------------------

  /** A fresh inventory is always assigned. */
  lemma FreshIsAssigned(all: Dict<Vars>, env: Settings)
    ensures HasRoles(Ensure(None)) && Assignment(Ensure(None), all, env).Some?
  {
    hide Merge, EtcdHosts, ControlHosts, Workers, Reflectors, Ensure, AddAll, Config.In, Prepared, Assignment;
    hide ETCD, CONTROL, NODE, CLUSTER, CALICO;
    var config, hosts := Ensure(None), all.Keys();
    FreshConfig(ETCD);
    FreshConfig(CONTROL);
    FreshPrepared(all);
    var p := Prepared(config, all).value;
    FreshTables(all);
    TablesAfter(p, hosts, env, ETCD);
    TablesAfter(p, hosts, env, CONTROL);
    var e := AddAll(p, ETCD, EtcdHosts(hosts));
    AddAllKeys(e, CONTROL, ControlHosts(hosts, env));
    WorkersFound(AddAll(e, CONTROL, ControlHosts(hosts, env)), hosts, env);
    AssignmentFound(config, all, env, p);
  }

  lemma FreshTables(all: Dict<Vars>)
    requires HasRoles(Ensure(None)) && Prepared(Ensure(None), all).Some?
    ensures var p := Prepared(Ensure(None), all).value;
            && p.children.Valid()
            && p.children.Has(ETCD) && p.children.Get(ETCD).hosts.Table?
            && p.children.Has(CONTROL) && p.children.Get(CONTROL).hosts.Table?
  {
    hide Ensure, Config.In, Prepared, ETCD, CONTROL, NODE, CLUSTER, CALICO;
    RolesDiffer();
    FreshConfig(ETCD);
    FreshConfig(CONTROL);
    PreparedIn(Ensure(None), all, ETCD);
    PreparedIn(Ensure(None), all, CONTROL);
  }

  lemma AssignmentFound(config: Config, all: Dict<Vars>, env: Settings, p: Config)
    requires HasRoles(config) && Prepared(config, all) == Some(p)
    requires var e := AddAll(p, ETCD, EtcdHosts(all.Keys()));
             && HasRoles(e)
             && var c := AddAll(e, CONTROL, ControlHosts(all.Keys(), env));
                HasRoles(c) && Workers(c, all.Keys(), env).Some?
    ensures Assignment(config, all, env).Some?
  {
    hide EtcdHosts, ControlHosts, Workers, Reflectors, AddAll, Prepared, HasRoles;
  }

  lemma TablesAfter(p: Config, hosts: seq<string>, env: Settings, role: string)
    requires HasRoles(p) && p.children.Valid() && p.children.Has(role) && p.children.Get(role).hosts.Table?
    ensures var e := AddAll(p, ETCD, EtcdHosts(hosts));
            && HasRoles(e)
            && var c := AddAll(e, CONTROL, ControlHosts(hosts, env));
               c.children.Has(role) && c.children.Get(role).hosts.Table?
  {
    hide Merge, EtcdHosts, ControlHosts, AddAll, Config.In, ETCD, CONTROL, NODE, CLUSTER, CALICO;
    AddAllIn(p, ETCD, EtcdHosts(hosts), role);
    AddAllIn(AddAll(p, ETCD, EtcdHosts(hosts)), CONTROL, ControlHosts(hosts, env), role);
  }

  lemma FreshPrepared(all: Dict<Vars>)
    ensures HasRoles(Ensure(None)) && Prepared(Ensure(None), all).Some?
  {
    hide Ensure;
    FreshConfig(ETCD);
  }

  lemma {:induction false} WorkersFound(c: Config, hosts: seq<string>, env: Settings)
    requires HasRoles(c) && c.children.Get(ETCD).hosts.Table? && c.children.Get(CONTROL).hosts.Table?
    ensures Workers(c, hosts, env).Some?
  {
    hide PassedOver, ETCD, CONTROL;
    if hosts != [] {
      WorkersFound(c, hosts[..|hosts| - 1], env);
      NotPassedOver(c, hosts[|hosts| - 1], env);
    }
  }

  /**
    Every run on a loaded configuration: the `all` table holds the hosts computed, and
    every role lists hosts among them, but for names like a role's left from before.
   */
  lemma EveryRun(previous: Option<Config>, load: bool, args: seq<string>, env: Settings, role: string, h: string)
    requires previous.Some? ==> previous.value.Valid()
    requires Run(previous, load, args, env).Some?
    ensures var before := Ensure(if load then previous else None);
            var all := BuildHostnames(before.hosts, load, args, env);
            var c := Run(previous, load, args, env).value;
            && all.Some? && all.value.Valid()
            && (h in c.Names() <==> h in all.value.Keys() || (h in before.Names() && Protected(h)))
            && (h in c.In(role) ==> h in all.value.Keys() || (Protected(h) && h in before.In(role)))
  {
    hide Assignment, Protected, Ensure, BuildHostnames, Config.In;
    var config := Ensure(if load then previous else None);
    EnsuredRoles(if load then previous else None);
    EnsuredValid(if load then previous else None);
    var all := BuildHostnames(config.hosts, load, args, env).value;
    BuiltIsValid(config.hosts, load, args, env);
    var s := Assignment(config, all, env).value;
    AllTableIs(config, all, env, s, h);
    RolesListHosts(config, all, env, role, s);
  }

  lemma EnsuredValid(config: Option<Config>)
    requires config.Some? ==> config.value.Valid()
    ensures Ensure(config).Valid()
  {
  }

  /** The first run: the roles partition the hosts exactly under the conditions of `FreshPartition`. */
  lemma FirstRun(args: seq<string>, env: Settings)
    ensures var all, c := BuildHostnames(Some(Dict([])), false, args, env), Run(None, false, args, env);
            && (c.Some? <==> args != [] && all.Some?)
            && (c.Some? && all.value.items != [] ==>
                  var n, hosts := |all.value.items|, all.value.Keys();
                  Partitions(c.value, hosts)
                  == (n >= env.scale && (n >= env.massive || ControlHosts(hosts, env) == [])))
  {
    hide Assignment, Ensure, BuildHostnames, Partitions, ControlHosts;
    FreshConfig(ETCD);
    var built := BuildHostnames(Some(Dict([])), false, args, env);
    BuiltIsValid(Some(Dict([])), false, args, env);
    if args != [] && built.Some? {
      FreshIsAssigned(built.value, env);
      if built.value.items != [] {
        FreshPartition(built.value, env, Assignment(Ensure(None), built.value, env).value);
      }
    }
  }
}
