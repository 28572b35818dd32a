/** The inventory builder itself: its configuration updated in place, method by method. */
module InventoryRun {
  import opened Octets
  import opened OrderedDict
  import opened Inventory
  import opened InventoryRoles

  class KubesprayInventory {
    const env: Settings
    var hosts: Option<Dict<Vars>>
    var children: Dict<Group>

    function Configuration(): Config
      reads this
    {
      Config(hosts, children)
    }

    /** With the configuration loaded, or none; the required groups are ensured. */
    constructor (previous: Option<Config>, env: Settings)
      ensures this.env == env && Configuration() == Ensure(previous)
    {
      this.env := env;
      var c := if previous == None then Config(Some(Dict([])), Dict([])) else previous.value;
      hosts, children := c.hosts, c.children;
      new;
      ghost var all := EnsureChildren(children, ROLES[1..]);
      var i := 1;
      while i < |ROLES|
        invariant 1 <= i <= |ROLES|
        invariant hosts == c.hosts && EnsureChildren(children, ROLES[i..]) == all
      {
        assert ROLES[i..][0] == ROLES[i] && ROLES[i..][1..] == ROLES[i + 1..];
        if !children.Has(ROLES[i]) { children := children.Set(ROLES[i], Group(Table([]), {})); }
        i := i + 1;
      }
    }

    // ----- hosts -------------------------------------------------------------------------

    /** `exists_ip`; None is an exception. */
    method FindAddress(d: Dict<Vars>, ip: string) returns (there: Option<bool>)
      ensures there == ExistsIp(d, ip, 0)
    {
      var i := 0;
      while i < |d.items|
        invariant 0 <= i <= |d.items| && ExistsIp(d, ip, 0) == ExistsIp(d, ip, i)
      {
        if "ip" !in d.items[i].1 { return None; }
        if d.items[i].1["ip"] == ip { return Some(true); }
        i := i + 1;
      }
      there := Some(false);
    }

    /** `delete_host_by_ip` */
    method DeleteAddress(d: Dict<Vars>, ip: string) returns (r: Dict<Vars>)
      requires ExistsIp(d, ip, 0) == Some(true)
      ensures r == DeleteByIp(d, ip)
    {
      var i := 0;
      while i < |d.items|
        invariant 0 <= i <= |d.items| && FindIp(d, ip, 0) == FindIp(d, ip, i)
        invariant ExistsIp(d, ip, i) == Some(true)
      {
        if d.items[i].1["ip"] == ip { return d.Remove(d.items[i].0); }
        i := i + 1;
      }
      assert false;
      r := d;
    }

    /** The ids of the hosts loaded; None is the exit on a host without one. */
    method HighestLoadedId(d: Dict<Vars>) returns (id: Option<nat>)
      ensures id == HighestId(d, env.prefix, 0, 0)
    {
      hide HostId;
      var highest, i := 0, 0;
      while i < |d.items|
        invariant 0 <= i <= |d.items| && highest >= 0
        invariant HighestId(d, env.prefix, 0, 0) == HighestId(d, env.prefix, i, highest)
      {
        if env.prefix <= d.items[i].0 {
          var hostId := HostId(d.items[i].0);
          if hostId == None { return None; }
          if hostId.value > highest { highest := hostId.value; }
        }
        i := i + 1;
      }
      id := Some(highest);
    }

    /** `build_hostnames`; None is an exception or an exit. */
    method ComputeHosts(args: seq<string>, load: bool) returns (r: Option<Dict<Vars>>)
      ensures r == BuildHostnames(hosts, load, args, env)
    {
      hide Apply, HighestId;
      var all, nextId := Dict([]), 1;
      if load {
        if hosts == None { return None; }
        all := hosts.value;
        var highest := HighestLoadedId(all);
        if highest == None { return None; }
        nextId := highest.value + 1;
      }
      var b := Build(all, nextId, Locals(None, None, None));
      var i := 0;
      assert args[0..] == args;
      while i < |args|
        invariant 0 <= i <= |args|
        invariant BuildHostnames(hosts, load, args, env)
               == match ApplyAll(b, args[i..], env) case None => None case Some(e) => Some(e.hosts)
      {
        assert args[i..][0] == args[i] && args[i..][1..] == args[i + 1..];
        var c := ApplyArgument(b, args[i]);
        if c == None { return None; }
        b := c.value;
        i := i + 1;
      }
      r := Some(b.hosts);
    }

    /** One turn of the loop over the arguments. */
    method ApplyArgument(b: Build, arg: string) returns (c: Option<Build>)
      ensures c == Apply(b, arg, env)
    {
      hide Split, ExistsIp, GeneratedVars, NamedVars, Dec, DeleteByIp;
      if arg == "" { return None; }
      if arg[0] == '-' {
        var target := arg[1..];
        if b.hosts.Has(target) { return Some(b.(hosts := b.hosts.Remove(target))); }
        var there := FindAddress(b.hosts, target);
        if there == None { return None; }
        if !there.value { return Some(b); }
        var d := DeleteAddress(b.hosts, target);
        return Some(b.(hosts := d));
      } else if IsDigit(arg[0]) {
        var ip, accessIp := arg, arg;
        if ',' in arg {
          var parts := Split(arg, ',');
          if |parts| != 2 { return None; }
          ip, accessIp := parts[0], parts[1];
        }
        var next := b.(locals := b.locals.(ip := Some(ip), accessIp := Some(accessIp)));
        if b.hosts.Has(arg) { return Some(next); }
        var there := FindAddress(b.hosts, ip);
        if there == None { return None; }
        if there.value { return Some(next); }
        var name := env.prefix + Dec(b.nextId);
        return Some(next.(hosts := b.hosts.Set(name, GeneratedVars(env, ip, accessIp)), nextId := b.nextId + 1));
      } else if IsAlpha(arg[0]) {
        var locals := b.locals;
        if ',' in arg {
          var parts := Split(arg, ',');
          if |parts| == 3 {
            locals := Locals(Some(parts[0]), Some(parts[1]), Some(parts[2]));
          } else if |parts| == 2 {
            locals := Locals(Some(parts[0]), Some(parts[1]), Some(parts[1]));
          } else {
            return None;
          }
        }
        var next := b.(locals := locals);
        if b.hosts.Has(arg) { return Some(next); }
        if locals.ip == None { return None; }
        var there := FindAddress(b.hosts, locals.ip.value);
        if there == None { return None; }
        if there.value { return Some(next); }
        if locals.accessIp == None || locals.hostname == None { return None; }
        var vars := NamedVars(locals.ip.value, locals.accessIp.value);
        return Some(next.(hosts := b.hosts.Set(locals.hostname.value, vars)));
      }
      c := Some(b);
    }

    // ----- purging -----------------------------------------------------------------------

    /** `purge_invalid_hosts`; false is an exception. */
    method PurgeInvalidHosts(names: seq<string>) returns (ok: bool)
      modifies this`hosts, this`children
      ensures match Purge(old(Configuration()), names)
              case None => !ok
              case Some(c) => ok && Configuration() == c
    {
      hide Kept;
      ghost var before := children;
      var i := 0;
      while i < |children.items|
        invariant 0 <= i <= |children.items| == |before.items|
        invariant children.items[..i] == PurgedChildren(before, names).items[..i]
        invariant children.items[i..] == before.items[i..]
        invariant forall k :: 0 <= k < i && before.items[k].0 != CLUSTER ==> before.items[k].1.hosts != Missing
        invariant hosts == old(hosts)
      {
        var (role, g) := children.items[i];
        assert children.items[i] == before.items[i];
        if role != CLUSTER {
          if g.hosts == Missing { return false; }
          if g.hosts.Table? {
            var kept := PurgeNames(g.hosts.names, names);
            children := Dict(children.items[i := (role, g.(hosts := Table(kept)))]);
          }
        }
        i := i + 1;
      }
      assert children.items == children.items[..i];
      assert PurgedChildren(before, names).items[..i] == PurgedChildren(before, names).items;
      if hosts.Some? {
        var kept := PurgeEntries(hosts.value.items, names);
        hosts := Some(Dict(kept));
      }
      ok := true;
    }

    method PurgeNames(table: seq<string>, names: seq<string>) returns (kept: seq<string>)
      ensures kept == Kept(table, names)
    {
      kept := [];
      var i := 0;
      assert table[0..] == table && [] + Kept(table, names) == Kept(table, names);
      while i < |table|
        invariant 0 <= i <= |table| && Kept(table, names) == kept + Kept(table[i..], names)
      {
        assert table[i..][0] == table[i] && table[i..][1..] == table[i + 1..];
        if Stays(table[i], names) { kept := kept + [table[i]]; }
        i := i + 1;
      }
    }

    method PurgeEntries(table: seq<(string, Vars)>, names: seq<string>) returns (kept: seq<(string, Vars)>)
      ensures kept == PurgedTable(table, names)
    {
      kept := [];
      var i := 0;
      assert table[0..] == table && [] + PurgedTable(table, names) == PurgedTable(table, names);
      while i < |table|
        invariant 0 <= i <= |table| && PurgedTable(table, names) == kept + PurgedTable(table[i..], names)
      {
        assert table[i..][0] == table[i] && table[i..][1..] == table[i + 1..];
        if Stays(table[i].0, names) { kept := kept + [table[i]]; }
        i := i + 1;
      }
    }

    // ----- assigning ---------------------------------------------------------------------

    /** `add_host_to_group`, for a role. */
    method AddHostToGroup(role: string, host: string)
      requires children.Valid() && children.Has(role)
      modifies this`children
      ensures Configuration() == AddAll(old(Configuration()), role, [host])
      ensures children.Valid() && children.Has(role)
    {
      AddAllIn(Configuration(), role, [host], role);
      MergeOne(Listed(children.Get(role)), host);
      var g := children.Get(role);
      if g.hosts.Table? {
        var names := g.hosts.names;
        children := children.Set(role, g.(hosts := Table(if host in names then names else names + [host])));
      } else {
        assert Listed(g) == [] && [] + [host] == [host];
        children := children.Set(role, g.(hosts := Table([host])));
      }
    }

    /** The loops of `set_etcd` and `set_kube_control_plane`. */
    method AddHosts(role: string, list: seq<string>)
      requires children.Valid() && children.Has(role)
      modifies this`children
      ensures Configuration() == AddAll(old(Configuration()), role, list)
      ensures children.Valid()
    {
      hide AddAll;
      AddNone(Configuration(), role);
      var i := 0;
      while i < |list|
        invariant 0 <= i <= |list| && children.Valid() && children.Has(role)
        invariant Configuration() == AddAll(old(Configuration()), role, list[..i])
      {
        AddStep(old(Configuration()), role, list[..i], list[i]);
        AddHostToGroup(role, list[i]);
        assert list[..i + 1] == list[..i] + [list[i]];
        i := i + 1;
      }
      assert list[..|list|] == list;
    }

    /** `set_all` */
    method SetAllHosts(all: Dict<Vars>)
      modifies this`hosts
      ensures hosts == AllTable(old(hosts), all)
    {
      hide SetAll;
      var i := 0;
      ghost var table := if hosts == None then Dict([]) else hosts.value;
      SetAllStep(table, all.items, 0);
      while i < |all.items|
        invariant 0 <= i <= |all.items|
        invariant hosts == if i == 0 then old(hosts) else Some(SetAll(table, all.items[..i]))
      {
        SetAllStep(table, all.items, i);
        if hosts == None { hosts := Some(Dict([])); }
        hosts := Some(hosts.value.Set(all.items[i].0, all.items[i].1));
        i := i + 1;
      }
      assert all.items[..|all.items|] == all.items;
    }

    /** `set_kube_node`; false is an exception. */
    method SetKubeNode(list: seq<string>) returns (ok: bool)
      requires children.Valid() && HasRoles(Configuration())
      modifies this`children
      ensures match Workers(old(Configuration()), list, env)
              case None => !ok
              case Some(w) => ok && Configuration() == AddAll(old(Configuration()), NODE, w) && children.Valid()
    {
      hide AddAll, PassedOver, ETCD, CONTROL, NODE, CLUSTER, CALICO;
      RolesDiffer();
      ghost var start, w: seq<string> := Configuration(), [];
      AddNone(start, NODE);
      WorkersPrefix(start, list, env, 0);
      var i := 0;
      while i < |list|
        invariant 0 <= i <= |list| && children.Valid() && HasRoles(start)
        invariant Configuration() == AddAll(start, NODE, w)
        invariant Workers(start, list[..i], env) == Some(w)
      {
        NodesAside(start, w, list[i], env);
        WorkersPrefix(start, list, env, i);
        var out := PassedOver(Configuration(), list[i], env);
        if out == None { return false; }
        if !out.value {
          AddStep(start, NODE, w, list[i]);
          AddHostToGroup(NODE, list[i]);
          w := w + [list[i]];
        }
        i := i + 1;
      }
      assert list[..|list|] == list;
      ok := true;
    }

    /** `set_calico_rr` */
    method SetCalicoRr(list: seq<string>)
      requires children.Valid() && HasRoles(Configuration())
      modifies this`children
      ensures Configuration() == AddAll(old(Configuration()), CALICO, Reflectors(old(Configuration()), list))
      ensures children.Valid()
    {
      hide AddAll, KeyOf, Reflectors, Config.In, ETCD, CONTROL, NODE, CLUSTER, CALICO;
      ghost var start, r: seq<string> := Configuration(), [];
      AddNone(start, CALICO);
      ReflectorsStep(start, list, 0);
      var i := 0;
      while i < |list|
        invariant 0 <= i <= |list| && children.Valid() && HasRoles(start)
        invariant Configuration() == AddAll(start, CALICO, r)
        invariant r == Reflectors(start, list[..i])
      {
        var h := list[i];
        ReflectorsStep(start, list, i);
        ReflectorsAside(start, r);
        if !KeyOf(children.Get(CONTROL), h) && !KeyOf(children.Get(NODE), h) {
          AddStep(start, CALICO, r, h);
          AddHostToGroup(CALICO, h);
          r := r + [h];
        }
        i := i + 1;
      }
      assert list[..|list|] == list;
    }

    /** The hosts purged, the `all` table set and the cluster group renewed; false is an exception. */
    method Prepare(all: Dict<Vars>) returns (ok: bool)
      requires Configuration().Valid() && HasRoles(Configuration())
      modifies this`hosts, this`children
      ensures match Prepared(old(Configuration()), all)
              case None => !ok
              case Some(c) => ok && Configuration() == c && children.Valid() && HasRoles(c)
    {
      hide AllTable, Purge, Prepared, Config.In, ETCD, CONTROL, NODE, CLUSTER, CALICO;
      PreparedIs(Configuration(), all);
      if Prepared(Configuration(), all).Some? { PreparedIn(Configuration(), all, ETCD); }
      ok := PurgeInvalidHosts(all.Keys());
      if !ok { return false; }
      SetAllHosts(all);
      children := children.Set(CLUSTER, Group(Missing, {"children"}));
    }

    /** The roles in turn; false is an exception. */
    method AssignRoles(names: seq<string>) returns (ok: bool, ghost control: Config, ghost nodes: Config)
      requires children.Valid() && HasRoles(Configuration())
      modifies this`children
      ensures HasRoles(control) && HasRoles(nodes)
      ensures var etcd := AddAll(old(Configuration()), ETCD, EtcdHosts(names));
              && HasRoles(etcd) && control == AddAll(etcd, CONTROL, ControlHosts(names, env))
      ensures match Workers(control, names, env)
              case None => !ok
              case Some(w) =>
                && ok && nodes == AddAll(control, NODE, w)
                && Configuration() == if |names| >= env.scale
                                      then AddAll(nodes, CALICO, Reflectors(nodes, EtcdHosts(names))) else nodes
    {
      hide EtcdHosts, ControlHosts, AddAll, Workers, Reflectors, Config.In;
      hide ETCD, CONTROL, NODE, CLUSTER, CALICO;
      AddAllKeys(Configuration(), ETCD, EtcdHosts(names));
      AddHosts(ETCD, EtcdHosts(names));
      AddAllKeys(Configuration(), CONTROL, ControlHosts(names, env));
      AddHosts(CONTROL, ControlHosts(names, env));
      control, nodes := Configuration(), Configuration();
      ok := SetKubeNode(names);
      if !ok { return; }
      AddAllKeys(control, NODE, Workers(control, names, env).value);
      nodes := Configuration();
      if |names| >= env.scale { SetCalicoRr(EtcdHosts(names)); }
    }

    /** The constructor's sequence, from the required groups on; false is an exception or an exit. */
    method Run(args: seq<string>, load: bool) returns (ok: bool)
      requires Configuration().Valid() && HasRoles(Configuration())
      modifies this`hosts, this`children
      ensures args == [] ==> !ok && Configuration() == old(Configuration())
      ensures args != [] ==>
                match BuildHostnames(old(hosts), load, args, env)
                case None => !ok
                case Some(all) =>
                  match Assignment(old(Configuration()), all, env)
                  case None => !ok
                  case Some(s) => ok && Configuration() == s.final
    {
      hide EtcdHosts, ControlHosts, AddAll, Workers, Reflectors, Prepared, BuildHostnames;
      hide ETCD, CONTROL, NODE, CLUSTER, CALICO;
      if |args| == 0 { return false; }
      var all := ComputeHosts(args, load);
      if all == None { return false; }
      ok := Prepare(all.value);
      if !ok { return false; }
      ghost var control, nodes;
      ok, control, nodes := AssignRoles(all.value.Keys());
    }
  }

  lemma SetAllStep(table: Dict<Vars>, items: seq<(string, Vars)>, i: nat)
    requires i <= |items|
    ensures SetAll(table, items[..0]) == table
    ensures i < |items| ==> SetAll(table, items[..i + 1]) == SetAll(table, items[..i]).Set(items[i].0, items[i].1)
  {
    if i < |items| { assert items[..i + 1][..i] == items[..i]; }
  }

  lemma MergeOne(names: seq<string>, host: string)
    ensures Merge(names, [host]) == if host in names then names else names + [host]
  {
    assert [host][..0] == [];
    MergeNothing(names);
  }

  lemma AddNone(c: Config, role: string)
    requires c.children.Has(role)
    ensures AddAll(c, role, []) == c
  {
  }

  /** Adding one host more. */
  lemma AddStep(c: Config, role: string, hosts: seq<string>, h: string)
    requires c.children.Valid() && c.children.Has(role)
    ensures AddAll(c, role, hosts).children.Has(role)
    ensures AddAll(AddAll(c, role, hosts), role, [h]) == AddAll(c, role, hosts + [h])
  {
    hide Merge;
    var g, m := c.children.Get(role), Merge(Listed(c.children.Get(role)), hosts);
    AddAllKeys(c, role, hosts);
    MergeMore(Listed(g), hosts, h);
    MergeNothing(Listed(g));
    if hosts != [] {
      c.children.SetGets(role, g.(hosts := Table(m)));
      c.children.SetTwice(role, g.(hosts := Table(m)), g.(hosts := Table(Merge(m, [h]))));
    } else {
      assert hosts + [h] == [h];
    }
  }

  lemma MergeMore(names: seq<string>, hosts: seq<string>, h: string)
    ensures Merge(Merge(names, hosts), [h]) == Merge(names, hosts + [h])
  {
    assert (hosts + [h])[..|hosts|] == hosts;
    MergeOne(Merge(names, hosts), h);
  }

  /** Adding route reflectors does not change the groups they are checked against. */
  lemma ReflectorsAside(start: Config, r: seq<string>)
    requires start.children.Valid() && HasRoles(start)
    ensures var c := AddAll(start, CALICO, r);
            && HasRoles(c)
            && c.children.Get(CONTROL) == start.children.Get(CONTROL)
            && c.children.Get(NODE) == start.children.Get(NODE)
  {
    hide AddAll, Config.In, ETCD, CONTROL, NODE, CLUSTER, CALICO;
    RolesDiffer();
    AddAllIn(start, CALICO, r, CONTROL);
    AddAllIn(start, CALICO, r, NODE);
  }

  lemma ReflectorsStep(c: Config, list: seq<string>, i: nat)
    requires HasRoles(c) && i <= |list|
    ensures Reflectors(c, list[..0]) == []
    ensures i < |list| ==>
              Reflectors(c, list[..i + 1])
              == if KeyOf(c.children.Get(CONTROL), list[i]) || KeyOf(c.children.Get(NODE), list[i])
                 then Reflectors(c, list[..i]) else Reflectors(c, list[..i]) + [list[i]]
  {
    hide KeyOf, CONTROL, NODE;
    if i < |list| { assert list[..i + 1][..i] == list[..i]; }
  }

  lemma PreparedIs(start: Config, all: Dict<Vars>)
    requires HasRoles(start)
    ensures Prepared(start, all)
         == var c := Purge(start, all.Keys());
            if c == None then None
            else
              var children := c.value.children.Set(CLUSTER, Group(Missing, {"children"}));
              Some(Config(AllTable(c.value.hosts, all), children))
  {
    hide AllTable, Purge;
  }

  /** Adding nodes does not change which hosts are passed over. */
  lemma NodesAside(start: Config, w: seq<string>, h: string, env: Settings)
    requires start.children.Valid() && HasRoles(start)
    ensures var c := AddAll(start, NODE, w);
            HasRoles(c) && PassedOver(c, h, env) == PassedOver(start, h, env)
  {
    hide AddAll, ETCD, CONTROL, NODE, CLUSTER, CALICO;
    RolesDiffer();
    AddAllIn(start, NODE, w, ETCD);
    AddAllIn(start, NODE, w, CONTROL);
  }

  /** The workers among the first hosts; an exception among them is an exception for all. */
  lemma WorkersPrefix(c: Config, list: seq<string>, env: Settings, i: nat)
    requires HasRoles(c) && i <= |list|
    ensures Workers(c, list[..0], env) == Some([])
    ensures i < |list| ==>
              var before, out := Workers(c, list[..i], env), PassedOver(c, list[i], env);
              Workers(c, list[..i + 1], env)
              == if before == None || out == None then None
                 else if out.value then before
                 else Some(before.value + [list[i]])
    ensures i < |list| && Workers(c, list[..i + 1], env) == None ==> Workers(c, list, env) == None
  {
    hide PassedOver;
    if i < |list| {
      assert list[..i + 1][..i] == list[..i];
      if Workers(c, list[..i + 1], env) == None { WorkersFail(c, list, env, i + 1); }
    }
  }

  lemma {:induction false} WorkersFail(c: Config, list: seq<string>, env: Settings, i: nat)
    requires HasRoles(c) && i <= |list| && Workers(c, list[..i], env) == None
    ensures Workers(c, list, env) == None
    decreases |list| - i
  {
    hide PassedOver;
    if i < |list| {
      assert list[..i + 1][..i] == list[..i];
      WorkersFail(c, list, env, i + 1);
    } else {
      assert list[..i] == list;
    }
  }
}
