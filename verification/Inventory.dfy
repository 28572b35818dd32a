/**
  The host table of the Kubespray inventory builder: hosts loaded from the previous
  file, then added and deleted argument by argument.
 */
module Inventory {
  import opened Octets
  import opened OrderedDict

  /** A host's variables. */
  type Vars = map<string, string>

  /** What the builder takes from its environment. */
  datatype Settings = Settings(prefix: string, user: string, password: string, sshKey: Option<string>,
                               scale: int, massive: int, controlHosts: int)

  // ----- text --------------------------------------------------------------------------

  predicate IsDigit(c: char) {
    '0' <= c <= '9'
  }

  predicate IsAlpha(c: char) {
    'a' <= c <= 'z' || 'A' <= c <= 'Z'
  }

  /** The position of the first c, or the length. */
  function Until(s: string, c: char): (n: nat)
    ensures n <= |s| && (n < |s| ==> s[n] == c)
    ensures c in s ==> n < |s|
  {
    if s == [] || s[0] == c then 0 else 1 + Until(s[1..], c)
  }

  /** `s.split(c)` */
  function Split(s: string, c: char): (parts: seq<string>)
    ensures |parts| >= 1 && (c in s ==> |parts| >= 2)
    decreases |s|
  {
    var n := Until(s, c);
    if n == |s| then [s] else [s[..n]] + Split(s[n + 1..], c)
  }

  function Dec(n: nat): (s: string)
    ensures s != [] && forall i :: 0 <= i < |s| ==> IsDigit(s[i])
  {
    var last := ('0' as int + n % 10) as char;
    if n < 10 then [last] else Dec(n / 10) + [last]
  }

  /** `int(s)` of a digit string. */
  function Value(s: string): nat
    requires forall i :: 0 <= i < |s| ==> IsDigit(s[i])
  {
    if s == [] then 0
    else
      assert IsDigit(s[|s| - 1]);
      var digit: nat := s[|s| - 1] as int - '0' as int;
      Value(s[..|s| - 1]) * 10 + digit
  }

  /** How many digits s ends in. */
  function TrailingDigits(s: string): (n: nat)
    ensures n <= |s| && forall i :: |s| - n <= i < |s| ==> IsDigit(s[i])
    ensures n < |s| ==> !IsDigit(s[|s| - n - 1])
  {
    if s == [] || !IsDigit(s[|s| - 1]) then 0 else 1 + TrailingDigits(s[..|s| - 1])
  }

  /** The name up to its first dot. */
  function Short(host: string): string {
    host[..Until(host, '.')]
  }

  /** The number a name ends in. */
  function NumberOf(name: string): Option<nat> {
    var n := TrailingDigits(name);
    if n == 0 then None else Some(Value(name[|name| - n..]))
  }

  /** `get_host_id`; None is its ValueError. */
  function HostId(host: string): Option<nat> {
    NumberOf(Short(host))
  }

  lemma {:induction false} ValueOfDec(a: string, k: nat)
    requires forall i :: 0 <= i < |a| ==> IsDigit(a[i])
    ensures Value(a + Dec(k)) >= k
    ensures a == [] ==> Value(a + Dec(k)) == k
  {
    var s := a + Dec(k);
    if k < 10 {
      assert s[..|s| - 1] == a;
    } else {
      ValueOfDec(a, k / 10);
      assert s[..|s| - 1] == a + Dec(k / 10);
    }
  }

  lemma DecInjective(j: nat, k: nat)
    requires Dec(j) == Dec(k)
    ensures j == k
  {
    ValueOfDec([], j);
    ValueOfDec([], k);
    assert [] + Dec(j) == Dec(j) && [] + Dec(k) == Dec(k);
  }

  lemma {:induction false} TrailingOfConcat(s: string, t: string)
    requires forall i :: 0 <= i < |t| ==> IsDigit(t[i])
    ensures TrailingDigits(s + t) == TrailingDigits(s) + |t|
  {
    if t == [] {
      assert s + t == s;
    } else {
      TrailingOfConcat(s, t[..|t| - 1]);
      assert (s + t)[..|s + t| - 1] == s + t[..|t| - 1];
    }
  }

  lemma {:induction false} UntilOfConcat(s: string, t: string, c: char)
    ensures Until(s + t, c) == if c in s then Until(s, c) else |s| + Until(t, c)
  {
    if s == [] {
      assert s + t == t;
    } else if s[0] != c {
      UntilOfConcat(s[1..], t, c);
      assert (s + t)[1..] == s[1..] + t;
      assert s == [s[0]] + s[1..];
    }
  }

  lemma ShortOfConcat(s: string, t: string)
    requires '.' !in t
    ensures Short(s + t) == if '.' in s then Short(s) else s + t
  {
    hide Until;
    UntilOfConcat(s, t, '.');
    NoneFound(t, '.');
    if '.' in s { TakeOfConcat(s, t, Until(s, '.')); }
  }

  lemma {:induction false} NoneFound(t: string, c: char)
    requires c !in t
    ensures Until(t, c) == |t|
  {
    if t != [] {
      NoneFound(t[1..], c);
    }
  }

  lemma TakeOfConcat(s: string, t: string, n: nat)
    requires n <= |s|
    ensures (s + t)[..n] == s[..n]
  {
  }

  lemma NoDots(k: nat)
    ensures '.' !in Dec(k)
  {
    forall i | 0 <= i < |Dec(k)| ensures Dec(k)[i] != '.' {
      assert IsDigit(Dec(k)[i]);
    }
  }

  /** The id read back from a generated name is at least the number it was generated from. */
  lemma GeneratedId(prefix: string, k: nat)
    requires '.' !in prefix
    ensures HostId(prefix + Dec(k)).Some? && HostId(prefix + Dec(k)).value >= k
  {
    hide Dec, Short, TrailingDigits, Value;
    NoDots(k);
    ShortOfConcat(prefix, Dec(k));
    NumberOfGenerated(prefix, k);
  }

  lemma NumberOfGenerated(prefix: string, k: nat)
    ensures NumberOf(prefix + Dec(k)).Some? && NumberOf(prefix + Dec(k)).value >= k
  {
    hide Dec, Value, TrailingDigits;
    var n := TrailingDigits(prefix);
    TrailingOfConcat(prefix, Dec(k));
    EndOfConcat(prefix, Dec(k), n);
    ValueOfDec(prefix[|prefix| - n..], k);
  }

  lemma EndOfConcat(s: string, t: string, n: nat)
    requires n <= |s|
    ensures (s + t)[|s + t| - (n + |t|)..] == s[|s| - n..] + t
  {
  }

  /** With a dot in the prefix the id comes from the prefix alone. */
  lemma DottedId(prefix: string, k: nat)
    requires '.' in prefix
    ensures HostId(prefix + Dec(k)) == NumberOf(Short(prefix))
  {
    hide Dec, Short, NumberOf;
    NoDots(k);
    ShortOfConcat(prefix, Dec(k));
  }

  // ----- addresses -----------------------------------------------------------------------

  /** `exists_ip` from entry i on; None is the ValueError of a host without an address. */
  function ExistsIp(d: Dict<Vars>, ip: string, i: nat): Option<bool>
    requires i <= |d.items|
    decreases |d.items| - i
  {
    if i == |d.items| then Some(false)
    else if "ip" !in d.items[i].1 then None
    else if d.items[i].1["ip"] == ip then Some(true)
    else ExistsIp(d, ip, i + 1)
  }

  /** The first host with an address, sought from entry i on. */
  function FindIp(d: Dict<Vars>, ip: string, i: nat): (k: Option<nat>)
    requires i <= |d.items|
    ensures k.Some? ==> i <= k.value < |d.items|
    decreases |d.items| - i
  {
    if i == |d.items| then None
    else if "ip" in d.items[i].1 && d.items[i].1["ip"] == ip then Some(i)
    else FindIp(d, ip, i + 1)
  }

  /** `delete_host_by_ip`, of an address that is there. */
  function DeleteByIp(d: Dict<Vars>, ip: string): Dict<Vars> {
    var k := FindIp(d, ip, 0);
    if k == None then d else d.Remove(d.items[k.value].0)
  }

  /** Every host has an address and no two have the same. */
  ghost predicate Addressed(d: Dict<Vars>) {
    && d.Valid()
    && (forall i :: 0 <= i < |d.items| ==> "ip" in d.items[i].1)
    && (forall i, j :: 0 <= i < j < |d.items| ==> d.items[i].1["ip"] != d.items[j].1["ip"])
  }

  lemma {:induction false} ExistsIpIs(d: Dict<Vars>, ip: string, i: nat)
    requires Addressed(d) && i <= |d.items|
    ensures ExistsIp(d, ip, i)
         == Some(exists k :: i <= k < |d.items| && d.items[k].1["ip"] == ip)
    decreases |d.items| - i
  {
    if i < |d.items| && d.items[i].1["ip"] != ip {
      ExistsIpIs(d, ip, i + 1);
    }
  }

  lemma RemoveKeeps(d: Dict<Vars>, h: string)
    requires Addressed(d)
    ensures Addressed(d.Remove(h))
  {
    match d.Find(h)
    case None =>
    case Some(at) =>
      var r := d.Remove(h);
      assert forall j :: 0 <= j < |r.items| ==> r.items[j] == d.items[if j < at then j else j + 1];
  }

  /** A host given an address that no other has. */
  lemma SetKeeps(d: Dict<Vars>, h: string, v: Vars)
    requires Addressed(d) && "ip" in v
    requires forall k :: 0 <= k < |d.items| ==> d.items[k].1["ip"] != v["ip"]
    ensures Addressed(d.Set(h, v))
  {
    d.SetKeys(h, v);
  }

  // ----- one argument ----------------------------------------------------------------------

  /** Local variables that outlive the turn of the loop that set them; None while unbound. */
  datatype Locals = Locals(hostname: Option<string>, ip: Option<string>, accessIp: Option<string>)

  datatype Build = Build(hosts: Dict<Vars>, nextId: nat, locals: Locals)

  /** The variables of a host whose name is generated. */
  function GeneratedVars(env: Settings, ip: string, accessIp: string): Vars {
    var common := map["ansible_host" := accessIp, "ansible_user" := env.user, "ip" := ip, "access_ip" := accessIp];
    if env.sshKey.Some? && env.sshKey.value != "" then common["ansible_ssh_private_key_file" := env.sshKey.value]
    else common["ansible_password" := env.password]
  }

  function NamedVars(ip: string, accessIp: string): Vars {
    map["ansible_host" := accessIp, "ip" := ip, "access_ip" := accessIp]
  }

  /** `-name` or `-address` */
  function Delete(b: Build, target: string): Option<Build> {
    if b.hosts.Has(target) then Some(b.(hosts := b.hosts.Remove(target)))
    else
      var there :- ExistsIp(b.hosts, target, 0);
      Some(if there then b.(hosts := DeleteByIp(b.hosts, target)) else b)
  }

  /** `address[,access address]` */
  function AddAddress(b: Build, arg: string, env: Settings): Option<Build> {
    var parts := if ',' in arg then Split(arg, ',') else [arg, arg];
    if |parts| != 2 then None
    else
      var c := b.(locals := b.locals.(ip := Some(parts[0]), accessIp := Some(parts[1])));
      if b.hosts.Has(arg) then Some(c)
      else
        var there :- ExistsIp(b.hosts, parts[0], 0);
        if there then Some(c)
        else
          var name := env.prefix + Dec(b.nextId);
          Some(c.(hosts := b.hosts.Set(name, GeneratedVars(env, parts[0], parts[1])), nextId := b.nextId + 1))
  }

  /** What a name argument is read with; without a comma what an earlier argument left is used. */
  function NamedLocals(b: Build, arg: string): Option<Locals> {
    var parts := Split(arg, ',');
    if ',' !in arg then Some(b.locals)
    else if |parts| != 2 && |parts| != 3 then None
    else Some(Locals(Some(parts[0]), Some(parts[1]), Some(parts[|parts| - 1])))
  }

  /** `name,address[,access address]` */
  function AddNamed(b: Build, arg: string): Option<Build> {
    if NamedLocals(b, arg) == None then None
    else
      var locals := NamedLocals(b, arg).value;
      var c := b.(locals := locals);
      if b.hosts.Has(arg) then Some(c)
      else
        var ip :- locals.ip;
        var there :- ExistsIp(b.hosts, ip, 0);
        if there then Some(c)
        else
          var accessIp :- locals.accessIp;
          var hostname :- locals.hostname;
          Some(c.(hosts := b.hosts.Set(hostname, NamedVars(ip, accessIp))))
  }

  /** The body of the loop over the arguments; None is an exception. */
  function Apply(b: Build, arg: string, env: Settings): Option<Build> {
    if arg == "" then None
    else if arg[0] == '-' then Delete(b, arg[1..])
    else if IsDigit(arg[0]) then AddAddress(b, arg, env)
    else if IsAlpha(arg[0]) then AddNamed(b, arg)
    else Some(b)
  }

  function ApplyAll(b: Build, args: seq<string>, env: Settings): Option<Build>
    decreases |args|
  {
    if args == [] then Some(b)
    else
      var c :- Apply(b, args[0], env);
      ApplyAll(c, args[1..], env)
  }

  /** The highest id among loaded hosts that bear the prefix, from entry i on; None is the exit on a host without one. */
  function HighestId(d: Dict<Vars>, prefix: string, i: nat, highest: nat): Option<nat>
    requires i <= |d.items|
    decreases |d.items| - i
  {
    if i == |d.items| then Some(highest)
    else if prefix <= d.items[i].0 then
      var id :- HostId(d.items[i].0);
      HighestId(d, prefix, i + 1, if id > highest then id else highest)
    else HighestId(d, prefix, i + 1, highest)
  }

  /** Before the first argument; None is the exit while loading. */
  function Loaded(previous: Option<Dict<Vars>>, load: bool, env: Settings): Option<Build> {
    var unbound := Locals(None, None, None);
    if !load then Some(Build(Dict([]), 1, unbound))
    else
      var d :- previous;
      var highest :- HighestId(d, env.prefix, 0, 0);
      Some(Build(d, highest + 1, unbound))
  }

  /** `build_hostnames` */
  function BuildHostnames(previous: Option<Dict<Vars>>, load: bool, args: seq<string>, env: Settings): Option<Dict<Vars>> {
    var start :- Loaded(previous, load, env);
    var end :- ApplyAll(start, args, env);
    Some(end.hosts)
  }

  // ----- addresses stay distinct -------------------------------------------------------------

  lemma ApplyKeepsAddresses(b: Build, arg: string, env: Settings)
    requires Addressed(b.hosts)
    ensures Apply(b, arg, env).Some? ==> Addressed(Apply(b, arg, env).value.hosts)
  {
    hide Addressed, Split, GeneratedVars, NamedVars, ExistsIp, Dec;
    if arg == "" {
    } else if arg[0] == '-' {
      RemoveKeeps(b.hosts, arg[1..]);
      var k := FindIp(b.hosts, arg[1..], 0);
      if k.Some? { RemoveKeeps(b.hosts, b.hosts.items[k.value].0); }
    } else if IsDigit(arg[0]) {
      var parts := if ',' in arg then Split(arg, ',') else [arg, arg];
      if |parts| == 2 {
        NewAddress(b.hosts, env.prefix + Dec(b.nextId), GeneratedVars(env, parts[0], parts[1]), parts[0]) by {
          GeneratedHasIp(env, parts[0], parts[1]);
        }
      }
    } else if IsAlpha(arg[0]) {
      var c := AddNamed(b, arg);
      if c.Some? && c.value.hosts != b.hosts {
        var l := c.value.locals;
        NamedHasIp(l.ip.value, l.accessIp.value);
        NewAddress(b.hosts, l.hostname.value, NamedVars(l.ip.value, l.accessIp.value), l.ip.value);
      }
    }
  }

  lemma GeneratedHasIp(env: Settings, ip: string, accessIp: string)
    ensures var v := GeneratedVars(env, ip, accessIp); "ip" in v && v["ip"] == ip
  {
  }

  lemma NamedHasIp(ip: string, accessIp: string)
    ensures var v := NamedVars(ip, accessIp); "ip" in v && v["ip"] == ip
  {
  }

  lemma NewAddress(d: Dict<Vars>, h: string, v: Vars, ip: string)
    requires Addressed(d) && "ip" in v && v["ip"] == ip
    ensures ExistsIp(d, ip, 0) == Some(false) ==> Addressed(d.Set(h, v))
  {
    ExistsIpIs(d, ip, 0);
    if ExistsIp(d, ip, 0) == Some(false) { SetKeeps(d, h, v); }
  }

  lemma {:induction false} ApplyAllKeepsAddresses(b: Build, args: seq<string>, env: Settings)
    requires Addressed(b.hosts)
    ensures ApplyAll(b, args, env).Some? ==> Addressed(ApplyAll(b, args, env).value.hosts)
    decreases |args|
  {
    hide Apply, Addressed;
    if args != [] {
      ApplyKeepsAddresses(b, args[0], env);
      if Apply(b, args[0], env).Some? {
        ApplyAllKeepsAddresses(Apply(b, args[0], env).value, args[1..], env);
      }
    }
  }

  /** Whatever arguments are given, of any kind and in any order: distinct addresses stay distinct. */
  lemma AddressesStayDistinct(previous: Option<Dict<Vars>>, load: bool, args: seq<string>, env: Settings)
    requires load && previous.Some? ==> Addressed(previous.value)
    ensures BuildHostnames(previous, load, args, env).Some? ==> Addressed(BuildHostnames(previous, load, args, env).value)
  {
    hide Addressed, ApplyAll;
    NoHosts();
    if Loaded(previous, load, env).Some? {
      ApplyAllKeepsAddresses(Loaded(previous, load, env).value, args, env);
    }
  }

  lemma NoHosts()
    ensures Addressed(Dict([]))
  {
  }

  // ----- nothing is overwritten ----------------------------------------------------------------

  /** No host bears a name yet to be generated. */
  ghost predicate Unused(d: Dict<Vars>, prefix: string, nextId: nat) {
    forall k: nat :: k >= nextId ==> !d.Has(prefix + Dec(k))
  }

  /** Prefixes that leave the ids of generated names readable, or let no such host be loaded at all. */
  predicate SafePrefix(prefix: string) {
    '.' in prefix ==> NumberOf(Short(prefix)) == None
  }

  predicate OnlyAddresses(args: seq<string>) {
    forall i :: 0 <= i < |args| ==> args[i] != "" && IsDigit(args[i][0])
  }

  lemma {:induction false} HighestIdBounds(d: Dict<Vars>, prefix: string, i: nat, highest: nat)
    requires i <= |d.items|
    ensures HighestId(d, prefix, i, highest).Some? ==>
              && HighestId(d, prefix, i, highest).value >= highest
              && forall k :: i <= k < |d.items| && prefix <= d.items[k].0 ==>
                   && HostId(d.items[k].0).Some?
                   && HostId(d.items[k].0).value <= HighestId(d, prefix, i, highest).value
    decreases |d.items| - i
  {
    hide HostId;
    if i < |d.items| {
      var id := HostId(d.items[i].0);
      if prefix <= d.items[i].0 {
        if id.Some? { HighestIdBounds(d, prefix, i + 1, if id.value > highest then id.value else highest); }
      } else {
        HighestIdBounds(d, prefix, i + 1, highest);
      }
    }
  }

  lemma LoadedUnused(d: Dict<Vars>, env: Settings)
    requires SafePrefix(env.prefix) && Loaded(Some(d), true, env).Some?
    ensures Unused(d, env.prefix, Loaded(Some(d), true, env).value.nextId)
  {
    hide HostId;
    HighestIdBounds(d, env.prefix, 0, 0);
    var next := Loaded(Some(d), true, env).value.nextId;
    forall k: nat | k >= next ensures !d.Has(env.prefix + Dec(k)) {
      var h := env.prefix + Dec(k);
      if d.Has(h) {
        var i := d.Find(h).value;
        assert env.prefix <= d.items[i].0;
        if '.' in env.prefix { DottedId(env.prefix, k); } else { GeneratedId(env.prefix, k); }
      }
    }
  }

  // ----- when nothing is replaced ----------------------------------------------------------------

  /** The host that a name argument stores, if it stores one. */
  function StoredName(b: Build, arg: string): Option<string> {
    var l := NamedLocals(b, arg);
    if arg == "" || !IsAlpha(arg[0]) || l == None || l.value.ip == None then None
    else if b.hosts.Has(arg) || ExistsIp(b.hosts, l.value.ip.value, 0) != Some(false) then None
    else l.value.hostname
  }

  /** Along the whole run every host there stays as it is and in its place. */
  predicate NothingReplaced(b: Build, args: seq<string>, env: Settings)
    requires ApplyAll(b, args, env).Some?
    decreases |args|
  {
    args == [] ||
      var c := Apply(b, args[0], env).value;
      b.hosts.items <= c.hosts.items && NothingReplaced(c, args[1..], env)
  }

  predicate NoDeletions(args: seq<string>) {
    forall i :: 0 <= i < |args| ==> args[i] != "" ==> args[i][0] != '-'
  }

  /** The name is not generated for a number from `from` up to `to`. */
  ghost predicate NotGenerated(h: string, prefix: string, from: nat, to: nat) {
    forall k: nat :: from <= k < to ==> h != prefix + Dec(k)
  }

  /** Every name stored is new at that point, and none is a name generated from then on, up to the number `last`. */
  ghost predicate NamesClear(b: Build, args: seq<string>, env: Settings, last: nat)
    requires ApplyAll(b, args, env).Some?
    decreases |args|
  {
    args == [] ||
      var name := StoredName(b, args[0]);
      && (name.Some? ==> !b.hosts.Has(name.value) && NotGenerated(name.value, env.prefix, b.nextId, last))
      && NamesClear(Apply(b, args[0], env).value, args[1..], env, last)
  }

  /** No host has a name generated for a number from `from` up to `last`. */
  ghost predicate FreshAhead(d: Dict<Vars>, prefix: string, from: nat, last: nat) {
    forall k: nat :: from <= k < last ==> !d.Has(prefix + Dec(k))
  }

  lemma {:induction false} NoneHasIp(d: Dict<Vars>, ip: string, i: nat)
    requires i <= |d.items| && ExistsIp(d, ip, i) == Some(false)
    ensures forall k :: i <= k < |d.items| ==> "ip" in d.items[k].1 && d.items[k].1["ip"] != ip
    decreases |d.items| - i
  {
    if i < |d.items| { NoneHasIp(d, ip, i + 1); }
  }

  /** A host stored with an address no other has replaces one exactly when its name is there. */
  lemma StoreReplaces(d: Dict<Vars>, h: string, v: Vars, ip: string)
    requires ExistsIp(d, ip, 0) == Some(false) && "ip" in v && v["ip"] == ip
    ensures d.items <= d.Set(h, v).items <==> !d.Has(h)
    ensures forall k :: d.Set(h, v).Has(k) <==> d.Has(k) || k == h
  {
    NoneHasIp(d, ip, 0);
    d.SetKeys(h, v);
    if d.Has(h) {
      var at := d.Find(h).value;
      assert d.Set(h, v).items[at] != d.items[at];
    }
  }

  /** What an argument that deletes nothing does to the table: a name stored, a name generated, or neither. */
  lemma ApplyStores(b: Build, arg: string, env: Settings)
    requires Apply(b, arg, env).Some? && (arg != "" ==> arg[0] != '-')
    ensures var c, name, next := Apply(b, arg, env).value, StoredName(b, arg), env.prefix + Dec(b.nextId);
            if name.Some? then c.nextId == b.nextId && Stored(b.hosts, c.hosts, name.value)
            else if c.nextId == b.nextId then c.hosts == b.hosts
            else c.nextId == b.nextId + 1 && Stored(b.hosts, c.hosts, next)
  {
    hide Split, GeneratedVars, NamedVars, Dec, ExistsIp;
    var c := Apply(b, arg, env).value;
    if IsAlpha(arg[0]) {
      if StoredName(b, arg).Some? {
        var l := c.locals;
        NamedHasIp(l.ip.value, l.accessIp.value);
        StoreReplaces(b.hosts, l.hostname.value, NamedVars(l.ip.value, l.accessIp.value), l.ip.value);
      }
    } else if c.nextId != b.nextId {
      var l := c.locals;
      GeneratedHasIp(env, l.ip.value, l.accessIp.value);
      StoreReplaces(b.hosts, env.prefix + Dec(b.nextId), GeneratedVars(env, l.ip.value, l.accessIp.value), l.ip.value);
    }
  }

  /** One host stored: added when its name is new, and replacing another exactly when it is not. */
  ghost predicate Stored(d: Dict<Vars>, e: Dict<Vars>, h: string) {
    && (d.items <= e.items <==> !d.Has(h))
    && (forall k :: e.Has(k) <==> d.Has(k) || k == h)
  }

  lemma {:induction false} IdsGrow(b: Build, args: seq<string>, env: Settings)
    requires ApplyAll(b, args, env).Some?
    ensures ApplyAll(b, args, env).value.nextId >= b.nextId
    decreases |args|
  {
    hide Apply;
    if args != [] {
      NextIdGrows(b, args[0], env);
      IdsGrow(Apply(b, args[0], env).value, args[1..], env);
    }
  }

  lemma NextIdGrows(b: Build, arg: string, env: Settings)
    ensures Apply(b, arg, env).Some? ==> Apply(b, arg, env).value.nextId >= b.nextId
  {
    hide Split, GeneratedVars, NamedVars, Dec, ExistsIp, FindIp;
  }

  lemma GeneratedDiffer(prefix: string, j: nat, k: nat)
    requires prefix + Dec(j) == prefix + Dec(k)
    ensures j == k
  {
    hide Dec;
    assert (prefix + Dec(j))[|prefix|..] == Dec(j) && (prefix + Dec(k))[|prefix|..] == Dec(k);
    DecInjective(j, k);
  }

  /**
    Any run of additions, of either kind: nothing is replaced exactly when no host there
    at the start has a name generated in the run, and the names given are clear.
   */
  lemma {:induction false} ReplacedIff(b: Build, args: seq<string>, env: Settings)
    requires NoDeletions(args) && ApplyAll(b, args, env).Some?
    ensures var last := ApplyAll(b, args, env).value.nextId;
            NothingReplaced(b, args, env)
            <==> NamesClear(b, args, env, last) && FreshAhead(b.hosts, env.prefix, b.nextId, last)
    decreases |args|
  {
    hide Apply, StoredName, Dec, FreshAhead, Stored;
    if args == [] {
      NothingAhead(b.hosts, env.prefix, b.nextId);
    } else {
      var c, last := Apply(b, args[0], env).value, ApplyAll(b, args, env).value.nextId;
      ReplacedIff(c, args[1..], env);
      ApplyStores(b, args[0], env);
      IdsGrow(c, args[1..], env);
      var name := StoredName(b, args[0]);
      if name.Some? {
        NamedAhead(b.hosts, c.hosts, name.value, env.prefix, b.nextId, last);
      } else if c.nextId == b.nextId + 1 {
        GeneratedAhead(b.hosts, c.hosts, env.prefix, b.nextId, last);
      }
    }
  }

  lemma NothingAhead(d: Dict<Vars>, prefix: string, from: nat)
    ensures FreshAhead(d, prefix, from, from)
  {
  }

  lemma NamedAhead(d: Dict<Vars>, e: Dict<Vars>, h: string, prefix: string, from: nat, last: nat)
    requires Stored(d, e, h)
    ensures d.items <= e.items <==> !d.Has(h)
    ensures FreshAhead(e, prefix, from, last) <==> FreshAhead(d, prefix, from, last) && NotGenerated(h, prefix, from, last)
  {
    hide Dec;
  }

  lemma GeneratedAhead(d: Dict<Vars>, e: Dict<Vars>, prefix: string, from: nat, last: nat)
    requires Stored(d, e, prefix + Dec(from)) && from < last
    ensures d.items <= e.items && FreshAhead(e, prefix, from + 1, last) <==> FreshAhead(d, prefix, from, last)
  {
    hide Dec;
    forall k: nat | from + 1 <= k < last
      ensures e.Has(prefix + Dec(k)) <==> d.Has(prefix + Dec(k))
    {
      if prefix + Dec(k) == prefix + Dec(from) { GeneratedDiffer(prefix, k, from); }
    }
  }

  lemma {:induction false} NothingReplacedStays(b: Build, args: seq<string>, env: Settings)
    requires ApplyAll(b, args, env).Some? && NothingReplaced(b, args, env)
    ensures b.hosts.items <= ApplyAll(b, args, env).value.hosts.items
    decreases |args|
  {
    hide Apply;
    if args != [] {
      NothingReplacedStays(Apply(b, args[0], env).value, args[1..], env);
    }
  }

  /**
    From a fresh table, or a loaded one under a safe prefix: nothing loaded or added is
    replaced exactly when the names given are clear.
   */
  lemma NamedSafeIff(previous: Option<Dict<Vars>>, load: bool, args: seq<string>, env: Settings)
    requires load ==> SafePrefix(env.prefix)
    requires NoDeletions(args) && BuildHostnames(previous, load, args, env).Some?
    ensures var start := Loaded(previous, load, env).value;
            NothingReplaced(start, args, env)
            <==> NamesClear(start, args, env, ApplyAll(start, args, env).value.nextId)
  {
    hide ApplyAll, NothingReplaced, NamesClear, SafePrefix, HighestId;
    var start := Loaded(previous, load, env).value;
    if load { LoadedUnused(previous.value, env); }
    assert Unused(start.hosts, env.prefix, start.nextId);
    ReplacedIff(start, args, env);
  }

  lemma {:induction false} AddressesClear(b: Build, args: seq<string>, env: Settings, last: nat)
    requires OnlyAddresses(args) && ApplyAll(b, args, env).Some?
    ensures NamesClear(b, args, env, last)
    decreases |args|
  {
    hide Apply, NotGenerated;
    if args != [] {
      AddressesClear(Apply(b, args[0], env).value, args[1..], env, last);
    }
  }

  /** Adding by address alone, under any prefix: nothing is replaced exactly when no host there has a name generated. */
  lemma AddressesSafeIff(b: Build, args: seq<string>, env: Settings)
    requires OnlyAddresses(args) && ApplyAll(b, args, env).Some?
    ensures NothingReplaced(b, args, env)
            <==> FreshAhead(b.hosts, env.prefix, b.nextId, ApplyAll(b, args, env).value.nextId)
  {
    hide Apply, ApplyAll, NothingReplaced, NamesClear, FreshAhead;
    AddressesClear(b, args, env, ApplyAll(b, args, env).value.nextId);
    ReplacedIff(b, args, env);
  }

  /** With a safe prefix, adding by address leaves every loaded host as it is and in its place. */
  lemma NothingOverwritten(d: Dict<Vars>, args: seq<string>, env: Settings)
    requires SafePrefix(env.prefix) && OnlyAddresses(args)
    ensures BuildHostnames(Some(d), true, args, env).Some? ==>
              d.items <= BuildHostnames(Some(d), true, args, env).value.items
  {
    hide ApplyAll, SafePrefix, HighestId, NothingReplaced, NamesClear;
    if BuildHostnames(Some(d), true, args, env).Some? {
      var start := Loaded(Some(d), true, env).value;
      AddressesClear(start, args, env, ApplyAll(start, args, env).value.nextId);
      NamedSafeIff(Some(d), true, args, env);
      NothingReplacedStays(start, args, env);
    }
  }

  /** With any other prefix some loaded host is overwritten by some addition. */
  lemma OverwrittenOtherwise(env: Settings) returns (d: Dict<Vars>, arg: string)
    requires !SafePrefix(env.prefix)
    ensures Addressed(d) && OnlyAddresses([arg])
    ensures BuildHostnames(Some(d), true, [arg], env).Some?
    ensures !(d.items <= BuildHostnames(Some(d), true, [arg], env).value.items)
  {
    hide HostId, Addressed, Loaded, Apply, ApplyAll, GeneratedVars, NumberOf, Short, Dec, ExistsIp;
    var id := NumberOf(Short(env.prefix)).value;
    var host := env.prefix + Dec(id + 1);
    arg := "1::2";
    DottedId(env.prefix, id + 1);
    Prefixed(env.prefix, Dec(id + 1));
    d := OneHost(host);
    OneLoaded(d, env, id);
    var b := Build(d, id + 1, Locals(None, None, None));
    OneReplaced(b, host, arg, env);
    GeneratedHasIp(env, arg, arg);
    ApplyLast(b, arg, env);
    Replaced(host, d.items[0].1, GeneratedVars(env, arg, arg));
    assert BuildHostnames(Some(d), true, [arg], env) == Some(Apply(b, arg, env).value.hosts);
  }

  lemma Replaced(host: string, v: Vars, w: Vars)
    requires "ip" in v && "ip" in w && v["ip"] != w["ip"]
    ensures !([(host, v)] <= Dict([(host, w)]).items)
  {
    assert v != w;
    assert [(host, v)][0] != Dict([(host, w)]).items[0];
  }

  lemma Prefixed(prefix: string, s: string)
    ensures prefix <= prefix + s && ('.' in prefix ==> '.' in prefix + s)
  {
  }

  lemma OneLoaded(d: Dict<Vars>, env: Settings, id: nat)
    requires |d.items| == 1 && env.prefix <= d.items[0].0 && HostId(d.items[0].0) == Some(id)
    ensures Loaded(Some(d), true, env) == Some(Build(d, id + 1, Locals(None, None, None)))
  {
    hide HostId;
    var highest := if id > 0 then id else 0;
    assert HighestId(d, env.prefix, 0, 0) == HighestId(d, env.prefix, 1, highest);
  }

  lemma OneReplaced(b: Build, host: string, arg: string, env: Settings)
    requires |b.hosts.items| == 1 && b.hosts.items[0].0 == host == env.prefix + Dec(b.nextId)
    requires '.' in host && arg == "1::2" && ExistsIp(b.hosts, arg, 0) == Some(false)
    ensures Apply(b, arg, env).Some?
    ensures Apply(b, arg, env).value.hosts == Dict([(host, GeneratedVars(env, arg, arg))])
  {
    hide ExistsIp, GeneratedVars, Dec;
    assert b.hosts.Keys() == [host] && '.' !in arg;
    b.hosts.GetAt(0);
    assert b.hosts.Set(host, GeneratedVars(env, arg, arg)) == Dict([(host, GeneratedVars(env, arg, arg))]);
    assert Apply(b, arg, env) == AddAddress(b, arg, env);
  }

  lemma OneHost(host: string) returns (d: Dict<Vars>)
    ensures d == Dict([(host, map["ip" := "1::1"])]) && Addressed(d)
    ensures ExistsIp(d, "1::2", 0) == Some(false)
  {
    d := Dict([(host, map["ip" := "1::1"])]);
    assert ExistsIp(d, "1::2", 0) == ExistsIp(d, "1::2", 1);
  }

  lemma ApplyLast(b: Build, arg: string, env: Settings)
    ensures ApplyAll(b, [arg], env) == Apply(b, arg, env)
  {
    hide Apply;
    assert [arg][1..] == [];
    if Apply(b, arg, env).Some? {
      assert ApplyAll(Apply(b, arg, env).value, [], env) == Some(Apply(b, arg, env).value);
    }
  }

  lemma SplitTwo(x: string, y: string)
    requires ',' !in x && ',' !in y
    ensures Split(x + "," + y, ',') == [x, y] && ',' in x + "," + y
  {
    var s, rest := x + "," + y, "," + y;
    assert x + rest == s;
    UntilOfConcat(x, rest, ',');
    assert Until(rest, ',') == 0;
    assert s[..|x|] == x && s[|x| + 1..] == y && s[|x|] == ',';
    SplitOne(y);
  }

  lemma SplitOne(y: string)
    requires ',' !in y
    ensures Split(y, ',') == [y]
  {
  }

  /** For instance: a host named like the first name to be generated is replaced by it. */
  lemma NamedMayBeReplaced(env: Settings, ip: string, other: string)
    requires env.prefix != "" && IsAlpha(env.prefix[0]) && ',' !in env.prefix
    requires ',' !in ip && ip != other && other != "" && IsDigit(other[0]) && ',' !in other
    ensures var name := env.prefix + Dec(1);
            BuildHostnames(None, false, [name + "," + ip, other], env)
            == Some(Dict([(name, GeneratedVars(env, other, other))]))
  {
    hide Dec, GeneratedVars, NamedVars, Split;
    var name := env.prefix + Dec(1);
    var arg := name + "," + ip;
    var b := Build(Dict([]), 1, Locals(None, None, None));
    NoCommas(1);
    SplitTwo(name, ip);
    assert arg[0] == env.prefix[0];
    var c := Build(Dict([(name, NamedVars(ip, ip))]), 1, Locals(Some(name), Some(ip), Some(ip)));
    assert Apply(b, arg, env) == Some(c) by {
      assert b.hosts.Keys() == [];
      assert ExistsIp(b.hosts, ip, 0) == Some(false);
      assert b.hosts.Find(name) == None;
      assert b.hosts.Set(name, NamedVars(ip, ip)) == c.hosts;
      assert AddNamed(b, arg) == Some(c);
    }
    NamedHasIp(ip, ip);
    assert c.hosts.Keys() == [name] && name[0] == env.prefix[0];
    assert ExistsIp(c.hosts, other, 0) == ExistsIp(c.hosts, other, 1) == Some(false);
    c.hosts.GetAt(0);
    assert c.hosts.Set(name, GeneratedVars(env, other, other)) == Dict([(name, GeneratedVars(env, other, other))]);
    ApplyLast(c, other, env);
    assert [arg, other][1..] == [other];
    assert ApplyAll(b, [arg, other], env) == ApplyAll(c, [other], env);
  }

  lemma NoCommas(k: nat)
    ensures ',' !in Dec(k)
  {
    forall i | 0 <= i < |Dec(k)| ensures Dec(k)[i] != ',' {
      assert IsDigit(Dec(k)[i]);
    }
  }

  // ----- keys stay distinct ----------------------------------------------------------------------

  lemma {:induction false} ApplyAllKeepsKeys(b: Build, args: seq<string>, env: Settings)
    requires b.hosts.Valid()
    ensures ApplyAll(b, args, env).Some? ==> ApplyAll(b, args, env).value.hosts.Valid()
    decreases |args|
  {
    hide Apply;
    if args != [] {
      ApplyKeepsKeys(b, args[0], env);
      if Apply(b, args[0], env).Some? {
        ApplyAllKeepsKeys(Apply(b, args[0], env).value, args[1..], env);
      }
    }
  }

  lemma ApplyKeepsKeys(b: Build, arg: string, env: Settings)
    requires b.hosts.Valid()
    ensures Apply(b, arg, env).Some? ==> Apply(b, arg, env).value.hosts.Valid()
  {
    hide Split, ExistsIp, GeneratedVars, NamedVars, Dec, FindIp;
    if arg != "" {
      var k := FindIp(b.hosts, arg[1..], 0);
      assert b.hosts.Remove(arg[1..]).Valid();
      if k.Some? { assert b.hosts.Remove(b.hosts.items[k.value].0).Valid(); }
    }
  }

  lemma BuiltIsValid(previous: Option<Dict<Vars>>, load: bool, args: seq<string>, env: Settings)
    requires previous.Some? ==> previous.value.Valid()
    ensures BuildHostnames(previous, load, args, env).Some? ==> BuildHostnames(previous, load, args, env).value.Valid()
  {
    hide ApplyAll, HighestId;
    if Loaded(previous, load, env).Some? {
      ApplyAllKeepsKeys(Loaded(previous, load, env).value, args, env);
    }
  }
}
