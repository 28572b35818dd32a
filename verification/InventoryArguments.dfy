/**
  What each argument of the inventory builder does, told by the text of the argument and
  the hosts there, and what whole runs of additions and deletions come to.
 */
module InventoryArguments {
  import opened Octets
  import opened OrderedDict
  import opened Inventory

  const DIGITS: string := "0123456789"
  const LOWER: string := "abcdefghijklmnopqrstuvwxyz"
  const UPPER: string := "ABCDEFGHIJKLMNOPQRSTUVWXYZ"

  // ----- looking up an address -----------------------------------------------------------

  /** Host k is the first whose address is ip, and every host before it has an address. */
  ghost predicate FirstWith(d: Dict<Vars>, ip: string, k: nat) {
    && k < |d.items| && "ip" in d.items[k].1 && d.items[k].1["ip"] == ip
    && forall j :: 0 <= j < k ==> "ip" in d.items[j].1 && d.items[j].1["ip"] != ip
  }

  /** A host without an address comes before any with this one. */
  ghost predicate Unreadable(d: Dict<Vars>, ip: string) {
    exists k ::
      && 0 <= k < |d.items| && "ip" !in d.items[k].1
      && forall j :: 0 <= j < k ==> "ip" in d.items[j].1 && d.items[j].1["ip"] != ip
  }

  ghost predicate NoneWith(d: Dict<Vars>, ip: string) {
    forall j :: 0 <= j < |d.items| ==> "ip" in d.items[j].1 && d.items[j].1["ip"] != ip
  }

  lemma {:induction false} AddressSought(d: Dict<Vars>, ip: string, i: nat)
    requires i <= |d.items| && forall j :: 0 <= j < i ==> "ip" in d.items[j].1 && d.items[j].1["ip"] != ip
    ensures match ExistsIp(d, ip, i)
            case None => Unreadable(d, ip)
            case Some(there) =>
              if there then FindIp(d, ip, i).Some? && FirstWith(d, ip, FindIp(d, ip, i).value) else NoneWith(d, ip)
    decreases |d.items| - i
  {
    if i < |d.items| && "ip" in d.items[i].1 && d.items[i].1["ip"] != ip {
      AddressSought(d, ip, i + 1);
    }
  }

  // ----- deletions --------------------------------------------------------------------------

  /** Host k is gone; every other host is as it was, in the same order. */
  ghost predicate Dropped(d: Dict<Vars>, e: Dict<Vars>, k: nat) {
    k < |d.items| && e.items == d.items[..k] + d.items[k + 1..]
  }

  /** What `-target` leaves: the host of that name gone, else the first of that address, else all as it was. */
  ghost predicate Deleted(b: Build, target: string, c: Build) {
    && c.nextId == b.nextId && c.locals == b.locals
    && ((exists k: nat :: k < |b.hosts.items| && b.hosts.items[k].0 == target && Dropped(b.hosts, c.hosts, k))
        || (&& (forall k :: 0 <= k < |b.hosts.items| ==> b.hosts.items[k].0 != target)
            && ((exists k: nat :: FirstWith(b.hosts, target, k) && Dropped(b.hosts, c.hosts, k))
                || (NoneWith(b.hosts, target) && c.hosts == b.hosts))))
  }

  lemma HasIs(d: Dict<Vars>, h: string)
    ensures d.Has(h) <==> exists k :: 0 <= k < |d.items| && d.items[k].0 == h
  {
    if d.Has(h) { assert d.items[d.Find(h).value].0 == h; }
    if k :| 0 <= k < |d.items| && d.items[k].0 == h { assert d.Keys()[k] == h; }
  }

  lemma RemovedAt(d: Dict<Vars>, h: string, k: nat)
    requires d.Valid() && k < |d.items| && d.items[k].0 == h
    ensures Dropped(d, d.Remove(h), k)
  {
    d.GetAt(k);
  }

  lemma DeleteCases(b: Build, target: string, env: Settings)
    ensures Apply(b, "-" + target, env)
         == if b.hosts.Has(target) then Some(b.(hosts := b.hosts.Remove(target)))
            else match ExistsIp(b.hosts, target, 0)
                 case None => None
                 case Some(there) => Some(if there then b.(hosts := DeleteByIp(b.hosts, target)) else b)
  {
    hide ExistsIp, DeleteByIp;
    var arg := "-" + target;
    assert arg[0] == '-' && arg[1..] == target;
  }

  /** A deletion fails only on a host without address, and otherwise does just what it says. */
  lemma Deletes(b: Build, target: string, env: Settings)
    requires b.hosts.Valid()
    ensures match Apply(b, "-" + target, env)
            case None => (forall k :: 0 <= k < |b.hosts.items| ==> b.hosts.items[k].0 != target) && Unreadable(b.hosts, target)
            case Some(c) => Deleted(b, target, c)
  {
    hide Apply, ExistsIp, FindIp;
    DeleteCases(b, target, env);
    HasIs(b.hosts, target);
    AddressSought(b.hosts, target, 0);
    if b.hosts.Has(target) {
      RemovedAt(b.hosts, target, b.hosts.Find(target).value);
    } else if ExistsIp(b.hosts, target, 0) == Some(true) {
      var k := FindIp(b.hosts, target, 0).value;
      RemovedAt(b.hosts, b.hosts.items[k].0, k);
    }
  }

  lemma {:induction false} RunSplits(b: Build, args: seq<string>, more: seq<string>, env: Settings)
    ensures ApplyAll(b, args + more, env)
         == if ApplyAll(b, args, env) == None then None else ApplyAll(ApplyAll(b, args, env).value, more, env)
    decreases |args|
  {
    hide Apply;
    if args == [] {
      assert args + more == more;
    } else {
      assert (args + more)[1..] == args[1..] + more && (args + more)[0] == args[0];
      if Apply(b, args[0], env).Some? { RunSplits(Apply(b, args[0], env).value, args[1..], more, env); }
    }
  }

  /** A run that ends in a deletion comes to the run before it less that host. */
  lemma RunDeletes(previous: Option<Dict<Vars>>, load: bool, args: seq<string>, target: string, env: Settings)
    requires load && previous.Some? ==> Addressed(previous.value)
    ensures var before, after := BuildHostnames(previous, load, args, env),
                                 BuildHostnames(previous, load, args + ["-" + target], env);
            && (before.Some? <==> after.Some?)
            && (after.Some? ==>
                  if exists k :: 0 <= k < |before.value.items| && before.value.items[k].0 == target then
                    exists k: nat :: k < |before.value.items| && before.value.items[k].0 == target
                                     && Dropped(before.value, after.value, k)
                  else if exists k :: 0 <= k < |before.value.items| && "ip" in before.value.items[k].1
                                      && before.value.items[k].1["ip"] == target then
                    exists k: nat :: FirstWith(before.value, target, k) && Dropped(before.value, after.value, k)
                  else after == before)
  {
    hide Apply, ApplyAll, Loaded, Dropped;
    AddressesStayDistinct(previous, load, args, env);
    if Loaded(previous, load, env).Some? {
      var start := Loaded(previous, load, env).value;
      RunSplits(start, args, ["-" + target], env);
      if ApplyAll(start, args, env).Some? {
        var b := ApplyAll(start, args, env).value;
        ApplyLast(b, "-" + target, env);
        Deletes(b, target, env);
      }
    }
  }

  // ----- additions by address -------------------------------------------------------------------

  /** `address`, or `address,access address` */
  ghost predicate AddressWritten(arg: string, ip: string, accessIp: string) {
    && arg != "" && arg[0] in DIGITS && ',' !in ip && ',' !in accessIp
    && ((arg == ip && accessIp == ip) || arg == ip + "," + accessIp)
  }

  /** The variables of a host whose name was generated: these and no others. */
  ghost predicate GeneratedFor(v: Vars, env: Settings, ip: string, accessIp: string) {
    && "ip" in v && v["ip"] == ip
    && "access_ip" in v && v["access_ip"] == accessIp
    && "ansible_host" in v && v["ansible_host"] == accessIp
    && "ansible_user" in v && v["ansible_user"] == env.user
    && |v.Keys| == 5
    && if env.sshKey == None || env.sshKey == Some("") then
         "ansible_password" in v && v["ansible_password"] == env.password
       else
         "ansible_ssh_private_key_file" in v && v["ansible_ssh_private_key_file"] == env.sshKey.value
  }

  lemma GeneratedVarsAre(env: Settings, ip: string, accessIp: string)
    ensures GeneratedFor(GeneratedVars(env, ip, accessIp), env, ip, accessIp)
  {
  }

  /** The host stored: in place of one of its name, or at the end. */
  ghost predicate Put(d: Dict<Vars>, e: Dict<Vars>, h: string, v: Vars) {
    || (exists k: nat :: k < |d.items| && d.items[k].0 == h && e.items == d.items[k := (h, v)])
    || ((forall k :: 0 <= k < |d.items| ==> d.items[k].0 != h) && e.items == d.items + [(h, v)])
  }

  lemma SetPuts(d: Dict<Vars>, h: string, v: Vars)
    ensures Put(d, d.Set(h, v), h, v)
  {
    HasIs(d, h);
    if d.Has(h) { assert d.items[d.Find(h).value].0 == h; }
  }

  /** The turn of the loop was skipped: only what the argument was read with is remembered. */
  ghost predicate Skipped(b: Build, c: Build, locals: Locals) {
    c == Build(b.hosts, b.nextId, locals)
  }

  /** What an address does: nothing when it is there or is a host's name, else a host under the next number. */
  lemma AddsAddress(b: Build, arg: string, ip: string, accessIp: string, env: Settings)
    requires AddressWritten(arg, ip, accessIp)
    ensures var locals := b.locals.(ip := Some(ip), accessIp := Some(accessIp));
            match Apply(b, arg, env)
            case None => !b.hosts.Has(arg) && Unreadable(b.hosts, ip)
            case Some(c) =>
              if b.hosts.Has(arg) || exists k: nat :: FirstWith(b.hosts, ip, k) then Skipped(b, c, locals)
              else
                && NoneWith(b.hosts, ip) && c.nextId == b.nextId + 1 && c.locals == locals
                && exists v :: GeneratedFor(v, env, ip, accessIp) && Put(b.hosts, c.hosts, env.prefix + Dec(b.nextId), v)
  {
    hide ExistsIp, FindIp, Split, GeneratedVars, Dec, GeneratedFor, Put;
    KindIs(arg[0]);
    AddressSought(b.hosts, ip, 0);
    AddressParts(arg, ip, accessIp);
    GeneratedVarsAre(env, ip, accessIp);
    SetPuts(b.hosts, env.prefix + Dec(b.nextId), GeneratedVars(env, ip, accessIp));
  }

  lemma KindIs(c: char)
    ensures IsDigit(c) <==> c in DIGITS
    ensures IsAlpha(c) <==> c in LOWER || c in UPPER
  {
    DigitIs(c);
    LowerIs(c);
    UpperIs(c);
    hide DIGITS, LOWER, UPPER;
  }

  lemma DigitIs(c: char)
    ensures '0' <= c <= '9' <==> c in DIGITS
  {
    if '0' <= c <= '9' { assert DIGITS[c as int - '0' as int] == c; }
  }

  lemma LowerIs(c: char)
    ensures 'a' <= c <= 'z' <==> c in LOWER
  {
    if 'a' <= c <= 'z' { assert LOWER[c as int - 'a' as int] == c; }
  }

  lemma UpperIs(c: char)
    ensures 'A' <= c <= 'Z' <==> c in UPPER
  {
    if 'A' <= c <= 'Z' { assert UPPER[c as int - 'A' as int] == c; }
  }

  lemma AddressParts(arg: string, ip: string, accessIp: string)
    requires AddressWritten(arg, ip, accessIp)
    ensures (if ',' in arg then Split(arg, ',') else [arg, arg]) == [ip, accessIp]
  {
    hide Split;
    if arg != ip || accessIp != ip { SplitTwo(ip, accessIp); }
    if arg == ip + "," + accessIp { SplitTwo(ip, accessIp); }
  }

  // ----- additions by name ------------------------------------------------------------------------

  /** `name,address` or `name,address,access address`, starting with a letter. */
  ghost predicate NameWritten(arg: string, h: string, ip: string, accessIp: string) {
    && arg != "" && (arg[0] in LOWER || arg[0] in UPPER) && ',' !in h && ',' !in ip && ',' !in accessIp
    && ((arg == h + "," + ip && accessIp == ip) || arg == h + "," + ip + "," + accessIp)
  }

  ghost predicate NamedFor(v: Vars, ip: string, accessIp: string) {
    && "ip" in v && v["ip"] == ip
    && "access_ip" in v && v["access_ip"] == accessIp
    && "ansible_host" in v && v["ansible_host"] == accessIp
    && |v.Keys| == 3
  }

  lemma NamedVarsAre(ip: string, accessIp: string)
    ensures NamedFor(NamedVars(ip, accessIp), ip, accessIp)
  {
  }

  lemma SplitThree(x: string, y: string, z: string)
    requires ',' !in x && ',' !in y
    ensures Split(x + "," + y + "," + z, ',') == [x, y] + Split(z, ',') && ',' in x + "," + y + "," + z
  {
    hide Split;
    var s := x + "," + y + "," + z;
    SplitFirst(x, y + "," + z);
    SplitFirst(y, z);
    assert s == x + "," + (y + "," + z);
    assert s[|x|] == ',';
  }

  lemma SplitFirst(x: string, y: string)
    requires ',' !in x
    ensures Split(x + "," + y, ',') == [x] + Split(y, ',')
  {
    var s, rest := x + "," + y, "," + y;
    assert x + rest == s;
    UntilOfConcat(x, rest, ',');
    assert Until(rest, ',') == 0;
    assert s[..|x|] == x && s[|x| + 1..] == y;
  }

  lemma NameParts(arg: string, h: string, ip: string, accessIp: string)
    requires NameWritten(arg, h, ip, accessIp)
    ensures ',' in arg
    ensures Split(arg, ',') == [h, ip] + if arg == h + "," + ip then [] else [accessIp]
  {
    hide Split;
    if arg == h + "," + ip {
      SplitTwo(h, ip);
    } else {
      SplitThree(h, ip, accessIp);
      SplitOne(accessIp);
    }
  }

  /** What a name does: nothing when it or its address is there, else a host under that name. */
  lemma AddsNamed(b: Build, arg: string, h: string, ip: string, accessIp: string, env: Settings)
    requires NameWritten(arg, h, ip, accessIp)
    ensures var locals := Locals(Some(h), Some(ip), Some(accessIp));
            match Apply(b, arg, env)
            case None => !b.hosts.Has(arg) && Unreadable(b.hosts, ip)
            case Some(c) =>
              if b.hosts.Has(arg) || exists k: nat :: FirstWith(b.hosts, ip, k) then Skipped(b, c, locals)
              else
                && NoneWith(b.hosts, ip) && c.nextId == b.nextId && c.locals == locals
                && exists v :: NamedFor(v, ip, accessIp) && Put(b.hosts, c.hosts, h, v)
  {
    hide ExistsIp, FindIp, Split, NamedVars, NamedFor, Put, LOWER, UPPER, DIGITS;
    LetterIs(arg[0]);
    AddressSought(b.hosts, ip, 0);
    NameParts(arg, h, ip, accessIp);
    NamedVarsAre(ip, accessIp);
    SetPuts(b.hosts, h, NamedVars(ip, accessIp));
  }

  lemma LetterIs(c: char)
    requires c in LOWER || c in UPPER
    ensures IsAlpha(c) && !IsDigit(c) && c != '-'
  {
    KindIs(c);
  }

  // ----- arguments of other forms -----------------------------------------------------------------

  /** An address with two commas or more, a name with three or more, and no text at all end in an exception. */
  lemma Refused(b: Build, x: string, y: string, z: string, env: Settings)
    requires ',' !in x && ',' !in y && x != ""
    ensures Apply(b, "", env) == None
    ensures x[0] in DIGITS ==> Apply(b, x + "," + y + "," + z, env) == None
    ensures (x[0] in LOWER || x[0] in UPPER) && ',' in z ==> Apply(b, x + "," + y + "," + z, env) == None
  {
    hide Split, DIGITS, LOWER, UPPER;
    var arg := x + "," + y + "," + z;
    assert arg[0] == x[0];
    KindIs(x[0]);
    if x[0] in LOWER || x[0] in UPPER { LetterIs(x[0]); }
    SplitThree(x, y, z);
    if x[0] in DIGITS { assert !IsAlpha(x[0]) && x[0] != '-'; }
  }

  /** A name without a comma is read with what an earlier argument left; an exception when none did. */
  lemma AddsAgain(b: Build, arg: string, env: Settings)
    requires arg != "" && (arg[0] in LOWER || arg[0] in UPPER) && ',' !in arg
    ensures match Apply(b, arg, env)
            case None =>
              && !b.hosts.Has(arg)
              && (b.locals.ip == None || Unreadable(b.hosts, b.locals.ip.value)
                  || (NoneWith(b.hosts, b.locals.ip.value) && (b.locals.accessIp == None || b.locals.hostname == None)))
            case Some(c) =>
              if b.hosts.Has(arg) then c == b
              else
                && b.locals.ip.Some?
                && if exists k: nat :: FirstWith(b.hosts, b.locals.ip.value, k) then c == b
                   else
                     && NoneWith(b.hosts, b.locals.ip.value) && c.nextId == b.nextId && c.locals == b.locals
                     && b.locals.hostname.Some? && b.locals.accessIp.Some?
                     && exists v :: NamedFor(v, b.locals.ip.value, b.locals.accessIp.value)
                                    && Put(b.hosts, c.hosts, b.locals.hostname.value, v)
  {
    hide ExistsIp, FindIp, Split, NamedVars, NamedFor, Put, LOWER, UPPER, DIGITS;
    LetterIs(arg[0]);
    if b.locals.ip.Some? {
      var ip := b.locals.ip.value;
      AddressSought(b.hosts, ip, 0);
      if b.locals.accessIp.Some? && b.locals.hostname.Some? {
        NamedVarsAre(ip, b.locals.accessIp.value);
        SetPuts(b.hosts, b.locals.hostname.value, NamedVars(ip, b.locals.accessIp.value));
      }
    }
  }

  /** Any other argument is passed over. */
  lemma PassedBy(b: Build, arg: string, env: Settings)
    requires arg != "" && arg[0] != '-' && arg[0] !in DIGITS && arg[0] !in LOWER && arg[0] !in UPPER
    ensures Apply(b, arg, env) == Some(b)
  {
    KindIs(arg[0]);
  }

  // ----- numbers in names -----------------------------------------------------------------------

  /**
    The id of a host is the number its name ends in before the first dot: `stem` and
    `digits` make up that part, and the stem does not end in a digit.
   */
  lemma HostIdIs(stem: string, digits: string, rest: string)
    requires '.' !in stem && (stem != "" ==> stem[|stem| - 1] !in DIGITS)
    requires forall i :: 0 <= i < |digits| ==> digits[i] in DIGITS
    requires rest == "" || rest[0] == '.'
    ensures forall i :: 0 <= i < |digits| ==> IsDigit(digits[i])
    ensures HostId(stem + digits + rest) == if digits == "" then None else Some(Inventory.Value(digits))
  {
    hide DIGITS, Inventory.Value, TrailingDigits, Short;
    forall i | 0 <= i < |digits| ensures IsDigit(digits[i]) && digits[i] != '.' { KindIs(digits[i]); }
    if stem != "" { KindIs(stem[|stem| - 1]); }
    ShortIs(stem + digits, rest);
    TrailingIs(stem, digits);
  }

  lemma ShortIs(short: string, rest: string)
    requires '.' !in short && (rest == "" || rest[0] == '.')
    ensures Short(short + rest) == short
  {
    hide Until;
    UntilOfConcat(short, rest, '.');
    UntilDot(rest);
    TakeOfConcat(short, rest, |short|);
  }

  lemma TrailingIs(stem: string, digits: string)
    requires stem != "" ==> !IsDigit(stem[|stem| - 1])
    requires forall i :: 0 <= i < |digits| ==> IsDigit(digits[i])
    ensures var name := stem + digits;
            TrailingDigits(name) == |digits| && name[|name| - |digits|..] == digits
  {
    hide TrailingDigits;
    TrailingOfConcat(stem, digits);
    NoTrailing(stem);
  }

  lemma UntilDot(rest: string)
    requires rest == "" || rest[0] == '.'
    ensures Until(rest, '.') == 0
  {
  }

  lemma NoTrailing(stem: string)
    requires stem != "" ==> !IsDigit(stem[|stem| - 1])
    ensures TrailingDigits(stem) == 0
  {
  }

  /** The highest id is that of some host bearing the prefix, or none bears it. */
  lemma {:induction false} HighestIdIs(d: Dict<Vars>, prefix: string, i: nat, highest: nat)
    requires i <= |d.items|
    ensures match HighestId(d, prefix, i, highest)
            case None => exists k :: i <= k < |d.items| && prefix <= d.items[k].0 && HostId(d.items[k].0) == None
            case Some(id) =>
              id == highest || exists k :: i <= k < |d.items| && prefix <= d.items[k].0 && HostId(d.items[k].0) == Some(id)
    decreases |d.items| - i
  {
    hide HostId;
    if i < |d.items| {
      if prefix <= d.items[i].0 {
        if HostId(d.items[i].0).Some? {
          var id := HostId(d.items[i].0).value;
          HighestIdIs(d, prefix, i + 1, if id > highest then id else highest);
        }
      } else {
        HighestIdIs(d, prefix, i + 1, highest);
      }
    }
  }

  // ----- whole runs --------------------------------------------------------------------------------

  /** Addresses without comma that differ from each other, from those there, and from every name there or to come. */
  ghost predicate NewAddresses(b: Build, args: seq<string>, prefix: string) {
    && (forall i :: 0 <= i < |args| ==> args[i] != "" && args[i][0] in DIGITS && ',' !in args[i])
    && (forall i, j :: 0 <= i < j < |args| ==> args[i] != args[j])
    && (forall i :: 0 <= i < |args| ==> NoneWith(b.hosts, args[i]) && !b.hosts.Has(args[i]))
    && (forall i, k: nat :: 0 <= i < |args| && k >= b.nextId ==> args[i] != prefix + Dec(k))
  }

  /** The host generated for an address under a number. */
  ghost predicate Numbered(host: (string, Vars), env: Settings, id: nat, address: string) {
    host.0 == env.prefix + Dec(id) && GeneratedFor(host.1, env, address, address)
  }

  /** Each address becomes a host of its own, behind those there, numbered on from the next id. */
  lemma {:induction false} AddressRun(b: Build, args: seq<string>, env: Settings)
    requires NewAddresses(b, args, env.prefix) && FreshAhead(b.hosts, env.prefix, b.nextId, b.nextId + |args|)
    ensures var c := ApplyAll(b, args, env);
            && c.Some? && c.value.nextId == b.nextId + |args|
            && |c.value.hosts.items| == |b.hosts.items| + |args| && b.hosts.items <= c.value.hosts.items
            && forall i :: 0 <= i < |args| ==>
                 Numbered(c.value.hosts.items[|b.hosts.items| + i], env, b.nextId + i, args[i])
    decreases |args|
  {
    hide Apply, NewAddresses, FreshAhead, Numbered;
    if args != [] {
      assert [args[0]] + args[1..] == args;
      var c := OneAdded(b, args[0], args[1..], env);
      AddressRun(c, args[1..], env);
      var end, n := ApplyAll(c, args[1..], env).value, |b.hosts.items|;
      forall i | 0 <= i < |args|
        ensures Numbered(end.hosts.items[n + i], env, b.nextId + i, args[i])
      {
        if i > 0 {
          assert args[i] == args[1..][i - 1] && b.nextId + i == c.nextId + (i - 1);
          assert n + i == |c.hosts.items| + (i - 1);
        } else {
          assert end.hosts.items[n] == c.hosts.items[n];
        }
      }
    }
  }

  lemma OneAdded(b: Build, arg: string, rest: seq<string>, env: Settings) returns (c: Build)
    requires NewAddresses(b, [arg] + rest, env.prefix)
    requires FreshAhead(b.hosts, env.prefix, b.nextId, b.nextId + 1 + |rest|)
    ensures Apply(b, arg, env) == Some(c) && c.nextId == b.nextId + 1
    ensures |c.hosts.items| == |b.hosts.items| + 1 && b.hosts.items <= c.hosts.items
    ensures Numbered(c.hosts.items[|b.hosts.items|], env, b.nextId, arg)
    ensures NewAddresses(c, rest, env.prefix) && FreshAhead(c.hosts, env.prefix, c.nextId, c.nextId + |rest|)
  {
    hide Dec, GeneratedFor, DIGITS, Apply, NoneWith;
    var args, name := [arg] + rest, env.prefix + Dec(b.nextId);
    assert args[0] == arg && forall i :: 0 <= i < |rest| ==> rest[i] == args[i + 1];
    AddsAddress(b, arg, arg, arg, env);
    NoneIsRead(b.hosts, arg);
    c := Apply(b, arg, env).value;
    var v :| GeneratedFor(v, env, arg, arg) && Put(b.hosts, c.hosts, name, v);
    GeneratedAddress(v, env, arg);
    HasIs(b.hosts, name);
    assert c.hosts.items == b.hosts.items + [(name, v)];
    forall i | 0 <= i < |rest| ensures NoneWith(c.hosts, rest[i]) && !c.hosts.Has(rest[i]) {
      Appended(b.hosts, c.hosts, name, v, rest[i]);
    }
    forall k: nat | c.nextId <= k < c.nextId + |rest| ensures !c.hosts.Has(env.prefix + Dec(k)) {
      Appended(b.hosts, c.hosts, name, v, env.prefix + Dec(k));
      if env.prefix + Dec(k) == name { GeneratedDiffer(env.prefix, k, b.nextId); }
    }
  }

  lemma NoneIsRead(d: Dict<Vars>, ip: string)
    requires NoneWith(d, ip)
    ensures !Unreadable(d, ip) && forall k: nat :: !FirstWith(d, ip, k)
  {
  }

  lemma GeneratedAddress(v: Vars, env: Settings, ip: string)
    requires GeneratedFor(v, env, ip, ip)
    ensures "ip" in v && v["ip"] == ip
  {
  }

  lemma Appended(d: Dict<Vars>, e: Dict<Vars>, h: string, v: Vars, x: string)
    requires e.items == d.items + [(h, v)] && "ip" in v
    ensures e.Has(x) <==> d.Has(x) || x == h
    ensures NoneWith(e, x) <==> NoneWith(d, x) && v["ip"] != x
  {
    assert e.Keys() == d.Keys() + [h];
    if NoneWith(e, x) {
      assert e.items[|d.items|] == (h, v);
      forall j | 0 <= j < |d.items| ensures "ip" in d.items[j].1 && d.items[j].1["ip"] != x {
        assert e.items[j] == d.items[j];
      }
    }
  }

  /** A first run over different addresses numbers them from 1, in the order given. */
  lemma FreshAddresses(args: seq<string>, env: Settings)
    requires NewAddresses(Build(Dict([]), 1, Locals(None, None, None)), args, env.prefix)
    ensures var d := BuildHostnames(None, false, args, env);
            && d.Some? && |d.value.items| == |args|
            && forall i :: 0 <= i < |args| ==> Numbered(d.value.items[i], env, i + 1, args[i])
  {
    hide ApplyAll, NewAddresses, Numbered;
    var b := Build(Dict([]), 1, Locals(None, None, None));
    AddressRun(b, args, env);
    var c := ApplyAll(b, args, env).value;
    forall i | 0 <= i < |args| ensures Numbered(c.hosts.items[i], env, i + 1, args[i]) {
      assert Numbered(c.hosts.items[|b.hosts.items| + i], env, b.nextId + i, args[i]);
    }
  }

  /** A run over a loaded table under a safe prefix keeps it and numbers new addresses on from its highest id. */
  lemma LoadedAddresses(d: Dict<Vars>, args: seq<string>, env: Settings)
    requires SafePrefix(env.prefix) && Loaded(Some(d), true, env).Some?
    requires NewAddresses(Loaded(Some(d), true, env).value, args, env.prefix)
    ensures var next, e := Loaded(Some(d), true, env).value.nextId, BuildHostnames(Some(d), true, args, env);
            && (next == 1 || exists k :: 0 <= k < |d.items| && env.prefix <= d.items[k].0
                                         && HostId(d.items[k].0) == Some((next - 1) as nat))
            && (forall k :: 0 <= k < |d.items| && env.prefix <= d.items[k].0 ==>
                  HostId(d.items[k].0).Some? && HostId(d.items[k].0).value < next)
            && e.Some? && |e.value.items| == |d.items| + |args| && d.items <= e.value.items
            && forall i :: 0 <= i < |args| ==> Numbered(e.value.items[|d.items| + i], env, next + i, args[i])
  {
    hide ApplyAll, NewAddresses, Numbered, HostId, SafePrefix;
    var b := Loaded(Some(d), true, env).value;
    HighestIdIs(d, env.prefix, 0, 0);
    HighestIdBounds(d, env.prefix, 0, 0);
    LoadedUnused(d, env);
    AddressRun(b, args, env);
  }
}
