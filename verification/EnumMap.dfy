/**
  The two-way map between enumeration names and numbers: one table sorted by
  number, and a permutation of it that sorts the names.
 */
module EnumMap {
  import opened Octets
  import opened Decimal

  /** `asn_INTEGER_enum_map_t`; the name is the C string without its terminator. */
  datatype Entry = Entry(value: int, name: text)

  /** `asn_INTEGER_specifics_t`, the fields this model reads. */
  datatype Specs = Specs(value2enum: seq<Entry>, enum2value: seq<nat>, extension: int, strict: bool, fieldUnsigned: bool) {
    /** The compiled tables: numbers ascending, `enum2value` a permutation that puts the names in order. */
    ghost predicate WellFormed() {
      && (forall i :: 0 <= i < |value2enum| ==> IsName(value2enum[i].name) && FitsImax(value2enum[i].value))
      && (forall i, j :: 0 <= i < j < |value2enum| ==> value2enum[i].value < value2enum[j].value)
      && |enum2value| == |value2enum|
      && (forall i :: 0 <= i < |enum2value| ==> enum2value[i] < |value2enum|)
      && (forall i, j :: 0 <= i < j < |enum2value| ==> KeyDiff(NameAt(i), NameAt(j)) < 0)
      && (forall k :: 0 <= k < |value2enum| ==> k in enum2value)
      && 0 <= extension && extension - 1 <= |value2enum|
    }

    /** The i-th name in name order. */
    function NameAt(i: nat): text {
      if i < |enum2value| && enum2value[i] < |value2enum| then value2enum[enum2value[i]].name else []
    }
  }

  /** A non-empty C string: no NUL inside. */
  predicate IsName(s: text) {
    s != [] && 0 !in s
  }

  /**
    `INTEGER__compar_enum2value` on the key text and the remapped entry's name:
    the difference at the first unequal character, the name ending in NUL.
   */
  function KeyDiff(key: text, name: text): int {
    if key == [] then
      if name == [] then 0 else -1
    else if name == [] then key[0] as int
    else if key[0] != name[0] then key[0] - name[0]
    else KeyDiff(key[1..], name[1..])
  }

  /** The comparison loop, with the name read up to its terminating NUL. */
  method ComparEnum2Value(key: text, name: text) returns (diff: int)
    requires 0 !in name
    ensures diff == KeyDiff(key, name)
  {
    var cstring := name + [0];
    var ptr := 0;
    assert key[0..] == key && name[0..] == name;
    while ptr < |key|
      invariant 0 <= ptr <= |key| && ptr <= |name|
      invariant KeyDiff(key[ptr..], name[ptr..]) == KeyDiff(key, name)
    {
      var c, n := key[ptr], cstring[ptr];
      if c != n || n == 0 {
        assert ptr < |name| ==> name[ptr] in name;
        return (c as int) - (n as int);
      }
      assert key[ptr..][1..] == key[ptr + 1..] && name[ptr..][1..] == name[ptr + 1..];
      ptr := ptr + 1;
    }
    diff := if cstring[ptr] != 0 then -1 else 0;
    assert ptr < |name| ==> name[ptr] in name;
  }

  /** A key selects a name by equality, or when it goes on with a NUL right after the name. */
  predicate Selects(key: text, name: text) {
    key == name || (|name| < |key| && key[..|name|] == name && key[|name|] == 0)
  }

  lemma {:induction false} KeyDiffZero(key: text, name: text)
    requires 0 !in name
    ensures KeyDiff(key, name) == 0 <==> Selects(key, name)
  {
    if key != [] && name != [] {
      assert key == [key[0]] + key[1..] && name == [name[0]] + name[1..];
      if key[0] == name[0] {
        KeyDiffZero(key[1..], name[1..]);
        if |name| < |key| {
          assert key[..|name|] == [key[0]] + key[1..][..|name| - 1];
        }
      } else {
        if |name| < |key| { assert key[..|name|][0] == key[0]; }
      }
    }
  }

  /** The comparison orders any key consistently with the order of the names. */
  lemma {:induction false} KeyDiffTransitive(key: text, a: text, b: text)
    requires 0 !in a && 0 !in b
    requires KeyDiff(key, a) <= 0 && KeyDiff(a, b) < 0
    ensures KeyDiff(key, b) < 0
  {
    assert b != [] ==> b[0] in b;
    if key != [] && a != [] && b != [] {
      if key[0] == a[0] == b[0] {
        KeyDiffTransitive(key[1..], a[1..], b[1..]);
      }
    }
  }

  /** The entries in name order compare below, at, and above a key, in that order. */
  lemma NamesOrdered(specs: Specs, key: text, i: nat, j: nat)
    requires specs.WellFormed()
    requires i < j < |specs.enum2value|
    requires KeyDiff(key, specs.NameAt(i)) <= 0
    ensures KeyDiff(key, specs.NameAt(j)) < 0
  {
    assert KeyDiff(specs.NameAt(i), specs.NameAt(j)) < 0;
    KeyDiffTransitive(key, specs.NameAt(i), specs.NameAt(j));
  }

  // ----- the meaning of the two lookups ----------------------------------------

  /** The entry with this number, by linear search. */
  function ByValue(table: seq<Entry>, value: int): Option<Entry> {
    if table == [] then None
    else if table[0].value == value then Some(table[0])
    else ByValue(table[1..], value)
  }

  /** The first entry this key selects, by linear search. */
  function ByName(table: seq<Entry>, key: text): Option<Entry> {
    if table == [] then None
    else if Selects(key, table[0].name) then Some(table[0])
    else ByName(table[1..], key)
  }

  lemma {:induction false} ByValueIs(table: seq<Entry>, k: nat)
    requires k < |table| && forall i :: 0 <= i < k ==> table[i].value != table[k].value
    ensures ByValue(table, table[k].value) == Some(table[k])
  {
    if k > 0 {
      ByValueIs(table[1..], k - 1);
    }
  }

  lemma {:induction false} ByValueMisses(table: seq<Entry>, value: int)
    requires forall i :: 0 <= i < |table| ==> table[i].value != value
    ensures ByValue(table, value) == None
  {
    if table != [] {
      ByValueMisses(table[1..], value);
    }
  }

  lemma {:induction false} ByNameIs(table: seq<Entry>, key: text, k: nat)
    requires k < |table| && Selects(key, table[k].name)
    requires forall i :: 0 <= i < k ==> !Selects(key, table[i].name)
    ensures ByName(table, key) == Some(table[k])
  {
    if k > 0 {
      ByNameIs(table[1..], key, k - 1);
    }
  }

  lemma {:induction false} ByNameMisses(table: seq<Entry>, key: text)
    requires forall i :: 0 <= i < |table| ==> !Selects(key, table[i].name)
    ensures ByName(table, key) == None
  {
    if table != [] {
      ByNameMisses(table[1..], key);
    }
  }

  /** At most one entry of a well-formed table is selected by a key. */
  lemma SelectedOnce(specs: Specs, key: text, i: nat, j: nat)
    requires specs.WellFormed()
    requires i < |specs.value2enum| && j < |specs.value2enum|
    requires Selects(key, specs.value2enum[i].name) && Selects(key, specs.value2enum[j].name)
    ensures i == j
  {
    assert i in specs.enum2value && j in specs.enum2value;
    var p :| 0 <= p < |specs.enum2value| && specs.enum2value[p] == i;
    var q :| 0 <= q < |specs.enum2value| && specs.enum2value[q] == j;
    KeyDiffZero(key, specs.NameAt(p));
    KeyDiffZero(key, specs.NameAt(q));
    if p < q {
      NamesOrdered(specs, key, p, q);
    } else if q < p {
      NamesOrdered(specs, key, q, p);
    }
  }

  // ----- the lookups -------------------------------------------------------------

  /** `INTEGER_map_value2enum`: bsearch over the table by number. */
  method MapValue2Enum(specs: Option<Specs>, value: int) returns (el: Option<Entry>)
    requires specs.Some? ==> specs.value.WellFormed()
    ensures el == if specs == None then None else ByValue(specs.value.value2enum, value)
  {
    if specs == None { return None; }
    var table := specs.value.value2enum;
    var lo, hi := 0, |table|;
    while lo < hi
      invariant 0 <= lo <= hi <= |table|
      invariant forall i :: 0 <= i < lo ==> table[i].value < value
      invariant forall i :: hi <= i < |table| ==> value < table[i].value
    {
      var mid := (lo + hi) / 2;
      if value < table[mid].value {
        hi := mid;
      } else if value > table[mid].value {
        lo := mid + 1;
      } else {
        ByValueIs(table, mid);
        return Some(table[mid]);
      }
    }
    ByValueMisses(table, value);
    el := None;
  }

  /** bsearch over the table by name, through the permutation. */
  method SearchName(specs: Specs, key: text) returns (el: Option<Entry>)
    requires specs.WellFormed()
    ensures el == ByName(specs.value2enum, key)
  {
    var table := specs.value2enum;
    var lo, hi := 0, |table|;
    while lo < hi
      invariant 0 <= lo <= hi <= |table|
      invariant forall i :: 0 <= i < lo ==> KeyDiff(key, specs.NameAt(i)) > 0
      invariant forall i :: hi <= i < |table| ==> KeyDiff(key, specs.NameAt(i)) < 0
    {
      var mid := (lo + hi) / 2;
      var k := specs.enum2value[mid];
      var diff := ComparEnum2Value(key, table[k].name);
      if diff < 0 {
        forall i | mid <= i < |table| ensures KeyDiff(key, specs.NameAt(i)) < 0 {
          if i > mid { NamesOrdered(specs, key, mid, i); }
        }
        hi := mid;
      } else if diff > 0 {
        forall i | 0 <= i <= mid ensures KeyDiff(key, specs.NameAt(i)) > 0 {
          if i < mid && KeyDiff(key, specs.NameAt(i)) <= 0 { NamesOrdered(specs, key, i, mid); }
        }
        lo := mid + 1;
      } else {
        KeyDiffZero(key, table[k].name);
        forall i | 0 <= i < k ensures !Selects(key, table[i].name) {
          if Selects(key, table[i].name) { SelectedOnce(specs, key, i, k); }
        }
        ByNameIs(table, key, k);
        return Some(table[k]);
      }
    }
    forall i | 0 <= i < |table| ensures !Selects(key, table[i].name) {
      assert i in specs.enum2value;
      var p :| 0 <= p < |specs.enum2value| && specs.enum2value[p] == i;
      KeyDiffZero(key, specs.NameAt(p));
    }
    ByNameMisses(table, key);
    el := None;
  }

  predicate EndsTag(c: octet) {
    9 <= c <= 13 || c == 32 || c == 0x2f || c == 0x3e
  }

  /** Length of the text before the first character that ends a tag name. */
  function TagRun(s: text): (n: nat)
    ensures n <= |s|
  {
    if s == [] || EndsTag(s[0]) then 0 else 1 + TagRun(s[1..])
  }

  /** What the text of a tag, from its first character on, selects. */
  function TagEntry(specs: Option<Specs>, tag: text): Option<Entry> {
    if specs == None || tag == [] || TagRun(tag[1..]) == |tag| - 1 then None
    else ByName(specs.value.value2enum, tag[1..][..TagRun(tag[1..])])
  }

  /** Blanks of every kind, the slash and the closing angle bracket. */
  const TERMINATORS: seq<octet> := [9, 10, 11, 12, 13, 32, SLASH, GREATER]

  lemma {:induction false} TagRunIs(s: text, n: nat)
    requires n <= |s| && (n < |s| ==> s[n] in TERMINATORS)
    requires forall i :: 0 <= i < n ==> s[i] !in TERMINATORS
    ensures TagRun(s) == n
  {
    if n > 0 {
      TagRunIs(s[1..], n - 1);
    }
  }

  /** A name ends at the first terminator after the bracket; without one there is no tag. */
  lemma TagEntryIs(specs: Specs, tag: text, n: nat)
    requires n < |tag| && (n + 1 < |tag| ==> tag[n + 1] in TERMINATORS)
    requires forall i :: 1 <= i <= n ==> tag[i] !in TERMINATORS
    ensures TagEntry(Some(specs), tag)
         == if n + 1 == |tag| then None else ByName(specs.value2enum, tag[1..n + 1])
  {
    TagRunIs(tag[1..], n);
    assert tag[1..][..n] == tag[1..n + 1];
  }

  /** `INTEGER_map_enum2value` on the text from `lstart` to `lstop`. */
  method MapEnum2Value(specs: Option<Specs>, tag: text) returns (el: Option<Entry>)
    requires tag != []
    requires specs.Some? ==> specs.value.WellFormed()
    ensures el == TagEntry(specs, tag)
  {
    if specs == None { return None; }
    if |specs.value.value2enum| == 0 { return None; }
    var name := tag[1..];
    var lp := 0;
    assert name[0..] == name;
    while lp < |name|
      invariant 0 <= lp <= |name|
      invariant TagRun(name) == lp + TagRun(name[lp..])
    {
      if EndsTag(name[lp]) { break; }
      assert name[lp..][1..] == name[lp + 1..];
      lp := lp + 1;
    }
    if lp == |name| { return None; }
    el := SearchName(specs.value, name[..lp]);
  }

  // ----- agreement -----------------------------------------------------------------

  /** Every entry is found under its number and under its name. */
  lemma EntryFoundBothWays(specs: Specs, k: nat)
    requires specs.WellFormed() && k < |specs.value2enum|
    ensures ByValue(specs.value2enum, specs.value2enum[k].value) == Some(specs.value2enum[k])
    ensures ByName(specs.value2enum, specs.value2enum[k].name) == Some(specs.value2enum[k])
  {
    var table := specs.value2enum;
    ByValueIs(table, k);
    forall i | 0 <= i < k ensures !Selects(table[k].name, table[i].name) {
      if Selects(table[k].name, table[i].name) { SelectedOnce(specs, table[k].name, i, k); }
    }
    ByNameIs(table, table[k].name, k);
  }

  /** A key without NUL finds exactly the entry of that name, or nothing when there is none. */
  lemma {:induction false} NameFoundIffListed(table: seq<Entry>, key: text)
    requires 0 !in key
    ensures match ByName(table, key)
            case Some(e) => e in table && e.name == key
            case None => forall i :: 0 <= i < |table| ==> table[i].name != key
  {
    assert forall i :: 0 <= i < |key| ==> key[i] in key;
    if table != [] && !Selects(key, table[0].name) {
      NameFoundIffListed(table[1..], key);
    }
  }

  lemma {:induction false} ByNameListed(table: seq<Entry>, key: text)
    ensures ByName(table, key).Some? ==>
              ByName(table, key).value in table && Selects(key, ByName(table, key).value.name)
  {
    if table != [] {
      ByNameListed(table[1..], key);
    }
  }

  /** A NUL inside the key hides what follows it: such a key is taken for the shorter name. */
  lemma NulCutsTheKey(specs: Specs, k: nat, key: text)
    requires specs.WellFormed() && k < |specs.value2enum|
    requires specs.value2enum[k].name + [0] <= key
    ensures ByName(specs.value2enum, key) == Some(specs.value2enum[k])
  {
    var table := specs.value2enum;
    var n := |table[k].name|;
    assert key[..n + 1] == table[k].name + [0];
    assert key[..n] == key[..n + 1][..n] && key[n] == key[..n + 1][n];
    forall i | 0 <= i < k ensures !Selects(key, table[i].name) {
      if Selects(key, table[i].name) { SelectedOnce(specs, key, i, k); }
    }
    ByNameIs(table, key, k);
  }

  /** An entry of another name is found exactly for the keys that go on after some name with a NUL. */
  lemma OtherNameFound(specs: Specs, key: text)
    requires specs.WellFormed()
    ensures (ByName(specs.value2enum, key).Some? && ByName(specs.value2enum, key).value.name != key)
            <==> exists k :: 0 <= k < |specs.value2enum| && specs.value2enum[k].name + [0] <= key
  {
    var table, found := specs.value2enum, ByName(specs.value2enum, key);
    if found.Some? && found.value.name != key {
      ByNameListed(table, key);
      var k :| 0 <= k < |table| && table[k] == found.value;
      var n := |table[k].name|;
      assert key[..n + 1] == key[..n] + [key[n]];
      assert table[k].name + [0] <= key;
    }
    if k :| 0 <= k < |table| && table[k].name + [0] <= key {
      NulCutsTheKey(specs, k, key);
    }
  }
}
